/** src/util/util.h: file comparison through a window, in full or by three samples. */
module FileCmp {
  import opened Bytes

  const TWO63: nat := 0x8000_0000_0000_0000
  const TWO64: nat := 0x1_0000_0000_0000_0000

  /** The bytes that `fffile_readat` delivers. */
  function ReadAt(file: seq<byte>, off: nat, n: nat): seq<byte>
  {
    if |file| <= off then [] else file[off..Min(|file|, off + n)]
  }

  /** Whether one of the three samples covers a position: the first `window` bytes, as many from
      the middle on, and the last ones. */
  predicate Sampled(size: nat, window: nat, k: nat)
  {
    k < size && (k < window || size / 2 <= k < size / 2 + window || size <= k + window)
  }

  ghost predicate Agree(a: seq<byte>, b: seq<byte>, fast: bool, window: nat)
  {
    && |a| == |b|
    && forall k :: 0 <= k < |a| && (fast ==> Sampled(|a|, window, k)) ==> a[k] == b[k]
  }

  /** Whether the bytes from `off` on, as many as the window takes, are the same. */
  ghost predicate SameChunk(a: seq<byte>, b: seq<byte>, off: nat, window: nat)
  {
    forall k :: off <= k < off + window && k < |a| && k < |b| ==> a[k] == b[k]
  }

  lemma ChunkCompared(a: seq<byte>, b: seq<byte>, off: nat, window: nat)
    requires |a| == |b|
    ensures ReadAt(a, off, window) == ReadAt(b, off, window) <==> SameChunk(a, b, off, window)
  {
    var x, y := ReadAt(a, off, window), ReadAt(b, off, window);
    if x == y {
      forall k | off <= k < off + window && k < |a| ensures a[k] == b[k] {
        assert x[k - off] == y[k - off];
      }
    }
  }

  /** The offsets of the three samples, as unsigned 64-bit numbers. */
  function Offset(size: nat, window: nat, i: nat): nat
  {
    if i == 0 then 0
    else if i == 1 then if size > window then size / 2 else TWO64 - 1
    else if size >= window then size - window else Max(TWO64 + size, window) - window
  }

  function Offsets(size: nat, window: nat): (offsets: seq<nat>)
    requires window < TWO64
    ensures |offsets| == 3 && forall i :: 0 <= i < 3 ==> offsets[i] == Offset(size, window, i)
  {
    [0, if size > window then size / 2 else TWO64 - 1, if size >= window then size - window else TWO64 + size - window]
  }

  /** The samples before number `i` have been compared, and did not reach the end of the file. */
  ghost predicate Done(a: seq<byte>, b: seq<byte>, window: nat, i: nat)
  {
    && |a| == |b|
    && (forall j: nat :: j < i ==> SameChunk(a, b, Offset(|a|, window, j), window))
    && (i > 0 ==> Offset(|a|, window, i - 1) + window <= |a|)
    && (i > 1 ==> window < |a|)
  }

  /** The bytes in front of `off` have been compared. */
  ghost predicate DoneUpTo(a: seq<byte>, b: seq<byte>, off: nat)
  {
    |a| == |b| && forall k :: 0 <= k < off && k < |a| ==> a[k] == b[k]
  }

  /** The pass before, in either mode. */
  ghost predicate SoFar(a: seq<byte>, b: seq<byte>, fast: bool, window: nat, i: nat, off: nat)
  {
    if fast then i <= 3 && Done(a, b, window, i) else i == 0 && DoneUpTo(a, b, off)
  }

  lemma SoFarFast(a: seq<byte>, b: seq<byte>, window: nat, i: nat, off: nat, off': nat)
    requires SoFar(a, b, true, window, i, off)
    ensures i <= 3 && Done(a, b, window, i) && SoFar(a, b, true, window, i, off')
  {
  }

  lemma Start(a: seq<byte>, b: seq<byte>, fast: bool, window: nat)
    requires |a| == |b|
    ensures SoFar(a, b, fast, window, 0, 0)
  {
  }

  /** Three equal samples, or a third one that does not exist. */
  lemma SamplesAgree(a: seq<byte>, b: seq<byte>, window: nat)
    requires Done(a, b, window, 3)
    ensures Agree(a, b, true, window)
  {
    assert SameChunk(a, b, Offset(|a|, window, 0), window);
    assert SameChunk(a, b, Offset(|a|, window, 1), window);
    assert SameChunk(a, b, Offset(|a|, window, 2), window);
  }

  /** Samples that begin behind the end of the file are marked by an offset that is negative as a
      signed number. Only a file as long as the window gets there: its first sample was all of it. */
  lemma NoSample(a: seq<byte>, b: seq<byte>, window: nat, i: nat)
    requires i < 3 && Done(a, b, window, i) && 0 < window < TWO63 && |a| < TWO63
    requires Offset(|a|, window, i) >= TWO63
    ensures Agree(a, b, true, window)
  {
    assert SameChunk(a, b, Offset(|a|, window, 0), window);
  }

  /** A sample that reaches the end of the file makes the remaining ones needless. */
  lemma ShortSample(a: seq<byte>, b: seq<byte>, window: nat, i: nat)
    requires i < 3 && Done(a, b, window, i) && |a| < Offset(|a|, window, i) + window
    requires Offset(|a|, window, i) < TWO63
    requires SameChunk(a, b, Offset(|a|, window, i), window)
    ensures Agree(a, b, true, window)
  {
    assert i > 0 ==> SameChunk(a, b, Offset(|a|, window, 0), window);
  }

  /** A sample that does not reach it leads to the next one. */
  lemma NextSample(a: seq<byte>, b: seq<byte>, window: nat, i: nat)
    requires i < 3 && Done(a, b, window, i) && Offset(|a|, window, i) + window <= |a|
    requires Offset(|a|, window, i) < TWO63 && |a| < TWO63 && window > 0
    requires SameChunk(a, b, Offset(|a|, window, i), window)
    ensures Done(a, b, window, i + 1)
  {
  }

  /** A difference within a sample, or within any chunk in full mode, is a difference. */
  lemma DifferenceShows(a: seq<byte>, b: seq<byte>, fast: bool, window: nat, i: nat, off: nat)
    requires |a| == |b| && !SameChunk(a, b, off, window) && |a| < TWO63
    requires fast ==> i < 3 && off == Offset(|a|, window, i) && off < TWO63
    ensures !Agree(a, b, fast, window)
  {
    var k :| off <= k < off + window && k < |a| && a[k] != b[k];
    assert fast ==> Sampled(|a|, window, k);
  }

  /** One more chunk in full mode. */
  lemma NextChunk(a: seq<byte>, b: seq<byte>, window: nat, off: nat)
    requires DoneUpTo(a, b, off) && SameChunk(a, b, off, window)
    ensures DoneUpTo(a, b, off + window)
    ensures |a| < off + window ==> Agree(a, b, false, window)
  {
  }

  /** What one pass with equal chunks leads to. */
  lemma EqualChunks(a: seq<byte>, b: seq<byte>, fast: bool, window: nat, i: nat, off: nat)
    requires SoFar(a, b, fast, window, i, off) && SameChunk(a, b, off, window)
    requires 0 < window && |a| < TWO63
    requires fast ==> i < 3 && off == Offset(|a|, window, i) && off < TWO63
    ensures if |a| < off + window then Agree(a, b, fast, window)
            else SoFar(a, b, fast, window, if fast then i + 1 else 0, off + window)
  {
    hide SameChunk, Agree, Done, DoneUpTo, Offset;
    if !fast {
      NextChunk(a, b, window, off);
    } else if |a| < off + window {
      ShortSample(a, b, window, i);
    } else {
      NextSample(a, b, window, i);
    }
  }

  /** The loop of `file_cmp`. */
  method CompareContents(a: seq<byte>, b: seq<byte>, window: nat, fast: bool, readFails: nat -> bool) returns (rc: int)
    requires 0 < window < TWO63 && |a| == |b| < TWO63
    ensures rc == 0 || rc == 1 || rc == -1
    ensures rc == 0 ==> Agree(a, b, fast, window)
    ensures rc == 1 ==> !Agree(a, b, fast, window)
    ensures rc == -1 ==> exists i :: readFails(i)
  {
    hide SoFar, Done, DoneUpTo, SameChunk, Agree, Offset, Offsets, Sampled;
    var offsets := Offsets(|a|, window);
    var off: nat, i: nat, pass: nat := 0, 0, 0;
    Start(a, b, fast, window);
    while true
      invariant i <= 3 && (!fast ==> i == 0) && SoFar(a, b, fast, window, i, off)
      decreases 3 - i, |a| + window - off
    {
      ghost var n := i;
      if fast {
        if i == 3 {
          SoFarFast(a, b, window, 3, off, off);
          SamplesAgree(a, b, window);
          return 0;
        }
        SoFarFast(a, b, window, i, off, offsets[i]);
        off := offsets[i];
        i := i + 1;
        if off >= TWO63 {
          NoSample(a, b, window, n);
          return 0;
        }
      }
      var r1, r2 := ReadAt(a, off, window), ReadAt(b, off, window);
      if readFails(pass) {
        return -1;
      }
      pass := pass + 1;
      ChunkCompared(a, b, off, window);
      if r1 != r2 {
        DifferenceShows(a, b, fast, window, n, off);
        return 1;
      }
      EqualChunks(a, b, fast, window, n, off);
      off := off + window;
      if |r1| < window {
        return 0;
      }
    }
  }

  /** `file_cmp`. A file that cannot be opened is `None`; `readFails` says which pair of reads
      meets an error. The middle sample may reach the end of the file, and then the third one is
      not taken. */
  method Compare(f1: Option<seq<byte>>, f2: Option<seq<byte>>, window: nat, fast: bool, readFails: nat -> bool)
    returns (rc: int)
    requires 0 < window < TWO63
    requires f1.Some? ==> |f1.value| < TWO63
    ensures -1 <= rc <= 1
    ensures f1.None? || f2.None? ==> rc == -1
    ensures rc == 0 ==> f1.Some? && f2.Some? && Agree(f1.value, f2.value, fast, window)
    ensures rc == 1 ==> f1.Some? && f2.Some? && !Agree(f1.value, f2.value, fast, window)
    ensures f1.Some? && f2.Some? && rc == -1 ==> exists i :: readFails(i)
  {
    if f1.None? || f2.None? {
      return -1;
    }
    if |f1.value| != |f2.value| {
      return 1;
    }
    hide SoFar, SameChunk, Agree, Offset;
    rc := CompareContents(f1.value, f2.value, window, fast, readFails);
  }

  /** Which bytes the files must have in common. */
  lemma AgreeExactly(a: seq<byte>, b: seq<byte>, fast: bool, window: nat)
    ensures Agree(a, b, fast, window) <==>
      && |a| == |b|
      && forall k :: 0 <= k < |a| && a[k] != b[k] ==>
           fast && window <= k < |a| - window && (k < |a| / 2 || |a| / 2 + window <= k)
  {
  }

  /** In full mode the comparison is exact. */
  lemma FullIsExact(a: seq<byte>, b: seq<byte>, window: nat)
    ensures Agree(a, b, false, window) <==> a == b
  {
  }

  /** Equal files are never rejected, in either mode. */
  lemma EqualAgree(a: seq<byte>, fast: bool, window: nat)
    ensures Agree(a, a, fast, window)
  {
  }

  /** In fast mode the comparison of files of one size is exact exactly when half of the size
      fits into the window: then, and only then, the three samples cover the file. */
  ghost predicate FastIsExact(size: nat, window: nat)
  {
    forall a: seq<byte>, b: seq<byte> :: |a| == |b| == size ==> (Agree(a, b, true, window) <==> a == b)
  }

  lemma FastExactness(size: nat, window: nat)
    requires window > 0
    ensures FastIsExact(size, window) <==> size / 2 <= window
  {
    if size / 2 <= window {
      forall a: seq<byte>, b: seq<byte> | |a| == |b| == size
        ensures Agree(a, b, true, window) <==> a == b
      {
        assert forall k :: 0 <= k < size ==> Sampled(size, window, k);
      }
    } else {
      var a := seq(size, _ => 0);
      var b := a[window := 1];
      assert !Sampled(size, window, window);
      assert Agree(a, b, true, window) && a[window] != b[window];
    }
  }
}
