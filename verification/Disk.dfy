/** The kernel's side of a file descriptor: the file, and answers nobody can predict. */
module Disk {
  import opened Bytes

  datatype Answer = Took(n: nat) | Again | Fail

  class Disk {
    var bytes: seq<byte>
    /** How many write requests have been made. */
    var writes: nat
    /** How many requests have been answered with an error other than EAGAIN. */
    var failures: nat
    /** How many have been answered with EAGAIN, or taken in part. */
    var partials: nat
    /** How many times the system has refused to set the length. */
    var refusals: nat
    /** How many times the kernel will still answer that it took nothing of a non-empty request. */
    var stalls: nat

    /** The file, a schedule-dependent part of which `write` replaces. */
    method WriteAt(d: seq<byte>, off: nat) returns (a: Answer)
      requires d != []
      modifies this
      ensures writes == old(writes) + 1
      ensures a.Took? ==> a.n <= |d| && bytes == Pwrite(old(bytes), off, d[..a.n])
      ensures a.Took? && a.n == 0 ==> stalls < old(stalls)
      ensures !a.Took? || a.n > 0 ==> stalls == old(stalls)
      ensures !a.Took? ==> bytes == old(bytes)
      ensures failures == old(failures) + if a.Fail? then 1 else 0
      ensures partials == old(partials) + if a.Fail? || a == Took(|d|) then 0 else 1
      ensures refusals == old(refusals)
    {
      writes := writes + 1;
      var kind :| 0 <= kind < 3;
      if kind == 0 {
        partials := partials + 1;
        return Again;
      } else if kind == 1 {
        failures := failures + 1;
        return Fail;
      }
      var n :| 0 <= n <= |d| && (stalls == 0 ==> n > 0);
      if n == 0 {
        stalls := stalls - 1;
      }
      if n < |d| {
        partials := partials + 1;
      }
      bytes := Pwrite(bytes, off, d[..n]);
      return Took(n);
    }

    /** A pipe takes bytes at its end. */
    method Append(d: seq<byte>) returns (a: Answer)
      requires d != []
      modifies this
      ensures writes == old(writes) + 1
      ensures a.Took? ==> a.n <= |d| && bytes == Pwrite(old(bytes), |old(bytes)|, d[..a.n])
      ensures a.Took? && a.n == 0 ==> stalls < old(stalls)
      ensures !a.Took? || a.n > 0 ==> stalls == old(stalls)
      ensures !a.Took? ==> bytes == old(bytes)
      ensures failures == old(failures) + if a.Fail? then 1 else 0
      ensures partials == old(partials) + if a.Fail? || a == Took(|d|) then 0 else 1
      ensures refusals == old(refusals)
    {
      a := WriteAt(d, |bytes|);
    }

    method Truncate(n: nat) returns (ok: bool)
      modifies this`bytes, this`refusals
      ensures bytes == if ok then Resize(old(bytes), n) else old(bytes)
      ensures refusals == old(refusals) + if ok then 0 else 1
    {
      ok :| true;
      if ok {
        bytes := Resize(bytes, n);
      } else {
        refusals := refusals + 1;
      }
    }
  }
}
