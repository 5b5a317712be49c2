/** The meaning of a back reference: bytes are copied one at a time, so a match may overlap the
    bytes it produces. */
module Lz77 {
  import opened Bytes

  function CopyMatch(out: seq<byte>, offset: nat, n: nat): (r: seq<byte>)
    requires 0 < offset <= |out|
    ensures |r| == |out| + n
    decreases n
  {
    if n == 0 then out else CopyMatch(out + [out[|out| - offset]], offset, n - 1)
  }

  /** On `lo..hi` every byte repeats the one `p` places before it. */
  ghost predicate Periodic(s: seq<byte>, lo: nat, hi: nat, p: nat) {
    p <= lo && hi <= |s| && forall k | lo <= k < hi :: s[k] == s[k - p]
  }

  lemma {:induction false} CopyIsPeriodic(out: seq<byte>, offset: nat, n: nat)
    requires 0 < offset <= |out|
    ensures CopyMatch(out, offset, n)[..|out|] == out
    ensures Periodic(CopyMatch(out, offset, n), |out|, |out| + n, offset)
    decreases n
  {
    if n > 0 {
      var out' := out + [out[|out| - offset]];
      CopyIsPeriodic(out', offset, n - 1);
      var r := CopyMatch(out', offset, n - 1);
      assert r[..|out|] == r[..|out'|][..|out|];
      assert r[|out|] == r[..|out'|][|out|] && r[|out| - offset] == r[..|out'|][|out| - offset];
    }
  }

  /** The same byte again and again. */
  ghost predicate Steady(src: seq<byte>) { forall k | 0 <= k < |src| :: src[k] == src[0] }

  /** Periodicity determines the copied bytes. */
  lemma {:induction false} PeriodicIsCopy(s: seq<byte>, lo: nat, hi: nat, offset: nat)
    requires 0 < offset <= lo <= hi <= |s| && Periodic(s, lo, hi, offset)
    ensures s[..hi] == CopyMatch(s[..lo], offset, hi - lo)
    decreases hi - lo
  {
    if lo < hi {
      assert s[..lo + 1] == s[..lo] + [s[lo - offset]];
      PeriodicIsCopy(s, lo + 1, hi, offset);
    }
  }

  /** Two matches with the same offset, one after the other, are one match. */
  lemma {:induction false} CopyCopy(out: seq<byte>, offset: nat, m: nat, n: nat)
    requires 0 < offset <= |out|
    ensures CopyMatch(CopyMatch(out, offset, m), offset, n) == CopyMatch(out, offset, m + n)
    decreases m
  {
    if m > 0 { CopyCopy(out + [out[|out| - offset]], offset, m - 1, n); }
  }

  function Times(p: nat, m: nat): nat {
    if m == 0 then 0 else p + Times(p, m - 1)
  }

  /** Going down by `m` periods inside the periodic part does not change the byte. */
  lemma {:induction false} PeriodsDown(s: seq<byte>, lo: nat, hi: nat, p: nat, k: nat, m: nat)
    requires Periodic(s, lo, hi, p) && k < hi && (m >= 1 ==> k >= lo + Times(p, m - 1))
    ensures Times(p, m) <= k && s[k - Times(p, m)] == s[k]
    decreases m
  {
    if m > 0 {
      PeriodsDown(s, lo, hi, p, k, m - 1);
      var j := k - Times(p, m - 1);
      assert s[j] == s[j - p];
    }
  }

  /** A copy from a multiple of the offset away continues the match, once that much is behind. */
  lemma {:induction false} MultipleContinues(s: seq<byte>, lo: nat, mid: nat, hi: nat, p: nat, m: nat)
    requires m >= 1 && 0 < p <= lo <= mid <= hi <= |s| && Periodic(s, lo, mid, p)
    requires Times(p, m) <= mid && Periodic(s, mid, hi, Times(p, m))
    requires lo + Times(p, m - 1) <= mid
    ensures Periodic(s, lo, hi, p)
    decreases hi - mid
  {
    if mid < hi {
      PeriodsDown(s, lo, mid, p, mid - p, m - 1);
      assert s[mid] == s[mid - p];
      MultipleContinues(s, lo, mid + 1, hi, p, m);
    }
  }

  /** The entries of a compressor's hash table are positions before `bound`, so a candidate always lies behind. */
  ghost predicate Behind(table: array<nat>, bound: nat)
    reads table
  {
    forall k | 0 <= k < table.Length :: table[k] < bound
  }
}
