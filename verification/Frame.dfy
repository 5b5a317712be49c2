/** The frame (`curval_mem`): the current value of every fixed-width signal, one behind the other. */
module Frame {
  import opened Bytes

  /** Where a signal's value begins: `vm4ip[0]`. Variable-length signals take no room. */
  function Offset(lens: seq<nat>, x: nat): nat
    requires x <= |lens|
  {
    if x == 0 then 0 else Offset(lens, x - 1) + lens[x - 1]
  }

  ghost predicate ValuesFit(lens: seq<nat>, vals: seq<seq<byte>>) {
    |vals| == |lens| && forall x | 0 <= x < |lens| :: |vals[x]| == lens[x]
  }

  function FrameBytes(vals: seq<seq<byte>>): seq<byte> {
    if vals == [] then [] else FrameBytes(vals[..|vals| - 1]) + vals[|vals| - 1]
  }

  lemma {:induction false} FrameSize(lens: seq<nat>, vals: seq<seq<byte>>, n: nat)
    requires ValuesFit(lens, vals) && n <= |lens|
    ensures |FrameBytes(vals[..n])| == Offset(lens, n)
  {
    if n > 0 {
      FrameSize(lens, vals, n - 1);
      assert vals[..n][..n - 1] == vals[..n - 1];
    }
  }

  /** Every signal's value is found at its offset. */
  lemma {:induction false} FrameAt(lens: seq<nat>, vals: seq<seq<byte>>, n: nat, x: nat)
    requires ValuesFit(lens, vals) && x < n <= |lens|
    ensures At(FrameBytes(vals[..n]), Offset(lens, x), vals[x])
  {
    assert vals[..n][..n - 1] == vals[..n - 1];
    FrameSize(lens, vals, n - 1);
    var front := FrameBytes(vals[..n - 1]);
    if x < n - 1 {
      FrameAt(lens, vals, n - 1, x);
      AtExtend([], front, vals[n - 1], Offset(lens, x), vals[x]);
      assert [] + front + vals[n - 1] == FrameBytes(vals[..n]);
    } else {
      assert FrameBytes(vals[..n]) == front + vals[x];
    }
  }

  function Overwrite(m: seq<byte>, p: nat, w: seq<byte>): seq<byte>
    requires p + |w| <= |m|
  {
    m[..p] + w + m[p + |w|..]
  }

  lemma {:induction false} FrameUpdate(lens: seq<nat>, vals: seq<seq<byte>>, x: nat, v: seq<byte>, n: nat)
    requires ValuesFit(lens, vals) && x < n <= |lens| && |v| == lens[x]
    ensures Offset(lens, x) + |v| <= |FrameBytes(vals[..n])|
    ensures Overwrite(FrameBytes(vals[..n]), Offset(lens, x), v) == FrameBytes(vals[x := v][..n])
  {
    var stored := vals[x := v];
    assert vals[..n][..n - 1] == vals[..n - 1] && stored[..n][..n - 1] == stored[..n - 1];
    FrameSize(lens, vals, n - 1);
    if x < n - 1 {
      FrameUpdate(lens, vals, x, v, n - 1);
      var front := FrameBytes(vals[..n - 1]);
      assert Overwrite(front + vals[n - 1], Offset(lens, x), v) == Overwrite(front, Offset(lens, x), v) + vals[n - 1];
    } else {
      assert stored[..n - 1] == vals[..n - 1];
    }
  }

  /** `memcpy` of one value into the frame. */
  method Store(curval: seq<byte>, offs: seq<nat>, x: nat, v: seq<byte>, ghost lens: seq<nat>,
               ghost vals: seq<seq<byte>>)
    returns (r: seq<byte>)
    requires ValuesFit(lens, vals) && curval == FrameBytes(vals) && x < |lens| && |v| == lens[x]
    requires |offs| == |lens| && offs[x] == Offset(lens, x)
    ensures r == FrameBytes(vals[x := v]) && ValuesFit(lens, vals[x := v])
  {
    FrameUpdate(lens, vals, x, v, |lens|);
    assert vals[..|lens|] == vals && vals[x := v][..|lens|] == vals[x := v];
    r := Overwrite(curval, offs[x], v);
  }
}
