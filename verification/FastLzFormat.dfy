/** The FastLZ stream, levels 1 and 2: instructions, a reference decoder that copies byte by byte, and
    the bytes of one instruction. */
module FastLzFormat {
  import opened Bytes
  import opened LengthBytes
  import opened Lz77

  const MAX_COPY: nat := 32
  const MAX_LEN: nat := 264
  const MAX_DISTANCE1: nat := 8192
  const MAX_DISTANCE2: nat := 8191
  const MAX_FARDISTANCE: nat := 65535 + MAX_DISTANCE2 - 1

  // ----- reading ---------------------------------------------------------------------------------

  datatype Instr =
    | Lits(count: nat, next: nat)                    // `count` bytes that end at `next`
    | Copy(distance: nat, count: nat, next: nat)

  /** The first control byte also carries the level marker. */
  function Ctrl(src: seq<byte>, ip: nat): nat
    requires ip < |src|
  {
    if ip == 0 then src[ip] % 32 else src[ip]
  }

  /** Lengths from seven on have one more byte at level 1, and a run of bytes at level 2. */
  function LenAt(level: nat, src: seq<byte>, high: nat, p: nat): (r: Option<(nat, nat)>)
    requires p <= |src|
    ensures r.Some? ==> p <= r.value.1 <= |src|
  {
    if high < 7 then Some((high, p))
    else if level == 1 then if p < |src| then Some((7 + Word(0, src[p]), p + 1)) else None
    else match ExtAt(src, p) case None => None case Some((v, q)) => Some((7 + v, q))
  }

  /** The low byte of the distance, or at level 2 the escape to a 16-bit distance. */
  function DistanceAt(level: nat, src: seq<byte>, low: nat, p: nat): (r: Option<(nat, nat)>)
    ensures r.Some? ==> r.value.0 > 0 && p < r.value.1 <= |src|
  {
    if p >= |src| then None
    else if level == 2 && src[p] == 255 && low == 31 then
      if p + 3 <= |src| then Some((Word(src[p + 1], src[p + 2]) + MAX_DISTANCE2 + 1, p + 3)) else None
    else Some((Word(low, src[p]) + 1, p + 1))
  }

  function Word(high: nat, low: nat): nat { 256 * high + low }

  function InstrAt(level: nat, src: seq<byte>, ip: nat): (r: Option<Instr>)
    requires ip < |src|
    ensures r.Some? ==> ip < r.value.next <= |src| && (r.value.Lits? ==> ip + r.value.count < r.value.next)
    ensures r.Some? && r.value.Copy? ==> r.value.distance > 0
    ensures r.Some? ==> r.value.count > 0
  {
    var ctrl := Ctrl(src, ip);
    if ctrl < 32 then
      if ip + 1 + ctrl + 1 <= |src| then Some(Lits(ctrl + 1, ip + 1 + ctrl + 1)) else None
    else CopyAt(level, src, ctrl, ip + 1)
  }

  function CopyAt(level: nat, src: seq<byte>, ctrl: nat, p: nat): (r: Option<Instr>)
    requires p <= |src|
    ensures r.Some? ==> r.value.Copy? && p < r.value.next <= |src| && r.value.distance > 0 && r.value.count > 1
  {
    match LenAt(level, src, ctrl / 32, p)
    case None => None
    case Some((len, q)) =>
      match DistanceAt(level, src, ctrl % 32, q)
      case None => None
      case Some((distance, next)) => Some(Copy(distance, len + 2, next))
  }

  /** What the instruction makes of the bytes decoded so far. */
  function After(src: seq<byte>, out: seq<byte>, i: Instr): (r: Option<seq<byte>>)
    requires i.Lits? ==> i.count <= i.next <= |src|
    requires i.Copy? ==> i.distance > 0
    ensures r.Some? ==> |r.value| == |out| + i.count
  {
    match i
    case Lits(n, next) => Some(out + src[next - n..next])
    case Copy(d, n, _) => if d > |out| then None else Some(CopyMatch(out, d, n))
  }

  /** Decoding from the instruction at `ip` to the end of the stream. */
  function Ref(level: nat, src: seq<byte>, ip: nat, out: seq<byte>): (r: Option<seq<byte>>)
    requires ip <= |src|
    ensures r.Some? ==> |r.value| >= |out|
    decreases |src| - ip
  {
    if ip == |src| then Some(out)
    else match InstrAt(level, src, ip)
      case None => None
      case Some(i) =>
        match After(src, out, i)
        case None => None
        case Some(out') => Ref(level, src, i.next, out')
  }

  /** The level is read off the first byte. */
  function LevelOf(src: seq<byte>): nat
    requires src != []
  {
    src[0] / 32 + 1
  }

  // ----- writing ---------------------------------------------------------------------------------

  /** One match instruction of `len + 2` bytes; a far one has a distance from 8192 on. */
  function CopyBytes(level: nat, distance: nat, len: nat): (s: seq<byte>)
    requires Encodable(level, distance, len)
  {
    LenBytes(level, HighBits(distance), len) + DistanceBytes(distance)
  }

  ghost predicate Encodable(level: nat, distance: nat, len: nat) {
    && 0 < distance && 0 < len
    && (level == 1 ==> distance < MAX_DISTANCE1 && len <= MAX_LEN - 2)
    && (level != 1 ==> distance < MAX_FARDISTANCE)
  }

  function HighBits(distance: nat): (r: nat)
    requires 0 < distance
    ensures r < 32
  {
    if distance <= MAX_DISTANCE2 then (distance - 1) / 256 else 31
  }

  function LenBytes(level: nat, high: nat, len: nat): (s: seq<byte>)
    requires high < 32 && 0 < len && (level == 1 ==> len <= MAX_LEN - 2)
    ensures |s| >= 1 && |s| <= len
  {
    if len < 7 then [32 * len + high]
    else if level == 1 then [224 + high, len - 7]
    else [224 + high] + Ext(len - 7)
  }

  function DistanceBytes(distance: nat): (s: seq<byte>)
    requires 0 < distance < MAX_FARDISTANCE
    ensures |s| in {1, 3}
  {
    if distance <= MAX_DISTANCE2 then [(distance - 1) % 256]
    else var far := distance - 1 - MAX_DISTANCE2; [255, far / 256, far % 256]
  }

  // ----- what is written is read back --------------------------------------------------------------

  lemma LenReads(level: nat, src: seq<byte>, ip: nat, high: nat, len: nat)
    requires high < 32 && 0 < len && (level == 1 ==> len <= MAX_LEN - 2)
    requires ip > 0 && At(src, ip, LenBytes(level, high, len))
    ensures Ctrl(src, ip) % 32 == high && Ctrl(src, ip) >= 32
    ensures LenAt(level, src, Ctrl(src, ip) / 32, ip + 1) == Some((len, ip + |LenBytes(level, high, len)|))
  {
    var w := LenBytes(level, high, len);
    assert src[ip] == src[ip..ip + |w|][0] == w[0];
    if len < 7 {
      ControlParts(len, high);
    } else {
      ControlParts(7, high);
      if level == 1 {
        assert src[ip + 1] == src[ip..ip + |w|][1] == len - 7;
      } else {
        AtConcat(src, ip, [224 + high], Ext(len - 7));
        ExtReads(src, ip + 1, len - 7);
      }
    }
  }

  lemma ControlParts(len: nat, high: nat)
    requires 0 < len <= 7 && high < 32
    ensures (32 * len + high) / 32 == len && (32 * len + high) % 32 == high
  {}

  lemma DistanceReads(level: nat, src: seq<byte>, p: nat, distance: nat)
    requires 0 < distance < MAX_FARDISTANCE && (level == 1 ==> distance < MAX_DISTANCE1) && level in {1, 2}
    requires At(src, p, DistanceBytes(distance))
    ensures DistanceAt(level, src, HighBits(distance), p) == Some((distance, p + |DistanceBytes(distance)|))
  {
    var w := DistanceBytes(distance);
    assert src[p] == src[p..p + |w|][0] == w[0];
    if distance > MAX_DISTANCE2 {
      assert src[p + 1] == src[p..p + |w|][1] == w[1] && src[p + 2] == src[p..p + |w|][2] == w[2];
    }
  }

  lemma CopyReads(level: nat, src: seq<byte>, ip: nat, distance: nat, len: nat)
    requires level in {1, 2} && Encodable(level, distance, len)
    requires ip > 0 && At(src, ip, CopyBytes(level, distance, len))
    ensures InstrAt(level, src, ip) == Some(Copy(distance, len + 2, ip + |CopyBytes(level, distance, len)|))
  {
    hide LenBytes, DistanceBytes, LenAt, DistanceAt, Ctrl, HighBits;
    AtConcat(src, ip, LenBytes(level, HighBits(distance), len), DistanceBytes(distance));
    LenReads(level, src, ip, HighBits(distance), len);
    DistanceReads(level, src, ip + |LenBytes(level, HighBits(distance), len)|, distance);
  }

  lemma LitsRead(level: nat, src: seq<byte>, ip: nat, lit: seq<byte>)
    requires 0 < |lit| <= MAX_COPY && At(src, ip, [|lit| - 1] + lit)
    ensures InstrAt(level, src, ip) == Some(Lits(|lit|, ip + 1 + |lit|))
    ensures src[ip + 1..ip + 1 + |lit|] == lit
  {
    AtConcat(src, ip, [|lit| - 1], lit);
    assert src[ip] == src[ip..ip + 1][0];
  }

  lemma CopyStep(level: nat, src: seq<byte>, ip: nat, out: seq<byte>, distance: nat, len: nat)
    requires level in {1, 2} && Encodable(level, distance, len) && distance <= |out|
    requires ip > 0 && At(src, ip, CopyBytes(level, distance, len))
    ensures Ref(level, src, ip, out)
         == Ref(level, src, ip + |CopyBytes(level, distance, len)|, CopyMatch(out, distance, len + 2))
  {
    hide InstrAt, CopyMatch, CopyBytes, Encodable;
    CopyNotEmpty(level, distance, len);
    CopyReads(level, src, ip, distance, len);
  }

  lemma CopyNotEmpty(level: nat, distance: nat, len: nat)
    requires Encodable(level, distance, len)
    ensures 0 < |CopyBytes(level, distance, len)| && 0 < distance
  {}

  lemma LitsStep(level: nat, src: seq<byte>, ip: nat, out: seq<byte>, lit: seq<byte>)
    requires 0 < |lit| <= MAX_COPY && At(src, ip, [|lit| - 1] + lit)
    ensures Ref(level, src, ip, out) == Ref(level, src, ip + 1 + |lit|, out + lit)
  {
    hide InstrAt;
    LitsRead(level, src, ip, lit);
  }

  // ----- properties of the format ----------------------------------------------------------------

  /** An instruction that is complete is read the same when bytes follow. */
  lemma InstrStable(level: nat, src: seq<byte>, junk: seq<byte>, ip: nat)
    requires ip < |src| && InstrAt(level, src, ip).Some?
    ensures InstrAt(level, src + junk, ip) == InstrAt(level, src, ip)
  {
    hide LenAt, DistanceAt;
    var ctrl := Ctrl(src, ip);
    if ctrl >= 32 {
      LenStable(level, src, junk, ctrl / 32, ip + 1);
      DistanceStable(level, src, junk, ctrl % 32, LenAt(level, src, ctrl / 32, ip + 1).value.1);
    }
  }

  lemma LenStable(level: nat, src: seq<byte>, junk: seq<byte>, high: nat, p: nat)
    requires p <= |src| && LenAt(level, src, high, p).Some?
    ensures LenAt(level, src + junk, high, p) == LenAt(level, src, high, p)
  {
    if high >= 7 && level != 1 { ExtStable(src, junk, p); }
  }

  lemma DistanceStable(level: nat, src: seq<byte>, junk: seq<byte>, low: nat, p: nat)
    requires DistanceAt(level, src, low, p).Some?
    ensures DistanceAt(level, src + junk, low, p) == DistanceAt(level, src, low, p)
  {
    hide Word;
  }

  /** Two streams that differ at most in the marker. */
  ghost predicate SameStream(s: seq<byte>, t: seq<byte>) {
    && |s| == |t| && s != [] && s[0] % 32 == t[0] % 32
    && forall k | 1 <= k < |s| :: s[k] == t[k]
  }

  /** The upper three bits of the first byte, where the marker goes, are not read after the dispatch. */
  lemma {:induction false} MarkerIgnored(level: nat, s: seq<byte>, t: seq<byte>, ip: nat, out: seq<byte>)
    requires SameStream(s, t) && ip <= |s|
    ensures Ref(level, s, ip, out) == Ref(level, t, ip, out)
    decreases |s| - ip
  {
    hide InstrAt;
    if ip < |s| {
      SameInstr(level, s, t, ip);
      var r := InstrAt(level, s, ip);
      if r.Some? {
        if r.value.Lits? { SameSlice(s, t, r.value.next - r.value.count, r.value.next); }
        var out' := After(s, out, r.value);
        if out'.Some? { MarkerIgnored(level, s, t, r.value.next, out'.value); }
      }
    }
  }

  lemma SameSlice(s: seq<byte>, t: seq<byte>, i: nat, j: nat)
    requires SameStream(s, t) && 1 <= i <= j <= |s|
    ensures s[i..j] == t[i..j]
  {}

  lemma SameInstr(level: nat, s: seq<byte>, t: seq<byte>, ip: nat)
    requires SameStream(s, t) && ip < |s|
    ensures InstrAt(level, s, ip) == InstrAt(level, t, ip)
  {
    hide LenAt, DistanceAt;
    SameLen(level, s, t, Ctrl(s, ip) / 32, ip + 1);
    var r := LenAt(level, s, Ctrl(s, ip) / 32, ip + 1);
    if r.Some? { SameDistance(level, s, t, Ctrl(s, ip) % 32, r.value.1); }
  }

  lemma SameLen(level: nat, s: seq<byte>, t: seq<byte>, high: nat, p: nat)
    requires SameStream(s, t) && 1 <= p <= |s|
    ensures LenAt(level, s, high, p) == LenAt(level, t, high, p)
  {
    SameExt(s, t, p);
  }

  lemma SameDistance(level: nat, s: seq<byte>, t: seq<byte>, low: nat, p: nat)
    requires SameStream(s, t) && 1 <= p
    ensures DistanceAt(level, s, low, p) == DistanceAt(level, t, low, p)
  {}

  lemma {:induction false} SameExt(s: seq<byte>, t: seq<byte>, p: nat)
    requires SameStream(s, t) && p > 0
    ensures ExtAt(s, p) == ExtAt(t, p)
    decreases |s| - p
  {
    if p < |s| { SameExt(s, t, p + 1); }
  }
}
