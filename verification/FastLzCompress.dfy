/** fastlz1_compress and fastlz2_compress. Nothing is assumed of the hash function. */
module FastLzCompress {
  import opened Bytes
  import opened LengthBytes
  import opened Lz77
  import opened FastLzFormat

  const HASH_SIZE: nat := 8192

  // ----- what has been written decodes to what has been read --------------------------------------

  ghost predicate Decodes(level: nat, block: seq<byte>, text: seq<byte>) {
    forall rest: seq<byte> :: Ref(level, block + rest, 0, []) == Ref(level, block + rest, |block|, text)
  }

  lemma DecodesNothing(level: nat)
    ensures Decodes(level, [], [])
  {
    assert forall rest: seq<byte> :: [] + rest == rest;
  }

  lemma Splice(block: seq<byte>, w: seq<byte>, rest: seq<byte>)
    ensures block + w + rest == block + (w + rest) && At(block + w + rest, |block|, w)
  {}

  /** Whatever follows, `w` behind `block` takes the decoder from `text` to `text'`. */
  ghost predicate Carries(level: nat, block: seq<byte>, w: seq<byte>, text: seq<byte>, text': seq<byte>) {
    forall rest: seq<byte> :: Carry(level, block + w + rest, |block|, |block| + |w|, text, text')
  }

  ghost predicate Carry(level: nat, s: seq<byte>, ip: nat, next: nat, text: seq<byte>, text': seq<byte>) {
    ip <= next <= |s| && Ref(level, s, ip, text) == Ref(level, s, next, text')
  }

  lemma DecodesMore(level: nat, block: seq<byte>, w: seq<byte>, text: seq<byte>, text': seq<byte>)
    requires Decodes(level, block, text) && Carries(level, block, w, text, text')
    ensures Decodes(level, block + w, text')
  {
    hide Ref;
    forall rest: seq<byte>
      ensures Ref(level, block + w + rest, 0, []) == Ref(level, block + w + rest, |block + w|, text')
    {
      Splice(block, w, rest);
      assert Carry(level, block + w + rest, |block|, |block| + |w|, text, text');
    }
  }

  lemma DecodesLits(level: nat, block: seq<byte>, text: seq<byte>, lit: seq<byte>)
    requires Decodes(level, block, text) && 0 < |lit| <= MAX_COPY
    ensures Decodes(level, block + ([|lit| - 1] + lit), text + lit)
  {
    hide Ref, Decodes;
    var w := [|lit| - 1] + lit;
    forall rest: seq<byte>
      ensures Carry(level, block + w + rest, |block|, |block| + |w|, text, text + lit)
    {
      Splice(block, w, rest);
      LitsStep(level, block + w + rest, |block|, text, lit);
    }
    DecodesMore(level, block, w, text, text + lit);
  }

  lemma DecodesCopy(level: nat, block: seq<byte>, text: seq<byte>, distance: nat, len: nat)
    requires level in {1, 2} && Decodes(level, block, text) && block != []
    requires Encodable(level, distance, len) && distance <= |text|
    ensures Decodes(level, block + CopyBytes(level, distance, len), CopyMatch(text, distance, len + 2))
  {
    hide Ref, CopyMatch, CopyBytes, Decodes;
    var w := CopyBytes(level, distance, len);
    forall rest: seq<byte>
      ensures Carry(level, block + w + rest, |block|, |block| + |w|, text, CopyMatch(text, distance, len + 2))
    {
      Splice(block, w, rest);
      CopyStep(level, block + w + rest, |block|, text, distance, len);
    }
    DecodesMore(level, block, w, text, CopyMatch(text, distance, len + 2));
  }

  lemma DecodesAll(level: nat, block: seq<byte>, text: seq<byte>)
    requires Decodes(level, block, text)
    ensures Ref(level, block, 0, []) == Some(text)
  {
    assert block + [] == block;
  }

  // ----- literals with a count that is patched in later -------------------------------------------

  /** `copy` literals wait behind a count byte that still says 32. */
  ghost predicate Pending(level: nat, src: seq<byte>, out: seq<byte>, ip: nat, op: nat, copy: nat) {
    && copy < MAX_COPY && copy < op <= |out| && copy <= ip <= |src| && (copy == 0 ==> op > 1)
    && out[0] < 32 && out[op - copy - 1] == MAX_COPY - 1 && out[op - copy..op] == src[ip - copy..ip]
    && Decodes(level, out[..op - copy - 1], src[..ip - copy])
    && Room(ip, op, copy)
  }

  /** Only count bytes of full literal groups are paid for: one for 32 bytes read. */
  ghost predicate Room(ip: nat, op: nat, copy: nat) {
    copy <= ip && 32 * (op - ip - 1) <= ip - copy
  }

  /** The output with nothing pending, and not larger than the input allows. */
  ghost predicate Flushed(level: nat, src: seq<byte>, out: seq<byte>, ip: nat, op: nat) {
    && 0 < op <= |out| && ip <= |src| && 32 * (op - ip - 1) <= ip && out[0] < 32
    && Decodes(level, out[..op], src[..ip])
  }

  function Bound(n: nat): nat { n + n / 32 + 1 }

  lemma LiteralAdded(level: nat, src: seq<byte>, was: seq<byte>, ip: nat, op: nat, copy: nat)
    requires Pending(level, src, was, ip, op, copy) && ip < |src| && op < |was|
    requires copy + 1 < MAX_COPY
    ensures Pending(level, src, was[op := src[ip]], ip + 1, op + 1, copy + 1)
  {
    hide Decodes;
    var now := was[op := src[ip]];
    assert now[..op - copy - 1] == was[..op - copy - 1];
    assert now[op - copy..op + 1] == was[op - copy..op] + [src[ip]];
    assert src[ip - copy..ip + 1] == src[ip - copy..ip] + [src[ip]];
  }

  lemma Snoc(s: seq<byte>, i: nat, j: nat)
    requires i <= j < |s|
    ensures s[i..j + 1] == s[i..j] + [s[j]]
  {}

  lemma GroupFull(level: nat, src: seq<byte>, was: seq<byte>, ip: nat, op: nat)
    requires Pending(level, src, was, ip, op, MAX_COPY - 1) && ip < |src| && op + 1 < |was|
    ensures Pending(level, src, was[op := src[ip]][op + 1 := MAX_COPY - 1], ip + 1, op + 2, 0)
  {
    hide Decodes;
    var copy := MAX_COPY - 1;
    var lit := src[ip - copy..ip + 1];
    GroupBytes(src, was, ip, op);
    DecodesLits(level, was[..op - copy - 1], src[..ip - copy], lit);
  }

  lemma GroupBytes(src: seq<byte>, was: seq<byte>, ip: nat, op: nat)
    requires MAX_COPY - 1 < op && op + 1 < |was| && MAX_COPY - 1 <= ip < |src|
    requires was[op - MAX_COPY] == MAX_COPY - 1 && was[op - MAX_COPY + 1..op] == src[ip - MAX_COPY + 1..ip]
    ensures var lit := src[ip - MAX_COPY + 1..ip + 1];
            && |lit| == MAX_COPY && src[..ip + 1] == src[..ip - MAX_COPY + 1] + lit
            && was[op := src[ip]][op + 1 := MAX_COPY - 1][..op + 1] == was[..op - MAX_COPY] + ([|lit| - 1] + lit)
  {
    var now := was[op := src[ip]][op + 1 := MAX_COPY - 1];
    Snoc(src, ip - MAX_COPY + 1, ip);
    Snoc(now, op - MAX_COPY + 1, op);
    assert now[op - MAX_COPY + 1..op] == was[op - MAX_COPY + 1..op];
    assert now[..op - MAX_COPY + 1] == was[..op - MAX_COPY] + [was[op - MAX_COPY]];
    assert now[..op + 1] == now[..op - MAX_COPY + 1] + now[op - MAX_COPY + 1..op + 1];
  }

  /** `*op++ = *ip++`, and a fresh count byte when a group is full. */
  method PutLiteral(level: nat, src: seq<byte>, dst: array<byte>, ip: nat, op: nat, copy: nat)
    returns (op': nat, copy': nat)
    requires Pending(level, src, dst[..], ip, op, copy) && ip < |src| && dst.Length >= Bound(|src|)
    modifies dst
    ensures Pending(level, src, dst[..], ip + 1, op', copy')
    ensures if copy + 1 == MAX_COPY then op' == op + 2 && copy' == 0 else op' == op + 1 && copy' == copy + 1
  {
    hide Decodes;
    ghost var was := dst[..];
    dst[op] := src[ip];
    op', copy' := op + 1, copy + 1;
    if copy' == MAX_COPY {
      copy' := 0;
      dst[op'] := MAX_COPY - 1;
      op' := op' + 1;
      GroupFull(level, src, was, ip, op);
    } else {
      LiteralAdded(level, src, was, ip, op, copy);
    }
  }

  /** Patches the count byte, or takes it back if no literal came. */
  method Flush(level: nat, src: seq<byte>, dst: array<byte>, ip: nat, op: nat, copy: nat) returns (op': nat)
    requires Pending(level, src, dst[..], ip, op, copy)
    modifies dst
    ensures Flushed(level, src, dst[..], ip, op')
    ensures 32 * (op' - ip - 1) <= ip - copy && op' == if copy > 0 then op else op - 1
  {
    hide Decodes;
    op' := op;
    if copy > 0 {
      ghost var was := dst[..];
      dst[op - copy - 1] := copy - 1;
      CountPatched(level, src, was, ip, op, copy);
    } else {
      op' := op - 1;
    }
  }

  lemma CountPatched(level: nat, src: seq<byte>, was: seq<byte>, ip: nat, op: nat, copy: nat)
    requires Pending(level, src, was, ip, op, copy) && copy > 0
    ensures Decodes(level, was[op - copy - 1 := copy - 1][..op], src[..ip])
  {
    hide Decodes;
    var lit := src[ip - copy..ip];
    var now := was[op - copy - 1 := copy - 1];
    assert now[op - copy..op] == was[op - copy..op];
    assert now[..op] == was[..op - copy - 1] + ([|lit| - 1] + lit);
    assert src[..ip] == src[..ip - copy] + lit;
    DecodesLits(level, was[..op - copy - 1], src[..ip - copy], lit);
  }

  // ----- matches ---------------------------------------------------------------------------------

  function Same3(src: seq<byte>, a: nat, b: nat): bool
    requires a + 3 <= |src| && b + 3 <= |src|
  {
    src[a] == src[b] && src[a + 1] == src[b + 1] && src[a + 2] == src[b + 2]
  }

  /** Four equal bytes from the one before `anchor` on, which only level 2 looks for. */
  predicate RunAt(level: nat, src: seq<byte>, anchor: nat)
    requires 0 < anchor && anchor + 12 < |src|
  {
    level == 2 && src[anchor] == src[anchor - 1] == src[anchor + 1] == src[anchor + 2]
  }

  /** A candidate within the level's distance with the same three bytes, or five if it is far. */
  predicate Promising(level: nat, src: seq<byte>, anchor: nat, candidate: nat)
    requires candidate < anchor && anchor + 12 < |src|
  {
    var distance := anchor - candidate;
    && distance < (if level == 1 then MAX_DISTANCE1 else MAX_FARDISTANCE) && Same3(src, candidate, anchor)
    && (level == 2 && distance >= MAX_DISTANCE2 ==>
          src[anchor + 3] == src[candidate + 3] && src[anchor + 4] == src[candidate + 4])
  }

  /** Level 2 looks for a run first; both levels then try the latest position with the same hash, and take it exactly if
      it promises a match. `len` bytes are known to match. */
  method FindMatch(level: nat, src: seq<byte>, table: array<nat>, hash: nat -> nat, anchor: nat)
    returns (found: bool, distance: nat, len: nat)
    requires level in {1, 2} && forall p: nat :: hash(p) < table.Length
    requires 0 < anchor && anchor + 12 < |src| && Behind(table, anchor)
    modifies table
    ensures Behind(table, anchor + 1)
    ensures found ==> 0 < distance <= anchor && len in {3, 5} && Periodic(src, anchor, anchor + len, distance)
    ensures found ==> (level == 1 ==> distance < MAX_DISTANCE1) && (level == 2 ==> distance < MAX_FARDISTANCE)
    ensures found && level == 2 && distance >= MAX_DISTANCE2 ==> len == 5
    ensures found <==> RunAt(level, src, anchor) || Promising(level, src, anchor, old(table[hash(anchor)]))
    ensures RunAt(level, src, anchor) ==> distance == 1 && table[..] == old(table[..])
    ensures !RunAt(level, src, anchor) ==> table[..] == old(table[..])[hash(anchor) := anchor]
    ensures !RunAt(level, src, anchor) && found ==> distance == anchor - old(table[hash(anchor)])
  {
    if level == 2 && src[anchor] == src[anchor - 1] && src[anchor - 1] == src[anchor + 1]
       && src[anchor] == src[anchor + 2] {
      return true, 1, 3;
    }
    var h := hash(anchor);
    var candidate := table[h];
    distance := anchor - candidate;
    table[h] := anchor;
    if distance == 0 || distance >= (if level == 1 then MAX_DISTANCE1 else MAX_FARDISTANCE)
       || !Same3(src, candidate, anchor) {
      return false, 0, 0;
    }
    if level == 2 && distance >= MAX_DISTANCE2 {
      if src[anchor + 3] != src[candidate + 3] || src[anchor + 4] != src[candidate + 4] { return false, 0, 0; }
      return true, distance, 5;
    }
    return true, distance, 3;
  }

  /** How far a run goes: up to the first other byte. `ip` ends one past the last byte that counts. */
  method ExtendRun(src: seq<byte>, anchor: nat, len: nat) returns (ip: nat)
    requires 1 <= anchor && anchor + 12 < |src| && len in {3, 5} && Periodic(src, anchor, anchor + len, 1)
    ensures anchor + len < ip < |src| && Periodic(src, anchor, ip - 1, 1)
    ensures ip + 2 == |src| || src[ip - 1] != src[ip - 2]
  {
    var ipBound := |src| - 2;
    ip := anchor + len;
    var ref, x := ip - 1, src[ip - 1];
    while ip < ipBound
      invariant anchor + len <= ip <= ipBound && ref == ip - 1 && Periodic(src, anchor, ip - 1, 1)
      invariant src[ip - 2] == x && (ip == anchor + len ==> src[ref] == x)
    {
      if src[ref] != x { break; }
      ref := ref + 1;
      ip := ip + 1;
    }
  }

  /** How far any other match goes: eight comparisons without a bound check, then up to the bound. */
  method ExtendCopy(src: seq<byte>, anchor: nat, distance: nat, len: nat) returns (ip: nat)
    requires 0 < distance <= anchor && anchor + 12 < |src| && len in {3, 5}
    requires Periodic(src, anchor, anchor + len, distance)
    ensures anchor + len < ip <= |src| && Periodic(src, anchor, ip - 1, distance)
    ensures ip + 2 >= |src| || src[ip - 1] != src[ip - 1 - distance]
  {
    var ipBound := |src| - 2;
    ip := anchor + len;
    var going, i := true, 0;
    while going && (i < 8 || ip < ipBound)
      invariant 0 <= i && (i <= 8 ==> ip <= anchor + len + i) && (i > 8 ==> ip <= ipBound)
      invariant anchor + len <= ip <= |src| && (i > 0 ==> anchor + len < ip) && (i == 0 ==> going)
      invariant Periodic(src, anchor, if going then ip else ip - 1, distance)
      invariant !going ==> src[ip - 1] != src[ip - 1 - distance]
      decreases |src| - ip, going
    {
      going := src[ip - distance] == src[ip];
      ip := ip + 1;
      i := i + 1;
    }
  }

  // ----- match instructions ----------------------------------------------------------------------

  method PutLen(level: nat, dst: array<byte>, op: nat, high: nat, len: nat) returns (op': nat)
    requires high < 32 && 0 < len && (level == 1 ==> len <= MAX_LEN - 2)
    requires op + |LenBytes(level, high, len)| <= dst.Length
    modifies dst
    ensures op' == op + |LenBytes(level, high, len)| && dst[op..op'] == LenBytes(level, high, len)
    ensures forall k | 0 <= k < op :: dst[k] == old(dst[k])
  {
    if len < 7 {
      dst[op] := 32 * len + high;
      op' := op + 1;
    } else if level == 1 {
      dst[op] := 224 + high;
      dst[op + 1] := len - 7;
      op' := op + 2;
    } else {
      dst[op] := 224 + high;
      op' := PutExt(dst, op + 1, len - 7);
      assert dst[op..op'] == [dst[op]] + dst[op + 1..op'];
    }
  }

  method PutCopy(level: nat, dst: array<byte>, op: nat, distance: nat, len: nat) returns (op': nat)
    requires level in {1, 2} && Encodable(level, distance, len) && op + |CopyBytes(level, distance, len)| <= dst.Length
    modifies dst
    ensures op' == op + |CopyBytes(level, distance, len)| && dst[op..op'] == CopyBytes(level, distance, len)
    ensures dst[..op] == old(dst[..op])
  {
    hide LenBytes;
    var biased := distance - 1;
    var far := level == 2 && biased >= MAX_DISTANCE2;
    op' := PutLen(level, dst, op, if far then 31 else biased / 256, len);
    ghost var head, mid := dst[op..op'], op';
    if far {
      var rest := biased - MAX_DISTANCE2;
      dst[op'] := 255;
      dst[op' + 1] := rest / 256;
      dst[op' + 2] := rest % 256;
      op' := op' + 3;
    } else {
      dst[op'] := biased % 256;
      op' := op' + 1;
    }
    assert dst[mid..op'] == DistanceBytes(distance);
    assert dst[op..mid] == head;
    Join(dst[..], op, mid, op');
  }

  lemma CopySize(level: nat, distance: nat, len: nat)
    requires Encodable(level, distance, len) && (distance > MAX_DISTANCE2 ==> len >= 3)
    ensures |CopyBytes(level, distance, len)| <= len + 1
  {}

  lemma CopyWritten(level: nat, src: seq<byte>, was: seq<byte>, now: seq<byte>, pos: nat, op: nat, op': nat,
                    distance: nat, len: nat)
    requires level in {1, 2} && Flushed(level, src, was, pos, op) && op <= op' <= |now| && now[..op] == was[..op]
    requires Encodable(level, distance, len) && now[op..op'] == CopyBytes(level, distance, len)
    requires pos + len + 2 <= |src| && Periodic(src, pos, pos + len + 2, distance) && op' <= op + len + 1
    ensures Flushed(level, src, now, pos + len + 2, op') && distance <= pos
  {
    hide Decodes, CopyBytes, CopyMatch;
    assert now[..op'] == was[..op] + CopyBytes(level, distance, len);
    assert now[0] == now[..op][0];
    PeriodicIsCopy(src, pos, pos + len + 2, distance);
    DecodesCopy(level, was[..op], src[..pos], distance, len);
  }

  lemma RoomFor(level: nat, src: seq<byte>, out: seq<byte>, pos: nat, op: nat, n: nat)
    requires Flushed(level, src, out, pos, op) && pos + n <= |src| && |out| >= Bound(|src|)
    ensures op + n <= |out|
  {}

  /** The most bytes a match of `n` takes: three for every 262 of it at level 1, a length byte for every 255 at
      level 2. */
  function MatchRoom(level: nat, n: nat): nat {
    if level == 1 then 3 * ((if n < 3 then 0 else n - 3) / 262 + 1) else n / 255 + 5
  }

  lemma CopyRoom(level: nat, distance: nat, len: nat)
    requires level in {1, 2} && Encodable(level, distance, len)
    ensures |CopyBytes(level, distance, len)| <= MatchRoom(level, len + 2)
    ensures level == 1 ==> |CopyBytes(level, distance, len)| <= 3
  {}

  /** Level 1 splits long matches; level 2 has length bytes for them. */
  method EmitMatch(level: nat, src: seq<byte>, dst: array<byte>, anchor: nat, op0: nat, distance: nat, end: nat)
    returns (op: nat)
    requires level in {1, 2} && Flushed(level, src, dst[..], anchor, op0) && dst.Length >= Bound(|src|)
    requires anchor + 3 <= end <= |src| && Periodic(src, anchor, end, distance) && 0 < distance
    requires (level == 1 ==> distance < MAX_DISTANCE1) && (level == 2 ==> distance < MAX_FARDISTANCE)
    requires level == 2 && distance >= MAX_DISTANCE2 ==> anchor + 5 <= end
    modifies dst
    ensures Flushed(level, src, dst[..], end, op) && op - op0 < end - anchor
    ensures op <= op0 + MatchRoom(level, end - anchor)
  {
    hide Decodes, CopyBytes, Flushed;
    op := op0;
    var len := end - anchor - 2;
    if level == 1 {
      while len > MAX_LEN - 2
        invariant 0 < len <= end - anchor - 2 && Flushed(level, src, dst[..], end - 2 - len, op)
        invariant op - op0 <= end - 2 - len - anchor
        invariant len <= end - anchor - 2 - 262 * ((op - op0) / 3) && (op - op0) % 3 == 0 && op0 <= op
      {
        FullCopy(distance);
        op := EmitCopy(level, src, dst, end - 2 - len, op, distance, MAX_LEN - 4);
        len := len - (MAX_LEN - 2);
      }
    }
    CopyRoom(level, distance, len);
    op := EmitCopy(level, src, dst, end - 2 - len, op, distance, len);
  }

  lemma FullCopy(distance: nat)
    requires 0 < distance < MAX_DISTANCE1
    ensures |CopyBytes(1, distance, MAX_LEN - 4)| == 3
  {}

  method EmitCopy(level: nat, src: seq<byte>, dst: array<byte>, pos: nat, op0: nat, distance: nat, len: nat)
    returns (op: nat)
    requires level in {1, 2} && Flushed(level, src, dst[..], pos, op0) && dst.Length >= Bound(|src|)
    requires Encodable(level, distance, len) && (distance > MAX_DISTANCE2 ==> len >= 3)
    requires pos + len + 2 <= |src| && Periodic(src, pos, pos + len + 2, distance)
    modifies dst
    ensures Flushed(level, src, dst[..], pos + len + 2, op) && op <= op0 + len + 1
    ensures op == op0 + |CopyBytes(level, distance, len)|
  {
    hide Decodes, CopyBytes, Flushed, Encodable;
    ghost var was := dst[..];
    CopySize(level, distance, len);
    RoomFor(level, src, dst[..], pos, op0, len + 2);
    op := PutCopy(level, dst, op0, distance, len);
    assert dst[..][..op0] == dst[..op0] && was[..op0] == old(dst[..op0]);
    CopyWritten(level, src, was, dst[..], pos, op0, op, distance, len);
  }

  // ----- the block -------------------------------------------------------------------------------

  lemma NewGroup(level: nat, src: seq<byte>, was: seq<byte>, ip: nat, op: nat)
    requires Flushed(level, src, was, ip, op) && op < |was| && 32 * (op - ip) <= ip
    ensures Pending(level, src, was[op := MAX_COPY - 1], ip, op + 1, 0)
  {
    hide Decodes;
    var now := was[op := MAX_COPY - 1];
    assert now[..op] == was[..op] && now[op + 1..op + 1] == [] && src[ip..ip] == [];
  }

  lemma GroupFits(level: nat, src: seq<byte>, out: seq<byte>, ip: nat, op: nat)
    requires Flushed(level, src, out, ip, op) && 32 * (op - ip) <= ip && |out| >= Bound(|src|)
    ensures op < |out|
  {}

  /** A match: the literals before it are closed, the hash table gets two positions near its end, and a new
      group of literals is opened. */
  method Match(level: nat, src: seq<byte>, dst: array<byte>, table: array<nat>, hash: nat -> nat,
               anchor: nat, op: nat, copy: nat, distance: nat, len: nat)
    returns (ip: nat, op': nat)
    requires level in {1, 2} && forall p: nat :: hash(p) < table.Length
    requires dst.Length >= Bound(|src|) && dst != table as object
    requires Pending(level, src, dst[..], anchor, op, copy) && Behind(table, anchor + 1)
    requires 0 < distance <= anchor && anchor + 12 < |src| && len in {3, 5}
    requires Periodic(src, anchor, anchor + len, distance)
    requires (level == 1 ==> distance < MAX_DISTANCE1) && (level == 2 ==> distance < MAX_FARDISTANCE)
    requires level == 2 && distance >= MAX_DISTANCE2 ==> len == 5
    modifies dst, table
    ensures anchor < ip <= |src| && Pending(level, src, dst[..], ip, op', 0) && Behind(table, ip)
    ensures op' <= op + MatchRoom(level, ip - anchor) + 1
    ensures ip + 3 >= |src| || (distance <= ip && src[ip] != src[ip - distance])
  {
    hide Pending, Flushed, Periodic, MatchRoom;
    if distance == 1 {
      ip := ExtendRun(src, anchor, len);
    } else {
      ip := ExtendCopy(src, anchor, distance, len);
    }
    op' := Flush(level, src, dst, anchor, op, copy);
    RoomBefore(level, src, dst[..], anchor, op', copy);
    ip := ip - 3;
    op' := EmitMatch(level, src, dst, anchor, op', distance, ip + 2);
    ip := HashBoundary(table, hash, anchor, ip);
    GroupFits(level, src, dst[..], ip, op');
    NewGroup(level, src, dst[..], ip, op');
    dst[op'] := MAX_COPY - 1;
    op' := op' + 1;
  }

  /** "update the hash at match boundary" */
  method HashBoundary(table: array<nat>, hash: nat -> nat, anchor: nat, ip0: nat) returns (ip: nat)
    requires forall p: nat :: hash(p) < table.Length
    requires anchor < ip0 && Behind(table, anchor + 1)
    modifies table
    ensures ip == ip0 + 2 && Behind(table, ip)
  {
    ip := ip0;
    table[hash(ip)] := ip;
    ip := ip + 1;
    table[hash(ip)] := ip;
    ip := ip + 1;
  }

  lemma RoomBefore(level: nat, src: seq<byte>, out: seq<byte>, ip: nat, op: nat, copy: nat)
    requires Flushed(level, src, out, ip, op)
    ensures 32 * (op - ip - 1) <= ip
  {}

  method Start(level: nat, src: seq<byte>, dst: array<byte>) returns (ip: nat, op: nat, copy: nat)
    requires |src| >= 4 && dst.Length >= Bound(|src|)
    modifies dst
    ensures ip == 2 && op == 3 && copy == 2 && Pending(level, src, dst[..], ip, op, copy)
  {
    copy := 2;
    dst[0] := MAX_COPY - 1;
    dst[1] := src[0];
    dst[2] := src[1];
    ip, op := 2, 3;
    DecodesNothing(level);
    assert dst[..][..0] == [] && src[..0] == [] && dst[..][1..3] == src[0..2];
  }

  /** The main loop and the left-over literals. */
  method Body(level: nat, src: seq<byte>, dst: array<byte>, table: array<nat>, hash: nat -> nat)
    returns (op: nat, copy: nat)
    requires level in {1, 2} && forall p: nat :: hash(p) < table.Length
    requires |src| >= 4 && dst.Length >= Bound(|src|) && dst != table as object
    requires forall k | 0 <= k < table.Length :: table[k] == 0
    modifies dst, table
    ensures Pending(level, src, dst[..], |src|, op, copy)
    ensures Steady(src) && |src| > 14 ==> op <= 3 + MatchRoom(level, |src|) + 4
  {
    hide Pending, Periodic, Steady, MatchRoom, Promising, RunAt;
    var ip;
    ip, op, copy := Start(level, src, dst);
    while ip + 12 < |src|
      invariant 2 <= ip <= |src| && Pending(level, src, dst[..], ip, op, copy) && Behind(table, ip)
      invariant Steady(src) && |src| > 14 ==>
        (ip == 2 && op == 3 && copy == 2 && table[hash(2)] == 0)
        || (ip + 3 >= |src| && copy == 0 && op <= 3 + MatchRoom(level, |src|) + 1)
      decreases |src| - ip
    {
      if Steady(src) { SteadyPromises(level, src, ip); }
      var found, distance, len := FindMatch(level, src, table, hash, ip);
      if found {
        ghost var from := ip;
        ip, op := Match(level, src, dst, table, hash, ip, op, copy, distance, len);
        copy := 0;
        if Steady(src) { SteadyGoesOn(level, src, from, ip, distance); }
      } else {
        op, copy := PutLiteral(level, src, dst, ip, op, copy);
        ip := ip + 1;
      }
    }
    while ip <= |src| - 1
      invariant 2 <= ip <= |src| && Pending(level, src, dst[..], ip, op, copy)
      invariant Steady(src) && |src| > 14 ==>
        ip + 3 >= |src| && copy <= 3 - (|src| - ip) && op <= 3 + MatchRoom(level, |src|) + 1 + copy
    {
      op, copy := PutLiteral(level, src, dst, ip, op, copy);
      ip := ip + 1;
    }
  }

  /** Of equal bytes the third one promises a match: at level 2 it goes on a run, and at level 1 the table says 0. */
  lemma SteadyPromises(level: nat, src: seq<byte>, ip: nat)
    requires level in {1, 2} && Steady(src) && 2 <= ip && ip + 12 < |src|
    ensures RunAt(level, src, ip) || (level == 1 && Promising(level, src, 2, 0))
  {
    var x := src[0];
    assert src[ip - 1] == x && src[ip] == x && src[ip + 1] == x && src[ip + 2] == x;
    assert src[2] == x && src[1] == x && src[3] == x && src[4] == x;
  }

  lemma SteadyGoesOn(level: nat, src: seq<byte>, from: nat, ip: nat, distance: nat)
    requires level in {1, 2} && Steady(src) && 2 <= from < ip <= |src|
    requires ip + 3 >= |src| || (distance <= ip && src[ip] != src[ip - distance])
    ensures ip + 3 >= |src| && MatchRoom(level, ip - from) <= MatchRoom(level, |src|)
  {}

  /** Fewer than four bytes: a single group of literals, without a level marker. */
  method Short(src: seq<byte>, dst: array<byte>) returns (n: nat)
    requires 0 < |src| < 4 && dst.Length >= Bound(|src|)
    modifies dst
    ensures n == |src| + 1 && dst[0] < 32 && Ref(1, dst[..n], 0, []) == Some(src)
  {
    dst[0] := |src| - 1;
    var ip := 0;
    while ip < |src|
      invariant ip <= |src| && dst[0] == |src| - 1 && dst[1..1 + ip] == src[..ip]
    {
      dst[1 + ip] := src[ip];
      Snoc(dst[..], 1, 1 + ip);
      ip := ip + 1;
    }
    n := |src| + 1;
    assert dst[..n] == [] + ([|src| - 1] + src);
    DecodesNothing(1);
    DecodesLits(1, [], [], src);
    DecodesAll(1, dst[..n], [] + src);
    assert [] + src == src;
  }

  /** fastlz1_compress and fastlz2_compress: the output decodes, at the level its first byte names, to the
      input, and is at most one byte in 32 larger. */
  method CompressLevel(level: nat, src: seq<byte>, dst: array<byte>, hash: nat -> nat) returns (n: nat)
    requires level in {1, 2} && dst.Length >= Bound(|src|) && forall p: nat :: hash(p) < HASH_SIZE
    modifies dst
    ensures n <= Bound(|src|) && n <= dst.Length && (n == 0 <==> src == [])
    ensures src != [] ==>
      LevelOf(dst[..n]) == (if |src| < 4 then 1 else level) && Ref(LevelOf(dst[..n]), dst[..n], 0, []) == Some(src)
    ensures Steady(src) && |src| > 14 ==> n <= 12 + 3 * (|src| / 255)
  {
    hide Ref, Pending, Flushed, Decodes, Steady;
    if |src| < 4 {
      if |src| > 0 { n := Short(src, dst); } else { n := 0; }
      return;
    }
    var table := new nat[HASH_SIZE](_ => 0);
    var op, copy := Body(level, src, dst, table, hash);
    n := Flush(level, src, dst, |src|, op, copy);
    n := Mark(level, src, dst, n);
  }

  /** The marker of level 2. */
  method Mark(level: nat, src: seq<byte>, dst: array<byte>, n0: nat) returns (n: nat)
    requires level in {1, 2} && |src| > 0 && Flushed(level, src, dst[..], |src|, n0)
    modifies dst
    ensures n == n0 && 0 < n <= dst.Length && n <= Bound(|src|) && LevelOf(dst[..n]) == level
    ensures Ref(level, dst[..n], 0, []) == Some(src)
  {
    hide Ref, Decodes;
    n := n0;
    ghost var was := dst[..n];
    assert dst[..][..n] == was && src[..|src|] == src;
    DecodesAll(level, was, src);
    if level == 2 { dst[0] := dst[0] + 32; }
    MarkerIgnored(level, was, dst[..n], 0, []);
  }

  /** fastlz_compress: level 1 below 64K. */
  method Compress(src: seq<byte>, dst: array<byte>, hash: nat -> nat) returns (n: nat)
    requires dst.Length >= Bound(|src|) && forall p: nat :: hash(p) < HASH_SIZE
    modifies dst
    ensures n <= Bound(|src|) && n <= dst.Length && (n == 0 <==> src == [])
    ensures src != [] ==>
      LevelOf(dst[..n]) == (if |src| < 65536 then 1 else 2) && Ref(LevelOf(dst[..n]), dst[..n], 0, []) == Some(src)
    ensures Steady(src) && |src| > 14 ==> n <= 12 + 3 * (|src| / 255)
  {
    n := CompressLevel(if |src| < 65536 then 1 else 2, src, dst, hash);
  }
}
