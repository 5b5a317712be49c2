/** LZ4_compress_generic_validated for one independent block: hash-table match search, encoding, and
    the end-of-block restrictions. Nothing is assumed of the hash function. */
module Lz4Compress {
  import opened Bytes
  import opened LengthBytes
  import opened Lz77
  import opened Lz4Format
  import opened Lz4Decode
  import opened MatchCopy

  const DISTANCE_MAX: nat := 65535
  const LIMIT_64K: nat := 65536 + MFLIMIT - 1
  const MAX_INPUT_SIZE: nat := 0x7E00_0000
  const SKIP_TRIGGER: nat := 64     // 1 << LZ4_skipTrigger

  function CompressBound(n: nat): nat { n + n / 255 + 16 }

  // ----- what has been written decodes to what has been read --------------------------------------

  /** Whatever sequences follow `block`, decoding it first yields `text`; `n` is the final size. */
  ghost predicate Decodes(block: seq<byte>, text: seq<byte>, n: nat) {
    forall rest: seq<byte> | |rest| > LASTLITERALS ::
      Ref(block + rest, false, 0, [], n) == Ref(block + rest, false, |block|, text, n)
  }

  lemma DecodesNothing(n: nat)
    ensures Decodes([], [], n)
  {
    assert forall rest: seq<byte> :: [] + rest == rest;
  }

  lemma DecodesMore(block: seq<byte>, text: seq<byte>, n: nat, lit: seq<byte>, offset: nat, ml: nat)
    requires Decodes(block, text, n)
    requires MINMATCH <= ml && 0 < offset < 65536 && offset <= |text| + |lit|
    requires |text| + |lit| + MFLIMIT <= n && |text| + |lit| + ml + LASTLITERALS <= n
    ensures Decodes(block + (LitBytes(lit, ml - MINMATCH) + MatchBytes(offset, ml)), CopyMatch(text + lit, offset, ml),
                    n)
  {
    hide Ref, LitBytes, MatchBytes, CopyMatch;
    var a, b := LitBytes(lit, ml - MINMATCH), MatchBytes(offset, ml);
    forall rest: seq<byte> | |rest| > LASTLITERALS
      ensures Ref(block + (a + b) + rest, false, 0, [], n)
           == Ref(block + (a + b) + rest, false, |block + (a + b)|, CopyMatch(text + lit, offset, ml), n)
    {
      var s := block + (a + b) + rest;
      Around(block, a, b, rest);
      SequenceStep(s, false, |block|, text, n, lit, offset, ml);
    }
  }

  lemma Around(block: seq<byte>, a: seq<byte>, b: seq<byte>, rest: seq<byte>)
    ensures block + (a + b) + rest == block + (a + b + rest)
    ensures At(block + (a + b) + rest, |block|, a) && At(block + (a + b) + rest, |block| + |a|, b)
  {}

  lemma DecodesAll(block: seq<byte>, text: seq<byte>, lit: seq<byte>)
    requires Decodes(block, text, |text| + |lit|) && ((block == [] && text == []) || |lit| >= LASTLITERALS)
    ensures Ref(block + LitBytes(lit, 0), false, 0, [], |text| + |lit|) == Some(text + lit)
  {
    hide Ref, LitBytes;
    var s := block + LitBytes(lit, 0);
    assert s[|block|..|s|] == LitBytes(lit, 0);
    LastStep(s, false, |block|, text, lit);
  }

  // ----- match search ----------------------------------------------------------------------------

  /** LZ4_putIndexOnHash stores 16 or 32 bits of a position. */
  function Stored(byU16: bool, position: nat): nat {
    position % if byU16 then 65536 else POW32
  }

  lemma StoredExactly(byU16: bool, n: nat, position: nat)
    requires position + MFLIMIT <= n <= MAX_INPUT_SIZE && (byU16 ==> n < LIMIT_64K)
    ensures Stored(byU16, position) == position
  {}

  function Same4(src: seq<byte>, a: nat, b: nat): bool
    requires a + 4 <= |src| && b + 4 <= |src|
  {
    src[a] == src[b] && src[a + 1] == src[b + 1] && src[a + 2] == src[b + 2] && src[a + 3] == src[b + 3]
  }

  /** The latest position among `ins` with this hash; the table begins with zeros. */
  function Latest(ins: seq<nat>, hash: nat -> nat, h: nat): nat {
    if ins == [] then 0
    else if hash(ins[|ins| - 1]) == h then ins[|ins| - 1] else Latest(ins[..|ins| - 1], hash, h)
  }

  /** The table holds the latest positions of those that were put into it. */
  ghost predicate Remembers(table: seq<nat>, hash: nat -> nat, ins: seq<nat>) {
    forall h | 0 <= h < |table| :: table[h] == Latest(ins, hash, h)
  }

  lemma RemembersMore(table: seq<nat>, hash: nat -> nat, ins: seq<nat>, p: nat)
    requires Remembers(table, hash, ins) && hash(p) < |table|
    ensures Remembers(table[hash(p) := p], hash, ins + [p])
  {
    assert (ins + [p])[..|ins|] == ins;
  }

  /** The latest position with the hash of `p` is near enough and has the same four bytes. */
  ghost predicate Hit(src: seq<byte>, hash: nat -> nat, byU16: bool, ins: seq<nat>, p: nat) {
    var c := Latest(ins, hash, hash(p));
    c + 4 <= |src| && p + 4 <= |src| && Same4(src, c, p) && (byU16 || c + DISTANCE_MAX >= p)
  }

  /** How far the search goes on behind its `j`-th position. */
  function StepAt(acceleration: nat, j: nat): nat {
    if j == 0 then 1 else (acceleration * 64 + (j - 1)) / 64
  }

  function ProbeAt(acceleration: nat, start: nat, j: nat): nat {
    if j == 0 then start else ProbeAt(acceleration, start, j - 1) + StepAt(acceleration, j - 1)
  }

  /** The positions a search looks at, none of which is a hit. */
  ghost predicate Missed(src: seq<byte>, hash: nat -> nat, byU16: bool, acceleration: nat, ins: seq<nat>, start: nat,
                         probes: seq<nat>)
  {
    forall j | 0 <= j < |probes| ::
      probes[j] == ProbeAt(acceleration, start, j) && !Hit(src, hash, byU16, ins + probes[..j], probes[j])
  }

  lemma MissedMore(src: seq<byte>, hash: nat -> nat, byU16: bool, acceleration: nat, ins: seq<nat>, start: nat,
                   probes: seq<nat>, p: nat)
    requires Missed(src, hash, byU16, acceleration, ins, start, probes) && p == ProbeAt(acceleration, start, |probes|)
    requires !Hit(src, hash, byU16, ins + probes, p)
    ensures Missed(src, hash, byU16, acceleration, ins, start, probes + [p])
  {
    hide Hit, ProbeAt;
    var more := probes + [p];
    forall j | 0 <= j < |more|
      ensures more[j] == ProbeAt(acceleration, start, j) && !Hit(src, hash, byU16, ins + more[..j], more[j])
    {
      assert more[..j] == probes[..j];
      if j == |probes| { assert probes[..j] == probes; }
    }
  }

  /** A search that ends: with a hit, or because its next step would lead too near to the end. */
  ghost predicate Searched(src: seq<byte>, hash: nat -> nat, byU16: bool, acceleration: nat, ins: seq<nat>, start: nat,
                           probes: seq<nat>, found: bool)
  {
    if found
    then probes != [] && Missed(src, hash, byU16, acceleration, ins, start, probes[..|probes| - 1])
         && probes[|probes| - 1] == ProbeAt(acceleration, start, |probes| - 1)
         && Hit(src, hash, byU16, ins + probes[..|probes| - 1], probes[|probes| - 1])
    else Missed(src, hash, byU16, acceleration, ins, start, probes)
         && ProbeAt(acceleration, start, |probes| + 1) + MFLIMIT > |src| + 1
  }

  /** The search loop: steps grow as long as nothing is found. It stops at the first hit, and finds none only if it has
      looked at every position its steps lead to. */
  method FindMatch(src: seq<byte>, table: array<nat>, hash: nat -> nat, byU16: bool, acceleration: nat, start: nat,
                   ghost ins: seq<nat>)
    returns (found: bool, ip: nat, matchAt: nat, ghost probes: seq<nat>)
    requires forall p: nat :: hash(p) < table.Length
    requires |src| <= MAX_INPUT_SIZE && (byU16 ==> |src| < LIMIT_64K) && acceleration >= 1
    requires 0 < start <= |src| && Behind(table, start) && Remembers(table[..], hash, ins)
    modifies table
    ensures found ==> start <= ip && ip + MFLIMIT <= |src| && Behind(table, ip + 1)
    ensures found ==> matchAt < ip <= matchAt + DISTANCE_MAX && Same4(src, matchAt, ip)
    ensures Searched(src, hash, byU16, acceleration, ins, start, probes, found)
    ensures Remembers(table[..], hash, ins + probes)
    ensures found ==> ip == probes[|probes| - 1] && matchAt == Latest(ins + probes[..|probes| - 1], hash, hash(ip))
  {
    hide Latest, Remembers, Hit, Missed, ProbeAt, Searched;
    var forwardIp := start;
    var forwardH := hash(forwardIp);
    var step := 1;
    var searchMatchNb := acceleration * SKIP_TRIGGER;
    probes := [];
    assert ins + [] == ins;
    SearchStart(src, hash, byU16, acceleration, ins, start);
    while true
      invariant start <= forwardIp <= |src| && Behind(table, forwardIp) && step >= 1
      invariant forwardH == hash(forwardIp) && searchMatchNb == acceleration * SKIP_TRIGGER + |probes|
      invariant forwardIp == ProbeAt(acceleration, start, |probes|) && step == StepAt(acceleration, |probes|)
      invariant Remembers(table[..], hash, ins + probes)
      invariant Missed(src, hash, byU16, acceleration, ins, start, probes)
      decreases |src| - forwardIp
    {
      var h := forwardH;
      var current := forwardIp;
      matchAt := table[h];
      ip := forwardIp;
      ProbeNext(acceleration, start, |probes|);
      forwardIp := forwardIp + step;
      step := searchMatchNb / SKIP_TRIGGER;
      searchMatchNb := searchMatchNb + 1;
      if forwardIp + MFLIMIT > |src| + 1 {
        SearchedIs(src, hash, byU16, acceleration, ins, start, probes);
        return false, 0, 0, probes;
      }
      forwardH := hash(forwardIp);
      StoredExactly(byU16, |src|, current);
      LookedUp(table[..], hash, ins + probes, current);
      RemembersMore(table[..], hash, ins + probes, current);
      table[h] := Stored(byU16, current);
      HitIs(src, hash, byU16, ins + probes, current, matchAt);
      ghost var missed := probes;
      probes := probes + [current];
      assert ins + probes == ins + missed + [current] && probes[..|missed|] == missed;
      if !byU16 && matchAt + DISTANCE_MAX < current {
        MissedMore(src, hash, byU16, acceleration, ins, start, missed, current);
        continue;
      }
      if Same4(src, matchAt, ip) {
        FoundIs(src, hash, byU16, acceleration, ins, start, missed, current);
        return true, ip, matchAt, probes;
      }
      MissedMore(src, hash, byU16, acceleration, ins, start, missed, current);
    }
  }

  lemma SearchStart(src: seq<byte>, hash: nat -> nat, byU16: bool, acceleration: nat, ins: seq<nat>, start: nat)
    ensures ProbeAt(acceleration, start, 0) == start && StepAt(acceleration, 0) == 1
    ensures Missed(src, hash, byU16, acceleration, ins, start, [])
  {}

  lemma ProbeNext(acceleration: nat, start: nat, j: nat)
    ensures ProbeAt(acceleration, start, j + 1) == ProbeAt(acceleration, start, j) + StepAt(acceleration, j)
  {}

  lemma HitIs(src: seq<byte>, hash: nat -> nat, byU16: bool, ins: seq<nat>, p: nat, c: nat)
    requires c == Latest(ins, hash, hash(p)) && c + 4 <= |src| && p + 4 <= |src|
    ensures Hit(src, hash, byU16, ins, p) <==> Same4(src, c, p) && (byU16 || c + DISTANCE_MAX >= p)
  {}

  lemma SearchedIs(src: seq<byte>, hash: nat -> nat, byU16: bool, acceleration: nat, ins: seq<nat>, start: nat,
                   probes: seq<nat>)
    requires Missed(src, hash, byU16, acceleration, ins, start, probes)
    requires ProbeAt(acceleration, start, |probes| + 1) + MFLIMIT > |src| + 1
    ensures Searched(src, hash, byU16, acceleration, ins, start, probes, false)
  {}

  lemma FoundIs(src: seq<byte>, hash: nat -> nat, byU16: bool, acceleration: nat, ins: seq<nat>, start: nat,
                missed: seq<nat>, p: nat)
    requires Missed(src, hash, byU16, acceleration, ins, start, missed)
    requires p == ProbeAt(acceleration, start, |missed|) && Hit(src, hash, byU16, ins + missed, p)
    ensures Searched(src, hash, byU16, acceleration, ins, start, missed + [p], true)
  {
    hide Missed, Hit, ProbeAt;
    assert (missed + [p])[..|missed|] == missed;
  }

  lemma LookedUp(table: seq<nat>, hash: nat -> nat, ins: seq<nat>, p: nat)
    requires Remembers(table, hash, ins) && hash(p) < |table|
    ensures table[hash(p)] == Latest(ins, hash, hash(p))
  {}

  /** Extends a match backwards over bytes not encoded yet, as far as they agree. */
  method CatchUp(src: seq<byte>, anchor: nat, ip0: nat, matchAt: nat) returns (ip: nat)
    requires matchAt < ip0 && anchor < ip0 && ip0 + 4 <= |src| && Same4(src, matchAt, ip0)
    ensures anchor <= ip <= ip0 && ip0 - ip <= matchAt
    ensures Periodic(src, ip, ip0 + 4, ip0 - matchAt)
    ensures ip == anchor || ip == ip0 - matchAt || src[ip - 1] != src[ip - 1 - (ip0 - matchAt)]
  {
    ip := ip0;
    var m := matchAt;
    while ip > anchor && m > 0 && src[ip - 1] == src[m - 1]
      invariant anchor <= ip <= ip0 && m == ip - (ip0 - matchAt)
      invariant Periodic(src, ip, ip0 + 4, ip0 - matchAt)
    {
      ip := ip - 1;
      m := m - 1;
    }
  }

  /** LZ4_NbCommonBytes of the xor of two words: how many leading bytes agree. */
  method CommonBytes(src: seq<byte>, a: nat, b: nat) returns (c: nat)
    requires a + 8 <= |src| && b + 8 <= |src| && src[a..a + 8] != src[b..b + 8]
    ensures c < 8 && src[a..a + c] == src[b..b + c] && src[a + c] != src[b + c]
  {
    c := 0;
    while c < 8 && src[a + c] == src[b + c]
      invariant c <= 8 && src[a..a + c] == src[b..b + c]
    {
      assert src[a..a + c + 1] == src[a..a + c] + [src[a + c]];
      assert src[b..b + c + 1] == src[b..b + c] + [src[b + c]];
      c := c + 1;
    }
  }

  /** LZ4_count: the length of the common run of `m` and `p`, not past `limit`. */
  method Count(src: seq<byte>, p: nat, m: nat, limit: nat) returns (c: nat)
    requires m < p <= limit <= |src|
    ensures p + c <= limit && Periodic(src, p, p + c, p - m)
    ensures p + c == limit || src[p + c] != src[m + c]
  {
    hide Periodic;
    c := 0;
    Nothing(src, p, p - m);
    while p + c + 7 < limit
      invariant p + c <= limit && Periodic(src, p, p + c, p - m)
    {
      if src[m + c..m + c + 8] == src[p + c..p + c + 8] {
        ExtendRun(src, p, p + c, 8, p - m);
        c := c + 8;
      } else {
        var n := CommonBytes(src, m + c, p + c);
        ExtendRun(src, p, p + c, n, p - m);
        c := c + n;
        return;
      }
    }
    c := CountTail(src, p, m, limit, c);
  }

  lemma Nothing(src: seq<byte>, p: nat, d: nat)
    requires d <= p <= |src|
    ensures Periodic(src, p, p, d)
  {}

  /** The common run ends within the next `k` bytes. */
  ghost predicate EndsWithin(src: seq<byte>, p: nat, m: nat, limit: nat, k: nat)
    requires m < p <= limit <= |src|
  {
    limit < p + k || src[m..m + k] != src[p..p + k]
  }

  /** The last seven bytes: four, two and one at a time. */
  method CountTail(src: seq<byte>, p: nat, m: nat, limit: nat, c0: nat) returns (c: nat)
    requires m < p && p + c0 <= limit <= |src| && limit <= p + c0 + 7 && Periodic(src, p, p + c0, p - m)
    ensures p + c <= limit && Periodic(src, p, p + c, p - m)
    ensures p + c == limit || src[p + c] != src[m + c]
  {
    hide Periodic;
    c := CountWord(src, p, m, limit, c0, 4);
    c := CountWord(src, p, m, limit, c, 2);
    c := CountWord(src, p, m, limit, c, 1);
    if p + c < limit { OneByte(src, p + c, m + c); }
  }

  lemma OneByte(src: seq<byte>, p: nat, m: nat)
    requires m < p < |src| && src[m..m + 1] != src[p..p + 1]
    ensures src[p] != src[m]
  {}

  /** One word comparison of the tail. */
  method CountWord(src: seq<byte>, p: nat, m: nat, limit: nat, c0: nat, k: nat) returns (c: nat)
    requires m < p && p + c0 <= limit <= |src| && Periodic(src, p, p + c0, p - m)
    requires k > 0 && EndsWithin(src, p + c0, m + c0, limit, 2 * k)
    ensures p + c <= limit && Periodic(src, p, p + c, p - m) && EndsWithin(src, p + c, m + c, limit, k)
  {
    hide Periodic, EndsWithin;
    var q, n := p + c0, m + c0;
    if q + (k - 1) < limit && src[n..n + k] == src[q..q + k] {
      ExtendRun(src, p, q, k, p - m);
      EndsAfter(src, q, n, limit, k);
      return c0 + k;
    }
    EndsNow(src, q, n, limit, k);
    return c0;
  }

  lemma EndsNow(src: seq<byte>, p: nat, m: nat, limit: nat, k: nat)
    requires m < p <= limit <= |src| && (limit < p + k || src[m..m + k] != src[p..p + k])
    ensures EndsWithin(src, p, m, limit, k)
  {}

  lemma EndsAfter(src: seq<byte>, p: nat, m: nat, limit: nat, k: nat)
    requires m < p && p + k <= limit <= |src| && src[m..m + k] == src[p..p + k]
    requires EndsWithin(src, p, m, limit, 2 * k)
    ensures EndsWithin(src, p + k, m + k, limit, k)
  {
    if limit >= p + 2 * k {
      Join(src, m, m + k, m + 2 * k);
      Join(src, p, p + k, p + 2 * k);
    }
  }

  lemma ExtendRun(src: seq<byte>, lo: nat, hi: nat, n: nat, d: nat)
    requires d <= lo <= hi && hi + n <= |src| && Periodic(src, lo, hi, d)
    requires src[hi - d..hi - d + n] == src[hi..hi + n]
    ensures Periodic(src, lo, hi + n, d)
  {
    forall k | hi <= k < hi + n ensures src[k] == src[k - d] {
      assert src[k] == src[hi..hi + n][k - hi] == src[hi - d..hi - d + n][k - hi];
    }
  }

  // ----- encoding --------------------------------------------------------------------------------

  /** The literals and their length are written; the token still lacks the match half. */
  ghost predicate HasLits(out: seq<byte>, op0: nat, op: nat, lit: seq<byte>) {
    && op0 + |LitBytes(lit, 0)| == op <= |out|
    && out[op0..op] == LitBytes(lit, 0)
  }

  /** The token with its literal half, and the length extension if there is one. */
  method PutHead(dst: array<byte>, op0: nat, n: nat) returns (op: nat)
    requires op0 + 1 + |LenField(n)| <= dst.Length
    modifies dst
    ensures op == op0 + 1 + |LenField(n)|
    ensures dst[..op] == old(dst[..op0]) + ([TokenOf(n, 0)] + LenField(n))
  {
    hide Ext;
    ghost var low := dst[..op0];
    dst[op0] := 16 * Nibble(n);
    op := op0 + 1;
    if n >= 15 {
      op := PutExt(dst, op, n - 15);
    }
    HeadWritten(low, dst[..], op0, op, n);
  }

  lemma HeadWritten(low: seq<byte>, now: seq<byte>, op0: nat, op: nat, n: nat)
    requires op0 < op <= |now| && now[..op0] == low && now[op0 + 1..op] == LenField(n) && now[op0] == TokenOf(n, 0)
    ensures now[..op] == low + ([TokenOf(n, 0)] + LenField(n))
  {
    hide *;
    assert now[op0..op] == [now[op0]] + now[op0 + 1..op];
    assert now[..op] == now[..op0] + now[op0..op];
  }

  /** Encode Literals: the token at `op0`, the length, and the bytes, copied eight at a time. */
  method EmitLiterals(src: seq<byte>, dst: array<byte>, op0: nat, anchor: nat, ip: nat) returns (op: nat)
    requires anchor <= ip && ip + 8 <= |src|
    requires op0 + 1 + |LenField(ip - anchor)| + (ip - anchor) + 8 <= dst.Length
    modifies dst
    ensures HasLits(dst[..], op0, op, src[anchor..ip]) && dst[..op0] == old(dst[..op0])
  {
    hide LenField;
    var litLength := ip - anchor;
    ghost var low := dst[..op0];
    op := PutHead(dst, op0, litLength);
    WildCopyFrom(dst, op, src, anchor, litLength, 8);
    LitsWritten(low, dst[..], op, litLength, src[anchor..ip]);
    op := op + litLength;
  }

  lemma LitsWritten(low: seq<byte>, now: seq<byte>, op: nat, n: nat, lit: seq<byte>)
    requires op + n <= |now| && |lit| == n && now[op..op + n] == lit
    requires now[..op] == low + ([TokenOf(n, 0)] + LenField(n))
    ensures now[..|low|] == low && now[|low|..op + n] == LitBytes(lit, 0)
    ensures now[..op + n] == low + LitBytes(lit, 0)
  {
    var head := [TokenOf(n, 0)] + LenField(n);
    hide TokenOf, LenField, Nibble;
    assert now[..op][..|low|] == low && now[..op][|low|..] == head;
    assert now[|low|..op + n] == now[..op][|low|..] + now[op..op + n];
    assert now[..op + n] == now[..op] + now[op..op + n];
  }

  function Full(n: nat): seq<byte> { seq(n, _ => 255) }

  lemma {:induction false} ExtShape(n: nat)
    ensures Ext(n) == Full(n / 255) + [n % 255]
  {
    if n >= 255 {
      ExtShape(n - 255);
      assert Full(n / 255) == [255] + Full(n / 255 - 1);
    }
  }

  /** Writing four bytes of 255 ahead and moving over as many as are wanted. */
  method PutExtByFours(dst: array<byte>, op0: nat, n: nat) returns (op: nat)
    requires op0 + n / 255 + 4 <= dst.Length
    modifies dst
    ensures op == op0 + n / 255 + 1 && dst[op0..op] == Ext(n)
    ensures forall k | 0 <= k < op0 :: dst[k] == old(dst[k])
  {
    op := op0;
    var len := n;
    forall k | 0 <= k < 4 { dst[op + k] := 255; }
    while len >= 4 * 255
      invariant op0 <= op && len >= 0 && op + len / 255 == op0 + n / 255 && len % 255 == n % 255
      invariant forall k | op0 <= k < op + 4 :: dst[k] == 255
      invariant forall k | 0 <= k < op0 :: dst[k] == old(dst[k])
      decreases len
    {
      op := op + 4;
      forall k | 0 <= k < 4 { dst[op + k] := 255; }
      len := len - 4 * 255;
    }
    op := op + len / 255;
    dst[op] := len % 255;
    assert dst[op0..op] == Full(n / 255);
    op := op + 1;
    assert dst[op0..op] == dst[op0..op - 1] + [len % 255];
    ExtShape(n);
  }

  /** Encode Offset and Encode MatchLength; the token at `tok` gets its low half. */
  method EmitMatch(dst: array<byte>, tok: nat, op0: nat, offset: nat, mc: nat) returns (op: nat)
    requires tok < op0 && offset < 65536 && op0 + 2 + mc / 255 + 4 <= dst.Length && dst[tok] % 16 == 0
    modifies dst
    ensures op == op0 + |MatchBytes(offset, mc + MINMATCH)| && dst[op0..op] == MatchBytes(offset, mc + MINMATCH)
    ensures dst[tok] == old(dst[tok]) + Nibble(mc)
    ensures forall k | 0 <= k < op0 && k != tok :: dst[k] == old(dst[k])
  {
    dst[op0] := offset % 256;
    dst[op0 + 1] := offset / 256;
    op := op0 + 2;
    if mc >= 15 {
      dst[tok] := dst[tok] + 15;
      ghost var was := dst[op0..op0 + 2];
      assert was == [offset % 256, offset / 256];
      op := PutExtByFours(dst, op, mc - 15);
      assert dst[op0..op0 + 2] == was;
      Join(dst[..], op0, op0 + 2, op);
    } else {
      dst[tok] := dst[tok] + mc;
      assert dst[op0..op] == [offset % 256, offset / 256] + [];
    }
  }

  /** The finished sequence, token and all. */
  lemma SequenceBytes(was: seq<byte>, now: seq<byte>, tok: nat, op: nat, op': nat, lit: seq<byte>, offset: nat, mc: nat)
    requires offset < 65536 && HasLits(was, tok, op, lit) && |was| == |now| && op <= op' <= |now|
    requires now[tok] == was[tok] + Nibble(mc) && now[op..op'] == MatchBytes(offset, mc + MINMATCH)
    requires forall k | 0 <= k < op && k != tok :: now[k] == was[k]
    ensures now[..op'] == was[..tok] + (LitBytes(lit, mc) + MatchBytes(offset, mc + MINMATCH))
  {
    hide MatchBytes, LenField;
    var a := LitBytes(lit, mc);
    assert was[tok] == was[tok..op][0] == LitBytes(lit, 0)[0];
    assert now[tok..op] == a by {
      assert forall k | 0 < k < |a| :: now[tok + k] == was[tok..op][k] == LitBytes(lit, 0)[k] == a[k];
    }
    assert now[..tok] == was[..tok];
    assert now[..op'] == now[..tok] + (now[tok..op] + now[op..op']);
  }

  // ----- room in the output ----------------------------------------------------------------------

  /** The output never runs ahead of the input by more than one byte in 255. */
  ghost predicate Room(op: nat, pos: nat) { 255 * (op - pos) <= pos }

  lemma LenFieldSize(n: nat)
    ensures |LenField(n)| == if n < 15 then 0 else (n - 15) / 255 + 1
  {}

  lemma RoomAfterLits(op0: nat, anchor: nat, ip: nat, n: nat)
    requires Room(op0, anchor) && anchor <= ip && ip + MFLIMIT <= n
    ensures var op := op0 + 1 + |LenField(ip - anchor)| + (ip - anchor);
            op + 8 <= CompressBound(n) && 255 * (op - ip) <= ip + 495
  {
    LenFieldSize(ip - anchor);
  }

  lemma RoomAfterMatch(op: nat, ip: nat, mc: nat, n: nat)
    requires 255 * (op - ip) <= ip + 495 && ip + MINMATCH + mc + LASTLITERALS <= n
    ensures op + 2 + mc / 255 + 4 <= CompressBound(n)
    ensures Room(op + 2 + |LenField(mc)|, ip + MINMATCH + mc)
  {
    LenFieldSize(mc);
  }

  lemma RoomAtEnd(op0: nat, anchor: nat, n: nat)
    requires Room(op0, anchor) && anchor <= n
    ensures op0 + 1 + |LenField(n - anchor)| + (n - anchor) <= n + n / 255 + 2
  {
    LenFieldSize(n - anchor);
  }

  // ----- one sequence, and the block -------------------------------------------------------------

  ghost predicate Progress(src: seq<byte>, out: seq<byte>, op: nat, anchor: nat) {
    op <= |out| && anchor + LASTLITERALS <= |src| && Room(op, anchor)
    && Decodes(out[..op], src[..anchor], |src|)
  }

  /** A sequence: the literals up to `ip`, and the match up to `end`. */
  function SequenceOf(src: seq<byte>, anchor: nat, ip: nat, offset: nat, end: nat): seq<byte>
    requires anchor <= ip && ip + MINMATCH <= end <= |src| && offset < 65536
  {
    LitBytes(src[anchor..ip], end - ip - MINMATCH) + MatchBytes(offset, end - ip)
  }

  /** From the literals to the end of the match, which is as long as it can be; `again` is the jump to `_next_match`,
      which writes an empty token instead of encoding literals. The match runs at least up to `far`. */
  method EmitSequence(src: seq<byte>, dst: array<byte>, op0: nat, anchor: nat, ip: nat, offset: nat, again: bool,
                      ghost far: nat)
    returns (op: nat, end: nat)
    requires dst.Length >= CompressBound(|src|) && Progress(src, dst[..], op0, anchor)
    requires anchor <= ip && ip + MFLIMIT <= |src| && (again ==> ip == anchor)
    requires 0 < offset <= ip && offset <= DISTANCE_MAX
    requires ip + MINMATCH <= far && far + LASTLITERALS <= |src| && Periodic(src, ip, far, offset)
    modifies dst
    ensures Progress(src, dst[..], op, end) && far <= end && op <= dst.Length && op0 <= dst.Length
    ensures dst[..op] == old(dst[..op0]) + SequenceOf(src, anchor, ip, offset, end)
    ensures end + LASTLITERALS == |src| || src[end] != src[end - offset]
  {
    hide LitBytes, MatchBytes, LenField, Decodes, CopyMatch, Room;
    ghost var block := dst[..op0];
    assert dst[..][..op0] == block;
    RoomAfterLits(op0, anchor, ip, |src|);
    var mid := EmitHead(src, dst, op0, anchor, ip, again);
    assert dst[..][..op0] == dst[..op0] == block;
    ghost var was := dst[..];
    var mc := Count(src, ip + MINMATCH, ip + MINMATCH - offset, |src| - LASTLITERALS);
    RoomAfterMatch(mid, ip, mc, |src|);
    op := EmitMatch(dst, op0, mid, offset, mc);
    end := ip + MINMATCH + mc;
    SequenceBytes(was, dst[..], op0, mid, op, src[anchor..ip], offset, mc);
    MatchedText(src, anchor, ip, end, offset, far);
    DecodesMore(block, src[..anchor], |src|, src[anchor..ip], offset, mc + MINMATCH);
  }

  method EmitHead(src: seq<byte>, dst: array<byte>, op0: nat, anchor: nat, ip: nat, again: bool) returns (op: nat)
    requires anchor <= ip && ip + 8 <= |src| && (again ==> ip == anchor)
    requires op0 + 1 + |LenField(ip - anchor)| + (ip - anchor) + 8 <= dst.Length
    modifies dst
    ensures HasLits(dst[..], op0, op, src[anchor..ip]) && dst[..op0] == old(dst[..op0])
    ensures op == op0 + 1 + |LenField(ip - anchor)| + (ip - anchor) && dst[op0] % 16 == 0
  {
    hide LenField, Nibble, TokenOf;
    if again {
      dst[op0] := 0;
      op := op0 + 1;
      EmptyToken(dst[..], op0, src[anchor..ip]);
    } else {
      op := EmitLiterals(src, dst, op0, anchor, ip);
    }
    LitsFacts(dst[..], op0, op, src[anchor..ip]);
  }

  lemma EmptyToken(now: seq<byte>, op0: nat, lit: seq<byte>)
    requires op0 < |now| && now[op0] == 0 && lit == []
    ensures HasLits(now, op0, op0 + 1, lit)
  {}

  lemma LitsFacts(now: seq<byte>, op0: nat, op: nat, lit: seq<byte>)
    requires HasLits(now, op0, op, lit)
    ensures op == op0 + 1 + |LenField(|lit|)| + |lit| && now[op0] % 16 == 0
  {
    hide LenField;
    assert now[op0] == now[op0..op][0];
  }

  /** The match found is the text between the two positions. */
  lemma MatchedText(src: seq<byte>, anchor: nat, ip: nat, end: nat, offset: nat, far: nat)
    requires anchor <= ip <= end <= |src| && 0 < offset <= ip && far <= |src|
    requires ip + MINMATCH <= far && Periodic(src, ip, far, offset)
    requires ip + MINMATCH <= end && Periodic(src, ip + MINMATCH, end, offset)
    ensures src[..anchor] + src[anchor..ip] == src[..ip]
    ensures CopyMatch(src[..ip], offset, end - ip) == src[..end]
    ensures end < far ==> src[end] == src[end - offset]
  {
    PeriodicIsCopy(src, ip, end, offset);
  }

  /** After a match: fill the table, and as long as the next position is a hit too, go on at once. */
  method NextMatches(src: seq<byte>, dst: array<byte>, table: array<nat>, hash: nat -> nat, byU16: bool, op0: nat,
                     ip0: nat, ghost ins0: seq<nat>)
    returns (op: nat, ip: nat, ended: bool, ghost ins: seq<nat>)
    requires forall p: nat :: hash(p) < table.Length
    requires |src| <= MAX_INPUT_SIZE && (byU16 ==> |src| < LIMIT_64K)
    requires dst != table as object && dst.Length >= CompressBound(|src|)
    requires Progress(src, dst[..], op0, ip0) && 2 < ip0 && Behind(table, ip0) && Remembers(table[..], hash, ins0)
    modifies dst, table
    ensures Progress(src, dst[..], op, ip) && ip0 <= ip && (ended <==> ip + MFLIMIT > |src|)
    ensures !ended ==> Behind(table, ip + 1)
    ensures Remembers(table[..], hash, ins) && (!ended ==> Stopped(src, hash, byU16, ins, ip))
    ensures ip0 + MFLIMIT > |src| ==> op == op0 && ip == ip0 && dst[..] == old(dst[..])
  {
    hide Progress, Periodic, Remembers, Stopped, Hit, Latest;
    op, ip, ins := op0, ip0, ins0;
    while true
      invariant Progress(src, dst[..], op, ip) && ip0 <= ip && Behind(table, ip) && Remembers(table[..], hash, ins)
      invariant ip0 + MFLIMIT > |src| ==> op == op0 && ip == ip0 && dst[..] == old(dst[..])
      decreases |src| - ip
    {
      ProgressInside(src, dst[..], op, ip);
      if ip + MFLIMIT > |src| { return op, ip, true, ins; }
      StoredExactly(byU16, |src|, ip - 2);
      StoredExactly(byU16, |src|, ip);
      RemembersMore(table[..], hash, ins, ip - 2);
      table[hash(ip - 2)] := Stored(byU16, ip - 2);
      ghost var back := ins + [ip - 2];
      var h := hash(ip);
      var matchAt := table[h];
      LookedUp(table[..], hash, back, ip);
      RemembersMore(table[..], hash, back, ip);
      table[h] := Stored(byU16, ip);
      ins := back + [ip];
      HitIs(src, hash, byU16, back, ip, matchAt);
      if !((byU16 || matchAt + DISTANCE_MAX >= ip) && Same4(src, matchAt, ip)) {
        StoppedIs(src, hash, byU16, back, ip);
        return op, ip, false, ins;
      }
      FourBytes(src, matchAt, ip);
      var end;
      op, end := EmitSequence(src, dst, op, ip, ip, ip - matchAt, true, ip + MINMATCH);
      ip := end;
    }
  }

  /** The next position was put into the table, and it was no hit. */
  ghost predicate Stopped(src: seq<byte>, hash: nat -> nat, byU16: bool, ins: seq<nat>, ip: nat) {
    && |ins| >= 2 && ins[|ins| - 1] == ip && ins[|ins| - 2] == ip - 2
    && !Hit(src, hash, byU16, ins[..|ins| - 1], ip)
  }

  lemma StoppedIs(src: seq<byte>, hash: nat -> nat, byU16: bool, back: seq<nat>, ip: nat)
    requires back != [] && back[|back| - 1] == ip - 2 && !Hit(src, hash, byU16, back, ip)
    ensures Stopped(src, hash, byU16, back + [ip], ip)
  {
    hide Hit;
    assert (back + [ip])[..|back|] == back;
  }

  lemma ProgressInside(src: seq<byte>, out: seq<byte>, op: nat, anchor: nat)
    requires Progress(src, out, op, anchor)
    ensures anchor + LASTLITERALS <= |src|
  {}

  lemma FourBytes(src: seq<byte>, matchAt: nat, ip: nat)
    requires matchAt < ip && ip + 4 <= |src| && Same4(src, matchAt, ip)
    ensures Periodic(src, ip, ip + MINMATCH, ip - matchAt)
  {}

  /** Nothing is left to be matched behind `anchor`: it is near the end, or a search from the next position is
      fruitless. */
  ghost predicate Exhausted(src: seq<byte>, hash: nat -> nat, byU16: bool, acceleration: nat, anchor: nat,
                            table: seq<nat>, ins: seq<nat>, probes: seq<nat>)
  {
    anchor + MFLIMIT > |src|
    || (Searched(src, hash, byU16, acceleration, ins, anchor + 1, probes, false)
        && Remembers(table, hash, ins + probes))
  }

  /** One turn of the main loop up to the end of the match. */
  method EncodeNext(src: seq<byte>, dst: array<byte>, table: array<nat>, hash: nat -> nat, byU16: bool,
                    acceleration: nat, op0: nat, anchor: nat, ghost ins: seq<nat>)
    returns (found: bool, op: nat, end: nat, ghost probes: seq<nat>)
    requires forall p: nat :: hash(p) < table.Length
    requires MFLIMIT < |src| <= MAX_INPUT_SIZE && (byU16 ==> |src| < LIMIT_64K) && acceleration >= 1
    requires dst != table as object && dst.Length >= CompressBound(|src|) && anchor < |src|
    requires Progress(src, dst[..], op0, anchor) && Behind(table, anchor + 1) && Remembers(table[..], hash, ins)
    modifies dst, table
    ensures Searched(src, hash, byU16, acceleration, ins, anchor + 1, probes, found)
    ensures Remembers(table[..], hash, ins + probes)
    ensures !found ==> op == op0 && dst[..] == old(dst[..])
    ensures Steady(src) && anchor == op0 == 0 && ins == [0] ==> found
    ensures found ==> Progress(src, dst[..], op, end) && anchor + 2 < end && Behind(table, end)
    ensures found && Steady(src) && anchor == op0 == 0 && ins == [0] ==>
      end + LASTLITERALS == |src| && op <= dst.Length && dst[..op] == SequenceOf(src, 0, 1, 1, |src| - LASTLITERALS)
  {
    hide Progress, Periodic, Remembers, Hit, Latest, Searched, SequenceOf, Steady;
    op, end := op0, anchor;
    var ip, matchAt;
    found, ip, matchAt, probes := FindMatch(src, table, hash, byU16, acceleration, anchor + 1, ins);
    ghost var first := Steady(src) && anchor == op0 == 0 && ins == [0];
    if first { SteadyFirst(src, hash, byU16, acceleration, probes, found); }
    if !found { return; }
    var start := CatchUp(src, anchor, ip, matchAt);
    op, end := EmitSequence(src, dst, op0, anchor, start, ip - matchAt, false, ip + MINMATCH);
    if first {
      ProgressInside(src, dst[..], op, end);
      SteadyEnd(src, end, ip - matchAt);
      assert old(dst[..op0]) == [];
    }
  }

  /** The main loop, up to the jump to `_last_literals`. */
  method CompressBody(src: seq<byte>, dst: array<byte>, table: array<nat>, hash: nat -> nat, acceleration: nat)
    returns (op: nat, anchor: nat, ghost ins: seq<nat>, ghost probes: seq<nat>)
    requires forall p: nat :: hash(p) < table.Length
    requires MFLIMIT < |src| <= MAX_INPUT_SIZE && acceleration >= 1
    requires dst != table as object && dst.Length >= CompressBound(|src|)
    requires forall k | 0 <= k < table.Length :: table[k] == 0
    modifies dst, table
    ensures Progress(src, dst[..], op, anchor)
    ensures Exhausted(src, hash, |src| < LIMIT_64K, acceleration, anchor, table[..], ins, probes)
    ensures Steady(src) ==> anchor + LASTLITERALS == |src| && op <= dst.Length
    ensures Steady(src) ==> dst[..op] == SequenceOf(src, 0, 1, 1, |src| - LASTLITERALS)
  {
    var byU16 := |src| < LIMIT_64K;
    ProgressStart(src, dst[..]);
    hide Progress, Periodic, Remembers, Hit, Latest, Searched, SequenceOf, Steady, Exhausted, Stopped;
    op, anchor, ins, probes := 0, 0, [], [];
    ZeroTable(table, hash);
    RemembersMore(table[..], hash, ins, 0);
    table[hash(0)] := Stored(byU16, 0);
    ins := ins + [0];
    while true
      invariant Progress(src, dst[..], op, anchor) && anchor < |src| && Behind(table, anchor + 1)
      invariant Remembers(table[..], hash, ins) && (Steady(src) ==> op == anchor == 0 && ins == [0])
      decreases |src| - anchor
    {
      var found, end, next, ended;
      found, op, end, probes := EncodeNext(src, dst, table, hash, byU16, acceleration, op, anchor, ins);
      if !found {
        ExhaustedIs(src, hash, byU16, acceleration, anchor, table[..], ins, probes);
        return;
      }
      op, next, ended, ins := NextMatches(src, dst, table, hash, byU16, op, end, ins + probes);
      anchor := next;
      if ended {
        ExhaustedAtEnd(src, hash, byU16, acceleration, anchor, table[..], ins, probes);
        return;
      }
    }
  }

  lemma ZeroTable(table: array<nat>, hash: nat -> nat)
    requires forall k | 0 <= k < table.Length :: table[k] == 0
    ensures Remembers(table[..], hash, [])
  {}

  lemma ExhaustedIs(src: seq<byte>, hash: nat -> nat, byU16: bool, acceleration: nat, anchor: nat,
                    table: seq<nat>, ins: seq<nat>, probes: seq<nat>)
    requires Searched(src, hash, byU16, acceleration, ins, anchor + 1, probes, false)
    requires Remembers(table, hash, ins + probes)
    ensures Exhausted(src, hash, byU16, acceleration, anchor, table, ins, probes)
  {}

  lemma ExhaustedAtEnd(src: seq<byte>, hash: nat -> nat, byU16: bool, acceleration: nat, anchor: nat,
                       table: seq<nat>, ins: seq<nat>, probes: seq<nat>)
    requires anchor + MFLIMIT > |src|
    ensures Exhausted(src, hash, byU16, acceleration, anchor, table, ins, probes)
  {}

  /** Of equal bytes the second one is a hit at once, whatever the hash: the table says 0 either way. */
  lemma SteadyFirst(src: seq<byte>, hash: nat -> nat, byU16: bool, acceleration: nat, probes: seq<nat>, found: bool)
    requires Steady(src) && MFLIMIT < |src| && Searched(src, hash, byU16, acceleration, [0], 1, probes, found)
    ensures found && probes == [1] && Latest([0] + probes[..|probes| - 1], hash, hash(probes[|probes| - 1])) == 0
  {
    assert Latest([0], hash, hash(1)) == 0;
    assert Hit(src, hash, byU16, [0], 1);
    hide Hit, Latest;
    assert [0] + [] == [0];
    assert StepAt(acceleration, 0) == 1 && ProbeAt(acceleration, 1, 0) == 1 && ProbeAt(acceleration, 1, 1) == 2;
    FirstMissed(src, hash, byU16, acceleration, [0], 1, if found then probes[..|probes| - 1] else probes);
  }

  lemma FirstMissed(src: seq<byte>, hash: nat -> nat, byU16: bool, acceleration: nat, ins: seq<nat>, start: nat,
                    probes: seq<nat>)
    requires Missed(src, hash, byU16, acceleration, ins, start, probes)
    ensures probes != [] ==> probes[0] == start && !Hit(src, hash, byU16, ins, start)
  {
    hide Hit;
    assert probes[..0] == [] && ins + [] == ins;
  }

  lemma SteadyEnd(src: seq<byte>, end: nat, offset: nat)
    requires Steady(src)
    requires end + LASTLITERALS == |src| || (end < |src| && offset <= end && src[end] != src[end - offset])
    ensures end + LASTLITERALS == |src|
  {}

  lemma ProgressStart(src: seq<byte>, out: seq<byte>)
    requires |src| >= LASTLITERALS
    ensures Progress(src, out, 0, 0)
  {
    DecodesNothing(|src|);
    assert out[..0] == [] && src[..0] == [];
  }

  /** Encode Last Literals. */
  method LastLiterals(src: seq<byte>, dst: array<byte>, op0: nat, anchor: nat) returns (op: nat)
    requires anchor <= |src| && op0 + |LitBytes(src[anchor..], 0)| <= dst.Length
    modifies dst
    ensures op <= dst.Length && dst[..op] == old(dst[..op0]) + LitBytes(src[anchor..], 0)
  {
    hide LenField;
    var lastRun := |src| - anchor;
    ghost var low := dst[..op0];
    op := PutHead(dst, op0, lastRun);
    MemcpyFrom(dst, op, src, anchor, lastRun);
    assert src[anchor..anchor + lastRun] == src[anchor..];
    LitsWritten(low, dst[..], op, lastRun, src[anchor..]);
    op := op + lastRun;
  }

  /** What equal bytes become: one literal, a match at distance 1, and the last five literals. */
  function SteadyBlock(b: byte, n: nat): seq<byte>
    requires n > MFLIMIT
  {
    LitBytes([b], n - 10) + MatchBytes(1, n - 6) + LitBytes([b, b, b, b, b], 0)
  }

  lemma SteadyBlockSize(b: byte, n: nat)
    requires n > MFLIMIT
    ensures |SteadyBlock(b, n)| <= n / 255 + 12 && (n < 25 ==> |SteadyBlock(b, n)| == 10)
    ensures n > 32 ==> |SteadyBlock(b, n)| < n
  {
    LenFieldSize(n - 10);
    assert |LenField(1)| == |LenField(5)| == 0;
  }

  lemma SteadyParts(src: seq<byte>)
    requires Steady(src) && |src| > MFLIMIT
    ensures SequenceOf(src, 0, 1, 1, |src| - LASTLITERALS) + LitBytes(src[|src| - LASTLITERALS..], 0)
         == SteadyBlock(src[0], |src|)
  {
    hide LitBytes, MatchBytes;
    assert src[0..1] == [src[0]];
    assert src[|src| - LASTLITERALS..] == [src[0], src[0], src[0], src[0], src[0]];
  }

  /** LZ4_compress_generic into a buffer of at least LZ4_compressBound bytes, where it cannot fail. */
  method Compress(src: seq<byte>, dst: array<byte>, tableSize: nat, hash: nat -> nat, acceleration: nat)
    returns (n: nat)
    requires 0 < |src| <= MAX_INPUT_SIZE && acceleration >= 1 && dst.Length >= CompressBound(|src|)
    requires forall p: nat :: hash(p) < tableSize
    modifies dst
    ensures n <= dst.Length && n <= |src| + |src| / 255 + 2
    ensures Ref(dst[..n], false, 0, [], |src|) == Some(src)
    ensures |src| > MFLIMIT && Steady(src) ==> dst[..n] == SteadyBlock(src[0], |src|)
  {
    hide Decodes, LitBytes, Ref, LenField, Steady, SequenceOf, SteadyBlock;
    var op, anchor := 0, 0;
    ghost var ins, probes: seq<nat> := [], [];
    DecodesNothing(|src|);
    assert dst[..][..0] == [] && src[..0] == [];
    if |src| > MFLIMIT {
      var table := new nat[tableSize](_ => 0);
      op, anchor, ins, probes := CompressBody(src, dst, table, hash, acceleration);
    }
    RoomAtEnd(op, anchor, |src|);
    ghost var block := dst[..op];
    assert dst[..][..op] == block && src[..anchor] + src[anchor..] == src;
    n := LastLiterals(src, dst, op, anchor);
    DecodesAll(block, src[..anchor], src[anchor..]);
    if |src| > MFLIMIT && Steady(src) { SteadyParts(src); }
  }
}
