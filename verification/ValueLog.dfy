/** The buffer of value changes of one block (`vchg_mem`): entries of all signals in the order they
    were emitted, each linked back to the previous entry of its signal. */
module ValueLog {
  import opened Bytes
  import opened Leb128
  import opened ChainCodec

  /** One entry: the offset of the signal's previous entry, the time steps since, and the value. */
  function EntryBytes(len: nat, link: nat, r: Rec): (s: seq<byte>)
    requires link < POW32
    ensures |s| >= 5
  {
    Word32(link) + (Varint(r.delta) + Counted(len, r.value))
  }

  function Counted(len: nat, value: seq<byte>): seq<byte> {
    if len == 0 then Varint(|value|) + value else value
  }

  /** Walking back from `head` meets exactly the records `rs`, the latest one first. */
  ghost predicate LogHolds(log: seq<byte>, len: nat, head: nat, rs: seq<Rec>) {
    if rs == [] then head == 0
    else
      var r := rs[|rs| - 1];
      && 0 < head && RecFits(len, r)
      && exists link: nat :: LogEntry(log, len, head, r, link) && LogHolds(log[..head], len, link, rs[..|rs| - 1])
  }

  ghost predicate LogEntry(log: seq<byte>, len: nat, head: nat, r: Rec, link: nat) {
    link < head && link < POW32 && At(log, head, EntryBytes(len, link, r))
  }

  /** Later entries of any signal leave a signal's log alone. */
  lemma {:induction false} LogKept(log: seq<byte>, more: seq<byte>, len: nat, head: nat, rs: seq<Rec>)
    requires LogHolds(log, len, head, rs)
    ensures LogHolds(log + more, len, head, rs)
  {
    if rs != [] {
      var r := rs[|rs| - 1];
      var link: nat :| LogEntry(log, len, head, r, link) && LogHolds(log[..head], len, link, rs[..|rs| - 1]);
      AtExtend([], log, more, head, EntryBytes(len, link, r));
      assert [] + log + more == log + more;
      assert (log + more)[..head] == log[..head];
      assert LogEntry(log + more, len, head, r, link);
    }
  }

  /** Appending an entry extends its signal's log by one record. */
  lemma LogGrows(log: seq<byte>, len: nat, head: nat, rs: seq<Rec>, r: Rec)
    requires LogHolds(log, len, head, rs) && 0 < |log| && head < POW32 && head < |log| && RecFits(len, r)
    ensures LogHolds(log + EntryBytes(len, head, r), len, |log|, rs + [r])
  {
    hide EntryBytes, RecFits;
    var log' := log + EntryBytes(len, head, r);
    assert log'[..|log|] == log;
    assert (rs + [r])[..|rs|] == rs;
    assert LogEntry(log', len, |log|, r, head);
  }

  lemma HeadInLog(log: seq<byte>, len: nat, head: nat, rs: seq<Rec>)
    requires LogHolds(log, len, head, rs) && 0 < |log|
    ensures head < |log| && (head == 0 <==> rs == [])
  {}

  // ----- the chain is never longer than the log it comes from ------------------------------------

  lemma RecordInEntry(len: nat, link: nat, r: Rec)
    requires RecFits(len, r) && link < POW32
    ensures |RecBytes(len, r)| <= |EntryBytes(len, link, r)|
  {
    RecordShrinks(len, r);
  }

  lemma {:induction false} ChainSnoc(len: nat, rs: seq<Rec>, r: Rec)
    ensures ChainBytes(len, rs + [r]) == ChainBytes(len, rs) + RecBytes(len, r)
  {
    if rs == [] {
      assert ChainBytes(len, [r]) == RecBytes(len, r) + ChainBytes(len, []);
    } else {
      ChainSnoc(len, rs[1..], r);
      assert (rs + [r])[1..] == rs[1..] + [r];
      assert RecBytes(len, rs[0]) + (ChainBytes(len, rs[1..]) + RecBytes(len, r))
          == (RecBytes(len, rs[0]) + ChainBytes(len, rs[1..])) + RecBytes(len, r);
    }
  }

  /** A scratch area of `vchg_siz` bytes is enough for the re-encoded chain of any signal. */
  lemma {:induction false} ChainFits(log: seq<byte>, len: nat, head: nat, rs: seq<Rec>)
    requires LogHolds(log, len, head, rs)
    ensures |ChainBytes(len, rs)| <= |log|
  {
    if rs != [] {
      var r, front := rs[|rs| - 1], rs[..|rs| - 1];
      var link: nat :| LogEntry(log, len, head, r, link) && LogHolds(log[..head], len, link, front);
      ChainFits(log[..head], len, link, front);
      RecordInEntry(len, link, r);
      ChainSnoc(len, front, r);
      assert front + [r] == rs;
    }
  }

  // ----- writing and walking the log -------------------------------------------------------------

  /** fstWriterUint32WithVarint32 and its variable-length variant: the bytes put at the end of the buffer. */
  method MakeEntry(len: nat, link: nat, delta: nat, value: seq<byte>) returns (buf: seq<byte>)
    requires link < POW32
    ensures buf == EntryBytes(len, link, Rec(delta, value))
  {
    var d := WriteVarint(delta);
    if len == 0 {
      var n := WriteVarint(|value|);
      buf := Word32(link) + (d + (n + value));
    } else {
      buf := Word32(link) + (d + value);
    }
  }

  /** The head of a walk: link, delta and value of the entry at `offs`. */
  method ReadEntry(log: seq<byte>, offs: nat, len: nat, ghost r: Rec, ghost link: nat)
    returns (next: nat, delta: nat, value: seq<byte>)
    requires LogEntry(log, len, offs, r, link) && RecFits(len, r)
    ensures next == link && delta == r.delta && value == r.value
  {
    hide Word32, Varint;
    AtConcat(log, offs, Word32(link), Varint(r.delta) + Counted(len, r.value));
    AtConcat(log, offs + 4, Varint(r.delta), Counted(len, r.value));
    Word32Reads(log, offs, link);
    next := ReadWord32(log, offs);
    var wrlen;
    delta, wrlen := GetVarintOf(log, offs + 4, r.delta, POW32);
    var p := offs + 4 + wrlen;
    if len == 0 {
      AtConcat(log, p, Varint(|r.value|), r.value);
      var recordLen;
      recordLen, wrlen := GetVarintOf(log, p, |r.value|, POW32);
      value := log[p + wrlen..p + wrlen + recordLen];
    } else {
      value := log[p..p + len];
    }
  }

  lemma EntryInPrefix(rest: seq<byte>, log: seq<byte>, len: nat, offs: nat, r: Rec, link: nat)
    requires LogEntry(rest, len, offs, r, link) && rest <= log
    ensures LogEntry(log, len, offs, r, link)
  {
    assert [] + rest + log[|rest|..] == log;
    AtExtend([], rest, log[|rest|..], offs, EntryBytes(len, link, r));
  }

  lemma ChainSplit(len: nat, rs: seq<Rec>, k: nat)
    requires 0 < k <= |rs|
    ensures ChainBytes(len, rs[k - 1..]) == RecBytes(len, rs[k - 1]) + ChainBytes(len, rs[k..])
    ensures |ChainBytes(len, rs[..k])| == |ChainBytes(len, rs[..k - 1])| + |RecBytes(len, rs[k - 1])|
    ensures rs[..k][k - 1] == rs[k - 1] && rs[..k][..k - 1] == rs[..k - 1]
  {
    assert rs[k - 1..][1..] == rs[k..];
    assert rs[..k - 1] + [rs[k - 1]] == rs[..k];
    ChainSnoc(len, rs[..k - 1], rs[k - 1]);
  }

  lemma NoBytes(len: nat, rs: seq<Rec>)
    ensures ChainBytes(len, rs[|rs|..]) == [] && rs[..|rs|] == rs && rs[0..] == rs
  {}

  /** The entry the walk is at. */
  lemma LogTop(rest: seq<byte>, len: nat, offs: nat, rs: seq<Rec>) returns (link: nat)
    requires LogHolds(rest, len, offs, rs) && offs != 0
    ensures rs != [] && RecFits(len, rs[|rs| - 1]) && LogEntry(rest, len, offs, rs[|rs| - 1], link)
    ensures offs <= |rest| && LogHolds(rest[..offs], len, link, rs[..|rs| - 1])
  {
    link :| LogEntry(rest, len, offs, rs[|rs| - 1], link) && LogHolds(rest[..offs], len, link, rs[..|rs| - 1]);
  }

  /** The checkpoint: the value of the latest entry, read before the walk. */
  method HeadValue(log: seq<byte>, head: nat, len: nat, ghost rs: seq<Rec>) returns (value: seq<byte>)
    requires head != 0 && LogHolds(log, len, head, rs)
    ensures rs != [] && value == rs[|rs| - 1].value
  {
    ghost var link := LogTop(log, len, head, rs);
    var _, _, v := ReadEntry(log, head, len, rs[|rs| - 1], link);
    value := v;
  }

  /** The inner loop of the flush for one signal: following the links, the records are laid down from
      the last one to the first, so the chain comes out in order. */
  method BuildChain(log: seq<byte>, head: nat, len: nat, ghost rs: seq<Rec>) returns (chain: seq<byte>)
    requires LogHolds(log, len, head, rs)
    ensures chain == ChainBytes(len, rs)
  {
    hide EntryBytes, RecBytes, ChainBytes, RecFits, LogHolds, LogEntry;
    var scratch := new byte[|log|](_ => 0);
    var pnt := |log|;
    var offs := head;
    ghost var k: nat := |rs|;
    ghost var rest := log;
    NoBytes(len, rs);
    ChainFits(log, len, head, rs);
    while offs != 0
      invariant 0 <= k <= |rs| && rest <= log && LogHolds(rest, len, offs, rs[..k])
      invariant pnt + |ChainBytes(len, rs[k..])| == |log| && |ChainBytes(len, rs[..k])| <= pnt
      invariant scratch[pnt..] == ChainBytes(len, rs[k..])
      decreases k
    {
      ghost var link := LogTop(rest, len, offs, rs[..k]);
      ChainSplit(len, rs, k);
      EntryInPrefix(rest, log, len, offs, rs[k - 1], link);
      var next, delta, value := ReadEntry(log, offs, len, rs[k - 1], link);
      pnt := AddRecord(scratch, pnt, len, delta, value, rs[k - 1]);
      rest := rest[..offs];
      offs := next;
      k := k - 1;
    }
    LogEnds(rest, len, rs[..k]);
    chain := scratch[pnt..];
  }

  lemma LogEnds(rest: seq<byte>, len: nat, rs: seq<Rec>)
    requires LogHolds(rest, len, 0, rs)
    ensures rs == []
  {}

  method AddRecord(scratch: array<byte>, pnt: nat, len: nat, delta: nat, value: seq<byte>, ghost r: Rec)
    returns (left: nat)
    requires r == Rec(delta, value) && RecFits(len, r) && |RecBytes(len, r)| <= pnt <= scratch.Length
    modifies scratch
    ensures left + |RecBytes(len, r)| == pnt
    ensures scratch[left..] == RecBytes(len, r) + old(scratch[pnt..])
  {
    hide RecBytes;
    left := RecToLeft(scratch, pnt, len, delta, value);
    assert scratch[pnt..] == old(scratch[pnt..]);
    Join(scratch[..], left, pnt, scratch.Length);
  }
}
