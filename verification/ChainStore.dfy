/** The flush's loop over the handles: each signal's chain is built, packed, looked up among the chains
    stored before, and either written out or replaced by a reference to its twin. */
module ChainStore {
  import opened Bytes
  import opened Leb128
  import opened ChainCodec
  import opened ValueLog
  import opened BlockIndex
  import opened Frame
  import opened Packing
  import Lz4Compress
  import Table = AliasTable

  /** What stands in the alias table for a signal: the bytes that would be written, and whether packed. */
  datatype Key = Key(bytes: seq<byte>, packed: bool)

  /** A chain in the file: the unpacked length, or 0 for a chain that is not packed, and the bytes. */
  function StoredBytes(text: seq<byte>, key: Key): (s: seq<byte>)
    ensures |s| >= 1
  {
    Varint(if key.packed then |text| else 0) + key.bytes
  }

  ghost predicate EntryHolds(c: Codecs, text: seq<byte>, es: seq<Entry>, ks: seq<Key>, data: seq<byte>, k: nat)
    requires k < |es| == |ks|
  {
    if es[k].Zero? then text == []
    else
      && text != [] && Stores(c, text, ks[k].bytes, ks[k].packed)
      && (es[k].Chain? ==>
            1 <= es[k].off && es[k].len == |StoredBytes(text, ks[k])|
            && At(data, es[k].off - 1, StoredBytes(text, ks[k])))
      && (es[k].Alias? ==> 1 <= es[k].to <= k && es[es[k].to - 1].Chain? && ks[es[k].to - 1].bytes == ks[k].bytes)
  }

  /** The data section of a block, with the entries that point into it. */
  ghost predicate DataHolds(c: Codecs, texts: seq<seq<byte>>, es: seq<Entry>, ks: seq<Key>, data: seq<byte>) {
    && |es| == |ks| <= |texts| && Wf(es) && End(es) == 1 + |data|
    && forall k | 0 <= k < |es| :: EntryHolds(c, texts[k], es, ks, data, k)
  }

  lemma EntryKept(c: Codecs, text: seq<byte>, es: seq<Entry>, ks: seq<Key>, data: seq<byte>, k: nat,
                  e: Entry, key: Key, more: seq<byte>)
    requires k < |es| == |ks| && EntryHolds(c, text, es, ks, data, k)
    ensures EntryHolds(c, text, es + [e], ks + [key], data + more, k)
  {
    hide StoredBytes, Stores;
    if es[k].Chain? {
      AtExtend([], data, more, es[k].off - 1, StoredBytes(text, ks[k]));
      assert [] + data + more == data + more;
    }
  }

  lemma DataGrows(c: Codecs, texts: seq<seq<byte>>, es: seq<Entry>, ks: seq<Key>, data: seq<byte>,
                  e: Entry, key: Key, more: seq<byte>)
    requires DataHolds(c, texts, es, ks, data) && |es| < |texts|
    requires e.Zero? ==> texts[|es|] == [] && more == []
    requires !e.Zero? ==> texts[|es|] != [] && Stores(c, texts[|es|], key.bytes, key.packed)
    requires e.Chain? ==> e == Chain(1 + |data|, |more|) && more == StoredBytes(texts[|es|], key)
    requires e.Alias? ==> 1 <= e.to <= |es| && es[e.to - 1].Chain? && ks[e.to - 1].bytes == key.bytes && more == []
    ensures DataHolds(c, texts, es + [e], ks + [key], data + more)
  {
    hide StoredBytes, Stores, EntryHolds;
    assert (es + [e])[..|es|] == es;
    forall k | 0 <= k < |es| ensures EntryHolds(c, texts[k], es + [e], ks + [key], data + more, k) {
      EntryKept(c, texts[k], es, ks, data, k, e, key, more);
    }
    NewEntry(c, texts[|es|], es, ks, data, e, key, more);
  }

  lemma NewEntry(c: Codecs, text: seq<byte>, es: seq<Entry>, ks: seq<Key>, data: seq<byte>, e: Entry, key: Key,
                 more: seq<byte>)
    requires |es| == |ks|
    requires e.Zero? ==> text == [] && more == []
    requires !e.Zero? ==> text != [] && Stores(c, text, key.bytes, key.packed)
    requires e.Chain? ==> e == Chain(1 + |data|, |more|) && more == StoredBytes(text, key)
    requires e.Alias? ==> 1 <= e.to <= |es| && es[e.to - 1].Chain? && ks[e.to - 1].bytes == key.bytes
    ensures EntryHolds(c, text, es + [e], ks + [key], data + more, |es|)
  {
    hide StoredBytes, Stores;
  }

  /** The alias table knows exactly the chains that were written, by the handle they belong to. */
  ghost predicate KnownKeys(known: map<seq<byte>, nat>, es: seq<Entry>, ks: seq<Key>) {
    && |es| == |ks|
    && (forall key | key in known ::
          1 <= known[key] <= |es| && es[known[key] - 1].Chain? && ks[known[key] - 1].bytes == key)
    && (forall k | 0 <= k < |es| :: KnownAt(known, es[k], ks[k], k + 1))
  }

  ghost predicate KnownAt(known: map<seq<byte>, nat>, e: Entry, key: Key, id: nat) {
    e.Chain? ==> key.bytes in known && known[key.bytes] == id
  }

  /** No two handles have bytes of their own under the same key. */
  ghost predicate Once(es: seq<Entry>, ks: seq<Key>) {
    |es| == |ks| && forall j, k | 0 <= j < k < |es| && es[j].Chain? && es[k].Chain? :: ks[j].bytes != ks[k].bytes
  }

  lemma KnownOnce(known: map<seq<byte>, nat>, es: seq<Entry>, ks: seq<Key>)
    requires KnownKeys(known, es, ks)
    ensures Once(es, ks)
  {
    forall j, k | 0 <= j < k < |es| && es[j].Chain? && es[k].Chain? ensures ks[j].bytes != ks[k].bytes {
      assert KnownAt(known, es[j], ks[j], j + 1) && KnownAt(known, es[k], ks[k], k + 1);
    }
  }

  /** A chain no longer than its signal's share of the block may need: itself and a length. */
  function ChainRoom(texts: seq<seq<byte>>): nat {
    if texts == [] then 0
    else ChainRoom(texts[..|texts| - 1]) + if texts[|texts| - 1] == [] then 0 else |texts[|texts| - 1]| + 5
  }

  lemma StoredSize(c: Codecs, text: seq<byte>, key: Key)
    requires Stores(c, text, key.bytes, key.packed) && |text| < POW32
    ensures |StoredBytes(text, key)| <= |text| + 5
  {
    hide Unpacks;
    VarintLength32(|text|);
    VarintLength32(0);
  }

  lemma {:induction false} ChainRoomGrows(texts: seq<seq<byte>>, n: nat)
    requires n <= |texts|
    ensures ChainRoom(texts[..n]) <= ChainRoom(texts)
  {
    if n < |texts| {
      ChainRoomGrows(texts[..|texts| - 1], n);
      assert texts[..|texts| - 1][..n] == texts[..n];
    } else {
      assert texts[..n] == texts;
    }
  }

  lemma ChainRoomStep(texts: seq<seq<byte>>, i: nat)
    requires i < |texts|
    ensures ChainRoom(texts[..i + 1]) == ChainRoom(texts[..i]) + if texts[i] == [] then 0 else |texts[i]| + 5
  {
    assert texts[..i + 1][..i] == texts[..i];
  }

  // ----- the loop --------------------------------------------------------------------------------

  /** One signal with changes: its word becomes an offset or a negated handle. */
  method StoreOne(c: Codecs, table: Table.AliasTable, text: seq<byte>, i: nat, fpos: nat,
                  ghost texts: seq<seq<byte>>, ghost es: seq<Entry>, ghost ks: seq<Key>, ghost data: seq<byte>)
    returns (slot: int, more: seq<byte>, ghost e: Entry, ghost key: Key)
    requires Usable(c) && table.Valid() && KnownKeys(table.Contents(), es, ks)
    requires |es| == i < |texts| && text == texts[i] && 0 < |text| <= Lz4Compress.MAX_INPUT_SIZE
    requires DataHolds(c, texts, es, ks, data) && fpos == 1 + |data|
    modifies table`chains, table`nodes, table`index, table.ar, table.nodes
    ensures table.Valid() && fresh(table.nodes - old(table.nodes)) && KnownKeys(table.Contents(), es + [e], ks + [key])
    ensures slot == Slot(e) && !e.Zero? && DataHolds(c, texts, es + [e], ks + [key], data + more)
    ensures |more| <= |text| + 5
  {
    hide Wf, End, Usable, Stores, EntryHolds, Table.AliasTable.Valid, Table.AliasTable.Contents, KnownKeys;
    var bytes, packed, _ := Pack(c, text);
    key := Key(bytes, packed);
    StoredSize(c, text, key);
    ghost var known := table.Contents();
    PayloadsPositive(known, es, ks);
    var pvi := table.Intern(bytes, i + 1);
    if pvi != 0 {
      slot, more := POW32 - pvi, [];
      e := Alias(pvi);
    } else {
      slot := fpos;
      var v := WriteVarint(if packed then |text| else 0);
      more := v + bytes;
      e := Chain(fpos, |more|);
    }
    KnownGrows(known, table.Contents(), es, ks, e, key, i + 1);
    DataGrows(c, texts, es, ks, data, e, key, more);
  }

  lemma PayloadsPositive(known: map<seq<byte>, nat>, es: seq<Entry>, ks: seq<Key>)
    requires KnownKeys(known, es, ks)
    ensures forall k | k in known :: known[k] > 0
  {}

  lemma KnownGrows(known: map<seq<byte>, nat>, now: map<seq<byte>, nat>, es: seq<Entry>, ks: seq<Key>, e: Entry,
                   key: Key, id: nat)
    requires KnownKeys(known, es, ks) && id == |es| + 1
    requires if key.bytes in known then now == known && e.Alias? else now == known[key.bytes := id] && e.Chain?
    ensures KnownKeys(now, es + [e], ks + [key])
  {
    var all, keys := es + [e], ks + [key];
    forall k | 0 <= k < |all| ensures KnownAt(now, all[k], keys[k], k + 1) {
      if k < |es| { assert KnownAt(known, es[k], ks[k], k + 1); }
    }
    forall b | b in now ensures 1 <= now[b] <= |all| && all[now[b] - 1].Chain? && keys[now[b] - 1].bytes == b {
      if b in known { assert now[b] == known[b]; }
    }
  }

  ghost function Texts(lens: seq<nat>, recs: seq<seq<Rec>>): (ts: seq<seq<byte>>)
    requires |recs| == |lens|
    ensures |ts| == |lens|
  {
    seq(|lens|, x requires 0 <= x < |lens| => ChainBytes(lens[x], recs[x]))
  }

  lemma NoText(len: nat, rs: seq<Rec>)
    ensures ChainBytes(len, rs) == [] <==> rs == []
  {}

  /** The values after the changes of the block, for the first `n` signals. */
  ghost function Checked(lens: seq<nat>, vals: seq<seq<byte>>, recs: seq<seq<Rec>>, n: nat): (r: seq<seq<byte>>)
    requires |vals| == |lens| == |recs|
    ensures |r| == |lens|
  {
    seq(|lens|, x requires 0 <= x < |lens| =>
      if x < n && lens[x] > 0 && recs[x] != [] then recs[x][|recs[x]| - 1].value else vals[x])
  }

  lemma CheckedStep(lens: seq<nat>, vals: seq<seq<byte>>, recs: seq<seq<Rec>>, n: nat)
    requires |vals| == |lens| == |recs| && n < |lens|
    ensures Checked(lens, vals, recs, n + 1) ==
      if lens[n] > 0 && recs[n] != [] then Checked(lens, vals, recs, n)[n := recs[n][|recs[n]| - 1].value]
      else Checked(lens, vals, recs, n)
    ensures Checked(lens, vals, recs, 0) == vals
  {}

  function TotalBytes(texts: seq<seq<byte>>): nat {
    if texts == [] then 0 else TotalBytes(texts[..|texts| - 1]) + |texts[|texts| - 1]|
  }

  lemma TotalBytesStep(texts: seq<seq<byte>>, i: nat)
    requires i < |texts|
    ensures TotalBytes(texts[..i + 1]) == TotalBytes(texts[..i]) + |texts[i]|
  {
    assert texts[..i + 1][..i] == texts[..i];
  }

  /** "checkpoint variable" */
  method Checkpoint(curval: seq<byte>, offs: seq<nat>, vchg: seq<byte>, head: nat, len: nat, i: nat,
                    ghost lens: seq<nat>, ghost vals: seq<seq<byte>>, ghost recs: seq<seq<Rec>>)
    returns (curval': seq<byte>)
    requires |vals| == |lens| == |recs| && i < |lens| && len == lens[i] && head != 0
    requires LogHolds(vchg, len, head, recs[i]) && RecsFit(len, recs[i])
    requires ValuesFit(lens, Checked(lens, vals, recs, i)) && curval == FrameBytes(Checked(lens, vals, recs, i))
    requires |offs| == |lens| && offs[i] == Offset(lens, i)
    ensures ValuesFit(lens, Checked(lens, vals, recs, i + 1)) && curval' == FrameBytes(Checked(lens, vals, recs, i + 1))
  {
    hide FrameBytes, LogHolds, Checked, Offset, LogEntry, EntryBytes;
    CheckedStep(lens, vals, recs, i);
    curval' := curval;
    if len >= 1 {
      var value := HeadValue(vchg, head, len, recs[i]);
      assert RecFits(len, recs[i][|recs[i]| - 1]);
      curval' := Store(curval, offs, i, value, lens, Checked(lens, vals, recs, i));
    }
  }

  /** Each signal's entries, from its head back. */
  ghost predicate Logs(vchg: seq<byte>, lens: seq<nat>, heads: seq<int>, recs: seq<seq<Rec>>) {
    |heads| == |recs| == |lens| && forall x | 0 <= x < |lens| :: LogsAt(vchg, lens[x], heads[x], recs[x])
  }

  ghost predicate LogsAt(vchg: seq<byte>, len: nat, head: int, rs: seq<Rec>) {
    head >= 0 && LogHolds(vchg, len, head, rs) && RecsFit(len, rs)
  }

  /** How far the loop has come. */
  ghost predicate Progress(c: Codecs, lens: seq<nat>, recs: seq<seq<Rec>>, vals: seq<seq<byte>>, slots: seq<int>,
                           es: seq<Entry>, ks: seq<Key>, data: seq<byte>, memreq: nat, curval: seq<byte>)
  {
    && |recs| == |vals| == |lens| >= |es| && SlotsOf(slots, es)
    && DataHolds(c, Texts(lens, recs), es, ks, data)
    && memreq == TotalBytes(Texts(lens, recs)[..|es|]) && |data| <= ChainRoom(Texts(lens, recs)[..|es|])
    && curval == FrameBytes(Checked(lens, vals, recs, |es|)) && ValuesFit(lens, Checked(lens, vals, recs, |es|))
  }

  lemma ProgressStart(c: Codecs, lens: seq<nat>, recs: seq<seq<Rec>>, vals: seq<seq<byte>>)
    requires |recs| == |lens| && ValuesFit(lens, vals)
    ensures Progress(c, lens, recs, vals, [], [], [], [], 0, FrameBytes(vals))
  {
    hide FrameBytes;
    assert Checked(lens, vals, recs, 0) == vals;
    assert Texts(lens, recs)[..0] == [];
  }

  lemma ProgressZero(c: Codecs, lens: seq<nat>, recs: seq<seq<Rec>>, vals: seq<seq<byte>>, slots: seq<int>,
                     es: seq<Entry>, ks: seq<Key>, data: seq<byte>, memreq: nat, curval: seq<byte>)
    requires Progress(c, lens, recs, vals, slots, es, ks, data, memreq, curval)
    requires |es| < |lens| && recs[|es|] == []
    ensures Progress(c, lens, recs, vals, slots + [0], es + [Zero], ks + [Key([], false)], data, memreq, curval)
  {
    hide FrameBytes, DataHolds, ChainBytes, Checked, ChainRoom, TotalBytes;
    var i, texts := |es|, Texts(lens, recs);
    NoText(lens[i], recs[i]);
    assert data + [] == data;
    DataGrows(c, texts, es, ks, data, Zero, Key([], false), []);
    CheckedStep(lens, vals, recs, i);
    TotalBytesStep(texts, i);
    ChainRoomStep(texts, i);
  }

  lemma ProgressOne(c: Codecs, lens: seq<nat>, recs: seq<seq<Rec>>, vals: seq<seq<byte>>, slots: seq<int>,
                    es: seq<Entry>, ks: seq<Key>, data: seq<byte>, memreq: nat, curval: seq<byte>,
                    e: Entry, key: Key, more: seq<byte>, text: seq<byte>, curval': seq<byte>)
    requires Progress(c, lens, recs, vals, slots, es, ks, data, memreq, curval)
    requires |es| < |lens| && text == ChainBytes(lens[|es|], recs[|es|]) != [] && |more| <= |text| + 5
    requires DataHolds(c, Texts(lens, recs), es + [e], ks + [key], data + more)
    requires curval' == FrameBytes(Checked(lens, vals, recs, |es| + 1))
    requires ValuesFit(lens, Checked(lens, vals, recs, |es| + 1))
    ensures Progress(c, lens, recs, vals, slots + [Slot(e)], es + [e], ks + [key], data + more, memreq + |text|,
                     curval')
  {
    hide FrameBytes, DataHolds, ChainBytes, Checked, ChainRoom, TotalBytes, Slot;
    TotalBytesStep(Texts(lens, recs), |es|);
    ChainRoomStep(Texts(lens, recs), |es|);
  }

  lemma ProgressFacts(c: Codecs, lens: seq<nat>, recs: seq<seq<Rec>>, vals: seq<seq<byte>>, slots: seq<int>,
                      es: seq<Entry>, ks: seq<Key>, data: seq<byte>, memreq: nat, curval: seq<byte>)
    requires Progress(c, lens, recs, vals, slots, es, ks, data, memreq, curval)
    ensures |recs| == |vals| == |lens| >= |es| == |slots| && DataHolds(c, Texts(lens, recs), es, ks, data)
    ensures curval == FrameBytes(Checked(lens, vals, recs, |es|)) && ValuesFit(lens, Checked(lens, vals, recs, |es|))
    ensures |data| <= ChainRoom(Texts(lens, recs)[..|es|])
  {}

  /** One turn of the loop for a handle with changes. */
  method StoreHandle(c: Codecs, table: Table.AliasTable, lens: seq<nat>, offs: seq<nat>, vchg: seq<byte>, i: nat,
                     offsHead: nat, data: seq<byte>, memreq: nat, curval: seq<byte>,
                     ghost recs: seq<seq<Rec>>, ghost vals: seq<seq<byte>>, ghost slots: seq<int>,
                     ghost es: seq<Entry>, ghost ks: seq<Key>)
    returns (slot: int, data': seq<byte>, memreq': nat, curval': seq<byte>, ghost e: Entry, ghost key: Key)
    requires Usable(c) && table.Valid() && KnownKeys(table.Contents(), es, ks)
    requires Progress(c, lens, recs, vals, slots, es, ks, data, memreq, curval) && |es| == i < |lens|
    requires |vchg| <= Lz4Compress.MAX_INPUT_SIZE && offsHead != 0 && LogsAt(vchg, lens[i], offsHead, recs[i])
    requires |offs| == |lens| && offs[i] == Offset(lens, i)
    modifies table`chains, table`nodes, table`index, table.ar, table.nodes
    ensures table.Valid() && fresh(table.nodes - old(table.nodes)) && KnownKeys(table.Contents(), es + [e], ks + [key])
    ensures slot == Slot(e)
    ensures Progress(c, lens, recs, vals, slots + [slot], es + [e], ks + [key], data', memreq', curval')
  {
    hide Usable, Table.AliasTable.Valid, Table.AliasTable.Contents, KnownKeys, Progress, DataHolds, FrameBytes,
         ValuesFit, Checked, LogHolds, ChainBytes, Slot;
    ProgressFacts(c, lens, recs, vals, slots, es, ks, data, memreq, curval);
    curval' := Checkpoint(curval, offs, vchg, offsHead, lens[i], i, lens, vals, recs);
    HeadKnown(vchg, lens[i], offsHead, recs[i]);
    var text := BuildChain(vchg, offsHead, lens[i], recs[i]);
    DataEnds(c, Texts(lens, recs), es, ks, data);
    var more;
    slot, more, e, key := StoreOne(c, table, text, i, 1 + |data|, Texts(lens, recs), es, ks, data);
    ProgressOne(c, lens, recs, vals, slots, es, ks, data, memreq, curval, e, key, more, text, curval');
    data', memreq' := data + more, memreq + |text|;
  }

  lemma HeadKnown(vchg: seq<byte>, len: nat, head: nat, rs: seq<Rec>)
    requires LogHolds(vchg, len, head, rs) && head != 0
    ensures rs != [] && ChainBytes(len, rs) != [] && |ChainBytes(len, rs)| <= |vchg|
  {
    NoText(len, rs);
    ChainFits(vchg, len, head, rs);
  }

  lemma DataEnds(c: Codecs, texts: seq<seq<byte>>, es: seq<Entry>, ks: seq<Key>, data: seq<byte>)
    requires DataHolds(c, texts, es, ks, data)
    ensures |es| == |ks| <= |texts| && Wf(es) && End(es) == 1 + |data|
  {}

  /** The loop. Afterwards the words of `head` are what the index loop reads. */
  method StoreChains(c: Codecs, aliasHash: seq<byte> -> nat, lens: seq<nat>, offs: seq<nat>, vchg: seq<byte>,
                     head: array<int>, curval: seq<byte>, ghost recs: seq<seq<Rec>>, ghost vals: seq<seq<byte>>)
    returns (data: seq<byte>, memreq: nat, curval': seq<byte>, ghost es: seq<Entry>, ghost ks: seq<Key>)
    requires Usable(c) && |vchg| <= Lz4Compress.MAX_INPUT_SIZE
    requires head.Length == |lens| && Logs(vchg, lens, head[..], recs)
    requires ValuesFit(lens, vals) && curval == FrameBytes(vals)
    requires |offs| == |lens| && forall x | 0 <= x < |lens| :: offs[x] == Offset(lens, x)
    modifies head
    ensures |es| == |lens| && Progress(c, lens, recs, vals, head[..], es, ks, data, memreq, curval') && Once(es, ks)
  {
    hide Usable, Table.AliasTable.Contents, Progress, FrameBytes, ValuesFit, LogsAt, Offset, KnownKeys;
    var table := new Table.AliasTable(|lens|, aliasHash);
    NothingKnown(table.Contents());
    data, memreq, curval' := [], 0, curval;
    es, ks := [], [];
    ProgressStart(c, lens, recs, vals);
    ghost var heads := head[..];
    for i := 0 to |lens|
      invariant table.Valid() && fresh(table) && fresh(table.ar) && fresh(table.nodes)
      invariant |es| == i && KnownKeys(table.Contents(), es, ks)
      invariant Progress(c, lens, recs, vals, head[..i], es, ks, data, memreq, curval')
      invariant head[i..] == heads[i..]
    {
      assert head[i] == head[i..][0] == heads[i];
      assert LogsAt(vchg, lens[i], heads[i], recs[i]);
      ghost var slots := head[..i];
      LogsHead(vchg, lens[i], heads[i], recs[i]);
      if head[i] != 0 {
        var slot;
        ghost var e, key;
        slot, data, memreq, curval', e, key :=
          StoreHandle(c, table, lens, offs, vchg, i, head[i], data, memreq, curval', recs, vals, slots, es, ks);
        head[i] := slot;
        es, ks := es + [e], ks + [key];
      } else {
        ProgressZero(c, lens, recs, vals, slots, es, ks, data, memreq, curval');
        KnownKept(table.Contents(), es, ks);
        es, ks := es + [Zero], ks + [Key([], false)];
      }
      assert head[..i + 1] == slots + [head[i]];
      assert head[i + 1..] == heads[i + 1..];
    }
    assert head[..|lens|] == head[..];
    KnownOnce(table.Contents(), es, ks);
  }

  lemma NothingKnown(known: map<seq<byte>, nat>)
    requires known == map[]
    ensures KnownKeys(known, [], [])
  {}

  lemma KnownKept(known: map<seq<byte>, nat>, es: seq<Entry>, ks: seq<Key>)
    requires KnownKeys(known, es, ks)
    ensures KnownKeys(known, es + [Zero], ks + [Key([], false)])
  {
    var all, keys := es + [Zero], ks + [Key([], false)];
    forall k | 0 <= k < |all| ensures KnownAt(known, all[k], keys[k], k + 1) {
      if k < |es| { assert KnownAt(known, es[k], ks[k], k + 1); }
    }
  }

  lemma LogsHead(vchg: seq<byte>, len: nat, head: int, rs: seq<Rec>)
    requires LogsAt(vchg, len, head, rs)
    ensures head >= 0 && (head == 0 <==> rs == [])
  {}
}
