/** The hash table behind dynamic aliasing (JenkinsIns): chains of nodes with hits moved to the front.
    It behaves as a finite map whatever the hash function does. */
module AliasTable {
  import opened Bytes

  /** struct collchain_t */
  class Node {
    const mem: seq<byte>
    const fullhash: nat
    var payload: nat
    var next: Node?

    constructor (mem: seq<byte>, fullhash: nat, next: Node?)
      ensures this.mem == mem && this.fullhash == fullhash && this.next == next && payload == 0
    {
      this.mem, this.fullhash, this.next, payload := mem, fullhash, next, 0;
    }
  }

  /** Following `next` from `head` meets exactly the nodes of `l`. */
  ghost predicate Linked(head: Node?, l: seq<Node>)
    reads l`next
  {
    && head == (if l == [] then null else l[0])
    && forall k | 0 <= k < |l| :: l[k].next == After(l, k)
  }

  ghost function After(l: seq<Node>, k: nat): Node? {
    if k + 1 < |l| then l[k + 1] else null
  }

  ghost predicate DistinctKeys(l: seq<Node>) {
    forall a, b | 0 <= a < b < |l| :: l[a].mem != l[b].mem
  }

  function Front(l: seq<Node>, j: nat): seq<Node>
    requires j < |l|
  {
    [l[j]] + (l[..j] + l[j + 1..])
  }

  lemma FrontElements(l: seq<Node>, j: nat)
    requires j < |l| && DistinctKeys(l)
    ensures DistinctKeys(Front(l, j)) && |Front(l, j)| == |l|
    ensures forall k | 0 <= k < |l| :: Front(l, j)[k] == l[if k == 0 then j else if k <= j then k - 1 else k]
  {}

  /** The walk along one chain; `pchain` lags one node behind. */
  method Walk(head: Node?, key: seq<byte>, hf: nat, ghost l: seq<Node>)
    returns (chain: Node?, pchain: Node?, ghost j: nat)
    requires Linked(head, l) && forall k | 0 <= k < |l| :: l[k].mem == key ==> l[k].fullhash == hf
    ensures chain == null ==> forall k | 0 <= k < |l| :: l[k].mem != key
    ensures chain != null ==> j < |l| && chain == l[j] && chain.mem == key && pchain == l[if j == 0 then 0 else j - 1]
  {
    chain, pchain, j := head, head, 0;
    while chain != null
      invariant j <= |l| && chain == if j < |l| then l[j] else null
      invariant l != [] ==> pchain == l[if j == 0 then 0 else j - 1]
      invariant forall k | 0 <= k < j :: l[k].mem != key
      decreases |l| - j
    {
      assert l[j].next == After(l, j);
      if chain.fullhash == hf && |chain.mem| == |key| && chain.mem == key { return; }
      pchain := chain;
      chain := chain.next;
      j := j + 1;
    }
  }

  /** "move hit to front" */
  method Relink(ar: array<Node?>, h: nat, chain: Node, pchain: Node, ghost l: seq<Node>, ghost j: nat)
    requires h < ar.Length && Linked(ar[h], l) && DistinctKeys(l)
    requires 0 < j < |l| && chain == l[j] && pchain == l[j - 1]
    modifies ar, chain`next, pchain`next
    ensures Linked(ar[h], Front(l, j))
    ensures forall g | 0 <= g < ar.Length && g != h :: ar[g] == old(ar[g])
  {
    FrontElements(l, j);
    pchain.next := chain.next;
    chain.next := ar[h];
    ar[h] := chain;
    forall k | 0 <= k < |l|
      ensures Front(l, j)[k].next == After(Front(l, j), k)
    {
      if k > 0 {
        var i := if k <= j then k - 1 else k;
        assert Front(l, j)[k] == l[i] && l[i].mem != chain.mem;
        assert i != j - 1 ==> l[i].mem != pchain.mem;
        assert old(l[i].next) == After(l, i) && old(l[j].next) == After(l, j);
      }
    }
  }

  class AliasTable {
    const ar: array<Node?>
    const hash: seq<byte> -> nat

    ghost var chains: seq<seq<Node>>
    ghost var nodes: set<Node>
    ghost var index: map<seq<byte>, Node>

    ghost function Slot(key: seq<byte>): (h: nat)
      ensures ar.Length > 0 ==> h < ar.Length
    {
      if ar.Length == 0 then 0 else hash(key) % ar.Length
    }

    /** The nodes on the chain of slot `h`. */
    ghost predicate Keyed(h: nat, l: seq<Node>)
      reads this`nodes
    {
      DistinctKeys(l) && forall k | 0 <= k < |l| ::
        l[k] in nodes && l[k].fullhash == hash(l[k].mem) && Slot(l[k].mem) == h
    }

    /** Every node is the one for its key, and is on its chain. */
    ghost predicate Indexed(n: Node)
      reads this`index, this`chains
    {
      && n.mem in index && index[n.mem] == n
      && Slot(n.mem) < |chains| && n in chains[Slot(n.mem)]
    }

    ghost predicate Valid()
      reads this, ar, nodes`next
    {
      && |chains| == ar.Length > 0
      && (forall h | 0 <= h < ar.Length :: Keyed(h, chains[h]))
      && (forall h | 0 <= h < ar.Length :: Linked(ar[h], chains[h]))
      && (forall n | n in nodes :: Indexed(n))
      && (forall key | key in index :: index[key] in nodes && index[key].mem == key)
    }

    ghost function Contents(): (m: map<seq<byte>, nat>)
      requires Valid()
      reads this, ar, nodes`next, nodes`payload
    {
      map key | key in index :: index[key].payload
    }

    /** `calloc`: all slots are empty. */
    constructor (hashmask: nat, hash: seq<byte> -> nat)
      ensures Valid() && Contents() == map[] && nodes == {} && fresh(ar) && this.hash == hash
    {
      this.hash := hash;
      ar := new Node?[hashmask + 1](_ => null);
      chains := seq(hashmask + 1, _ => []);
      nodes, index := {}, map[];
    }

    method MoveToFront(h: nat, chain: Node, pchain: Node, ghost j: nat)
      requires Valid() && h < ar.Length && 0 < j < |chains[h]| && chain == chains[h][j] && pchain == chains[h][j - 1]
      modifies this`chains, ar, nodes`next
      ensures Valid()
    {
      hide Linked, Front, DistinctKeys;
      ghost var l := chains[h];
      assert Keyed(h, l);
      OthersApart(h);
      Relink(ar, h, chain, pchain, l, j);
      FrontElements(l, j);
      chains := chains[h := Front(l, j)];
      forall g | 0 <= g < ar.Length && g != h ensures Linked(ar[g], chains[g]) {
        assert old(Linked(ar[g], chains[g]));
      }
      forall n | n in nodes ensures Indexed(n) {
        assert old(Indexed(n));
        if Slot(n.mem) == h { StillThere(l, j, n); }
      }
    }

    /** A node is on the chain of its own slot only. */
    lemma OthersApart(h: nat)
      requires Valid() && h < ar.Length
      ensures forall g, k, m | 0 <= g < ar.Length && g != h && 0 <= k < |chains[h]| && 0 <= m < |chains[g]| ::
        chains[g][m] != chains[h][k]
    {
      forall g, k, m | 0 <= g < ar.Length && g != h && 0 <= k < |chains[h]| && 0 <= m < |chains[g]|
        ensures chains[g][m] != chains[h][k]
      {
        assert Keyed(g, chains[g]) && Keyed(h, chains[h]);
      }
    }

    method Attach(key: seq<byte>, hf: nat, h: nat) returns (chain: Node)
      requires Valid() && h < ar.Length
      modifies ar
      ensures fresh(chain) && chain.mem == key && chain.fullhash == hf && chain.payload == 0
      ensures Linked(ar[h], [chain] + chains[h])
      ensures forall g | 0 <= g < ar.Length && g != h :: Linked(ar[g], chains[g])
    {
      hide Linked;
      chain := new Node(key, hf, ar[h]);
      assert Linked(ar[h], chains[h]);
      PrependLinked(chain, chain, chains[h]);
      ar[h] := chain;
      forall g | 0 <= g < ar.Length && g != h ensures Linked(ar[g], chains[g]) {
        assert old(Linked(ar[g], chains[g]));
      }
    }

    /** A miss: a new node goes to the front of its chain. */
    method Prepend(key: seq<byte>, hf: nat, h: nat) returns (chain: Node)
      requires Valid() && hf == hash(key) && h == Slot(key) && key !in index
      modifies this`chains, this`nodes, this`index, ar
      ensures Valid() && fresh(chain) && nodes == old(nodes) + {chain}
      ensures index == old(index)[key := chain] && chain.payload == 0
    {
      hide DistinctKeys, Linked;
      ghost var l := chains[h];
      KeysKnown(h);
      chain := Attach(key, hf, h);
      PrependElements(l, chain);
      nodes, index := nodes + {chain}, index[key := chain];
      chains := chains[h := [chain] + l];
      forall g | 0 <= g < ar.Length ensures Keyed(g, chains[g]) {
        assert old(Keyed(g, chains[g]));
      }
      forall n | n in nodes ensures Indexed(n) {
        if n == chain { assert chains[h][0] == chain; } else { assert old(Indexed(n)); OnLonger(chain, l, n); }
      }
    }

    lemma KeysKnown(h: nat)
      requires Valid() && h < ar.Length
      ensures forall k | 0 <= k < |chains[h]| :: chains[h][k].mem in index
    {
      assert Keyed(h, chains[h]);
      forall k | 0 <= k < |chains[h]| ensures chains[h][k].mem in index { assert Indexed(chains[h][k]); }
    }

    /** JenkinsIns: the node for the key, at the front of its chain, made with payload 0 if there was none. */
    method Insert(key: seq<byte>) returns (chain: Node)
      requires Valid()
      modifies this`chains, this`nodes, this`index, ar, nodes`next
      ensures Valid() && chain in nodes && chain.mem == key && fresh(nodes - old(nodes)) && old(nodes) <= nodes
      ensures if key in old(index) then index == old(index) && chain == index[key]
              else index == old(index)[key := chain] && chain.payload == 0
    {
      hide Linked, DistinctKeys, Front;
      var hf := hash(key);
      var h := hf % ar.Length;
      assert Linked(ar[h], chains[h]) && Keyed(h, chains[h]);
      var pchain: Node?, found: Node?;
      ghost var j;
      found, pchain, j := Walk(ar[h], key, hf, chains[h]);
      if found != null {
        chain := found;
        assert Indexed(chain);
        if pchain != chain { MoveToFront(h, chain, pchain, j); }
      } else {
        NotThere(key);
        chain := Prepend(key, hf, h);
      }
    }

    /** How the flush uses it: the payload found, or 0 after `id` has been stored under the key. */
    method Intern(key: seq<byte>, id: nat) returns (pvi: nat)
      requires Valid() && forall k | k in Contents() :: Contents()[k] > 0
      modifies this`chains, this`nodes, this`index, ar, nodes
      ensures Valid() && fresh(nodes - old(nodes))
      ensures pvi == if key in old(Contents()) then old(Contents())[key] else 0
      ensures Contents() == if key in old(Contents()) then old(Contents()) else old(Contents())[key := id]
    {
      hide Linked, DistinctKeys, Keyed, Indexed;
      ghost var was := Contents();
      var chain := Insert(key);
      if chain.payload != 0 {
        pvi := chain.payload;
      } else {
        chain.payload := id;
        pvi := 0;
      }
      forall k | k in index ensures Contents()[k] == if k in was then was[k] else id {
        assert index[k].mem == k;
      }
    }

    lemma OnChain(n: Node)
      requires Valid() && n in nodes
      ensures n in chains[Slot(n.mem)]
    {
      assert Indexed(n);
    }

    lemma NotThere(key: seq<byte>)
      requires Valid() && forall k | 0 <= k < |chains[Slot(key)]| :: chains[Slot(key)][k].mem != key
      ensures key !in index
    {
      if key in index { OnChain(index[key]); }
    }
  }

  lemma StillThere(l: seq<Node>, j: nat, n: Node)
    requires j < |l| && DistinctKeys(l) && n in l
    ensures n in Front(l, j)
  {
    var k :| 0 <= k < |l| && l[k] == n;
    FrontElements(l, j);
    var i := if k == j then 0 else if k < j then k + 1 else k;
    assert Front(l, j)[i] == l[k];
  }

  lemma OnLonger(n: Node, l: seq<Node>, m: Node)
    ensures m in l ==> m in [n] + l
  {}

  lemma PrependLinked(head: Node?, n: Node, l: seq<Node>)
    requires Linked(n.next, l) && head == n
    ensures Linked(head, [n] + l)
  {
    forall k | 0 <= k < |l| + 1 ensures ([n] + l)[k].next == After([n] + l, k) {
      if k > 0 { assert ([n] + l)[k] == l[k - 1] && l[k - 1].next == After(l, k - 1); }
    }
  }

  lemma PrependElements(l: seq<Node>, n: Node)
    requires DistinctKeys(l) && forall k | 0 <= k < |l| :: l[k].mem != n.mem
    ensures DistinctKeys([n] + l)
  {}
}
