/** The intrusive lists of fstReaderIterBlocks2: `tc_head[t]` heads the list of signals whose next
    change is at time index `t`, linked through `scatterptr`; links are signal numbers plus one. */
module Buckets {
  import opened Bytes

  /** The link to the top of a stack of signals. */
  function Link(stack: seq<nat>): nat {
    if stack == [] then 0 else stack[|stack| - 1] + 1
  }

  /** `home` tells where each signal is: in no list, or once, in list `t` at position `j`. */
  ghost predicate Filed(stacks: seq<seq<nat>>, home: seq<Option<(nat, nat)>>) {
    && (forall t, j | 0 <= t < |stacks| && 0 <= j < |stacks[t]| :: InPlace(stacks[t][j], t, j, home))
    && (forall x | 0 <= x < |home| && home[x].Some? :: Placed(stacks, home[x].value, x))
  }

  ghost predicate InPlace(x: nat, t: nat, j: nat, home: seq<Option<(nat, nat)>>) {
    x < |home| && home[x] == Some((t, j))
  }

  ghost predicate Placed(stacks: seq<seq<nat>>, at: (nat, nat), x: nat) {
    at.0 < |stacks| && at.1 < |stacks[at.0]| && stacks[at.0][at.1] == x
  }

  /** The link a filed signal must hold: to the one below it. */
  ghost function LinkBelow(stacks: seq<seq<nat>>, home: seq<Option<(nat, nat)>>, x: nat): nat
    requires Filed(stacks, home) && x < |home| && home[x].Some?
  {
    Link(stacks[home[x].value.0][..home[x].value.1])
  }

  lemma FiledPush(stacks: seq<seq<nat>>, home: seq<Option<(nat, nat)>>, x: nat, t: nat)
    requires Filed(stacks, home) && x < |home| && home[x] == None && t < |stacks|
    ensures var stacks', home' := stacks[t := stacks[t] + [x]], home[x := Some((t, |stacks[t]|))];
            && Filed(stacks', home') && LinkBelow(stacks', home', x) == Link(stacks[t])
            && (forall y | 0 <= y < |home| && home[y].Some? ::
                  LinkBelow(stacks', home', y) == LinkBelow(stacks, home, y))
  {
    var stacks', home' := stacks[t := stacks[t] + [x]], home[x := Some((t, |stacks[t]|))];
    forall s, j | 0 <= s < |stacks'| && 0 <= j < |stacks'[s]| ensures InPlace(stacks'[s][j], s, j, home') {
      if s != t || j < |stacks[t]| { assert InPlace(stacks[s][j], s, j, home); }
    }
    assert stacks'[t][..|stacks[t]|] == stacks[t];
    forall y | 0 <= y < |home| && home[y].Some?
      ensures Placed(stacks', home'[y].value, y) && y != x
      ensures stacks'[home[y].value.0][..home[y].value.1] == stacks[home[y].value.0][..home[y].value.1]
    {
      assert Placed(stacks, home[y].value, y);
    }
  }

  lemma FiledPop(stacks: seq<seq<nat>>, home: seq<Option<(nat, nat)>>, t: nat)
    requires Filed(stacks, home) && t < |stacks| && stacks[t] != []
    ensures var n := |stacks[t]| - 1;
            var x := stacks[t][n];
            && x < |home| && home[x] == Some((t, n)) && LinkBelow(stacks, home, x) == Link(stacks[t][..n])
            && var stacks', home' := stacks[t := stacks[t][..n]], home[x := None];
            && Filed(stacks', home')
            && (forall y | 0 <= y < |home| && home'[y].Some? ::
                  LinkBelow(stacks', home', y) == LinkBelow(stacks, home, y))
  {
    var n := |stacks[t]| - 1;
    var x := stacks[t][n];
    assert InPlace(x, t, n, home);
    var stacks', home' := stacks[t := stacks[t][..n]], home[x := None];
    forall s, j | 0 <= s < |stacks'| && 0 <= j < |stacks'[s]| ensures InPlace(stacks'[s][j], s, j, home') {
      assert InPlace(stacks[s][j], s, j, home);
    }
    forall y | 0 <= y < |home| && home'[y].Some?
      ensures Placed(stacks', home'[y].value, y)
      ensures stacks'[home[y].value.0][..home[y].value.1] == stacks[home[y].value.0][..home[y].value.1]
    {
      assert Placed(stacks, home[y].value, y);
    }
  }

  class BucketLists {
    const tcHead: array<nat>
    const scatter: array<nat>
    ghost var stacks: seq<seq<nat>>            // each list, its head last
    ghost var home: seq<Option<(nat, nat)>>    // the list and position of each filed signal

    /** Every list is the chain of links it stands for, so it ends, and no signal is on two lists. */
    ghost predicate Valid()
      reads this, tcHead, scatter
    {
      && tcHead != scatter && |stacks| == tcHead.Length && |home| == scatter.Length
      && Filed(stacks, home)
      && (forall t | 0 <= t < |stacks| :: tcHead[t] == Link(stacks[t]))
      && (forall x | 0 <= x < |home| && home[x].Some? :: scatter[x] == LinkBelow(stacks, home, x))
    }

    constructor (items: nat, signals: nat)
      ensures Valid() && fresh(tcHead) && fresh(scatter)
      ensures tcHead.Length == items && scatter.Length == signals
      ensures forall t | 0 <= t < items :: stacks[t] == []
      ensures forall x | 0 <= x < signals :: home[x] == None
    {
      tcHead := new nat[items](_ => 0);
      scatter := new nat[signals](_ => 0);
      stacks := seq(items, _ => []);
      home := seq(signals, _ => None);
    }

    /** An empty head means nobody is filed there; every list belongs to some step. */
    lemma Homes()
      requires Valid()
      ensures forall x | 0 <= x < |home| && home[x].Some? ::
        home[x].value.0 < tcHead.Length && tcHead[home[x].value.0] != 0
    {
      forall x | 0 <= x < |home| && home[x].Some?
        ensures home[x].value.0 < tcHead.Length && tcHead[home[x].value.0] != 0
      {
        assert Placed(stacks, home[x].value, x);
      }
    }

    method File(x: nat, t: nat)
      requires Valid() && x < |home| && home[x] == None && t < |stacks|
      modifies this, tcHead, scatter
      ensures Valid() && |home| == old(|home|)
      ensures stacks == old(stacks)[t := old(stacks)[t] + [x]]
      ensures home == old(home)[x := Some((t, |old(stacks)[t]|))]
    {
      FiledPush(stacks, home, x, t);
      hide Filed, LinkBelow;
      scatter[x] := tcHead[t];
      tcHead[t] := x + 1;
      home := home[x := Some((t, |stacks[t]|))];
      stacks := stacks[t := stacks[t] + [x]];
    }

    method Take(t: nat) returns (x: nat)
      requires Valid() && t < |stacks| && tcHead[t] != 0
      modifies this, tcHead, scatter
      ensures Valid() && |home| == old(|home|)
      ensures |old(stacks)[t]| > 0 && x == old(stacks)[t][|old(stacks)[t]| - 1] && x < |home|
      ensures old(home)[x] == Some((t, |old(stacks)[t]| - 1))
      ensures stacks == old(stacks)[t := old(stacks)[t][..|old(stacks)[t]| - 1]]
      ensures home == old(home)[x := None]
    {
      FiledPop(stacks, home, t);
      hide Filed, LinkBelow;
      x := tcHead[t] - 1;
      tcHead[t] := scatter[x];
      scatter[x] := 0;
      home := home[x := None];
      stacks := stacks[t := stacks[t][..|stacks[t]| - 1]];
    }
  }
}
