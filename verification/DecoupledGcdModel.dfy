/** The stallable subtractive gcd unit: registers, ready/valid handshakes, and what comes out of it over
    any run. */
module DecoupledGcdModel {

  // ----- greatest common divisors ------------------------------------------------------------------

  ghost predicate Divides(d: nat, n: nat) { exists k: nat :: n == k * d }

  /** `g` has exactly the divisors that `a` and `b` have in common. */
  ghost predicate IsGcd(g: nat, a: nat, b: nat) {
    forall d: nat :: Divides(d, g) <==> Divides(d, a) && Divides(d, b)
  }

  /** One subtraction of the unit. */
  function Sub(x: nat, y: nat): (nat, nat) {
    if x > y then (x - y, y) else (x, y - x)
  }

  /** The register that is not zero. */
  function Result(x: nat, y: nat): nat { if x == 0 then y else x }

  /** How many subtractions it takes until a register is zero. */
  function Subtractions(x: nat, y: nat): (n: nat)
    ensures n <= x + y && (x == 0 || y == 0 <==> n == 0)
    decreases x + y
  {
    if x == 0 || y == 0 then 0 else 1 + Subtractions(Sub(x, y).0, Sub(x, y).1)
  }

  function Gcd(x: nat, y: nat): nat
    decreases x + y
  {
    if x == 0 || y == 0 then Result(x, y) else Gcd(Sub(x, y).0, Sub(x, y).1)
  }

  lemma DividesSum(d: nat, x: nat, y: nat)
    requires Divides(d, y)
    ensures Divides(d, x + y) <==> Divides(d, x)
  {
    var j: nat :| y == j * d;
    if Divides(d, x) {
      var k: nat :| x == k * d;
      assert x + y == (k + j) * d;
    }
    if Divides(d, x + y) {
      var k: nat :| x + y == k * d;
      assert x == (k - j) * d;
      if k < j { assert (k - j) * d <= 0; assert x == 0 * d; } else { assert x == (k - j) * d; }
    }
  }

  /** The unit computes the greatest common divisor; for two zeros it is zero. */
  lemma {:induction false} GcdIsGcd(x: nat, y: nat)
    ensures IsGcd(Gcd(x, y), x, y)
    decreases x + y
  {
    if x == 0 || y == 0 {
      forall d: nat ensures Divides(d, Result(x, y)) <==> Divides(d, x) && Divides(d, y) { assert 0 == 0 * d; }
    } else {
      var (x', y') := Sub(x, y);
      GcdIsGcd(x', y');
      forall d: nat ensures Divides(d, Gcd(x, y)) <==> Divides(d, x) && Divides(d, y) {
        SubDivides(d, x, y);
      }
    }
  }

  lemma SubDivides(d: nat, x: nat, y: nat)
    ensures Divides(d, Sub(x, y).0) && Divides(d, Sub(x, y).1) <==> Divides(d, x) && Divides(d, y)
  {
    hide Divides;
    if x > y {
      if Divides(d, y) { DividesSum(d, x - y, y); }
    } else {
      if Divides(d, x) { DividesSum(d, y - x, x); }
    }
  }

  // ----- one clock cycle ---------------------------------------------------------------------------

  datatype Regs = Regs(xInitial: nat, yInitial: nat, x: nat, y: nat, busy: bool, resultValid: bool)

  /** What the outside drives in a cycle. */
  datatype Pins = Pins(inValid: bool, value1: nat, value2: nat, outReady: bool)

  function Next(r: Regs, p: Pins): Regs {
    if r.busy then
      var (x', y') := Sub(r.x, r.y);
      var done := r.x == 0 || r.y == 0;
      var taken := done && p.outReady && r.resultValid;
      r.(x := x', y := y', busy := !taken, resultValid := if taken then false else if done then true else r.resultValid)
    else if p.inValid then
      r.(x := p.value1, y := p.value2, xInitial := p.value1, yInitial := p.value2, busy := true)
    else r
  }

  predicate Accepts(r: Regs, p: Pins) { !r.busy && p.inValid }

  predicate Delivers(r: Regs, p: Pins) { r.resultValid && p.outReady }

  /** In every reachable state: a result is only valid while the unit is busy and has finished subtracting, and
      the registers still have the gcd of the accepted pair. */
  ghost predicate Inv(r: Regs) {
    && (r.resultValid ==> r.busy && (r.x == 0 || r.y == 0))
    && (r.busy ==> Gcd(r.x, r.y) == Gcd(r.xInitial, r.yInitial))
  }

  lemma NextInv(r: Regs, p: Pins)
    requires Inv(r)
    ensures Inv(Next(r, p))
  {}

  /** The registers of a module; busy and resultValid are reset, the others come up arbitrary. */
  class DecoupledGcd {
    var xInitial: nat
    var yInitial: nat
    var x: nat
    var y: nat
    var busy: bool
    var resultValid: bool

    function State(): Regs
      reads this
    {
      Regs(xInitial, yInitial, x, y, busy, resultValid)
    }

    constructor (x0: nat, y0: nat, x1: nat, y1: nat)
      ensures Inv(State()) && !busy && !resultValid
    {
      xInitial, yInitial, x, y := x0, y0, x1, y1;
      busy, resultValid := false, false;
    }

    /** One clock cycle. A valid output carries the gcd of the accepted pair, and the pair. */
    method Clock(p: Pins) returns (inReady: bool, outValid: bool, value1: nat, value2: nat, gcd: nat)
      requires Inv(State())
      modifies this
      ensures State() == Next(old(State()), p) && Inv(State())
      ensures inReady == !old(busy) && outValid == old(resultValid)
      ensures outValid ==> value1 == old(xInitial) && value2 == old(yInitial) && gcd == Gcd(value1, value2)
    {
      NextInv(State(), p);
      inReady, outValid := !busy, resultValid;
      value1, value2, gcd := 0, 0, 0;
      if busy {
        var x0, y0 := x, y;
        if x0 > y0 { x := x0 - y0; } else { y := y0 - x0; }
        if x0 == 0 || y0 == 0 {
          if x0 == 0 { gcd := y0; } else { gcd := x0; }
          value1, value2 := xInitial, yInitial;
          var wasValid := resultValid;
          resultValid := true;
          if p.outReady && wasValid {
            busy := false;
            resultValid := false;
          }
        }
      } else if p.inValid {
        x, y := p.value1, p.value2;
        xInitial, yInitial := p.value1, p.value2;
        busy := true;
      }
    }
  }

  // ----- whole runs --------------------------------------------------------------------------------

  function Run(r: Regs, ps: seq<Pins>): Regs {
    if ps == [] then r else Next(Run(r, ps[..|ps| - 1]), ps[|ps| - 1])
  }

  /** The pairs taken in, and the triples handed out. */
  function Taken(r: Regs, ps: seq<Pins>): seq<(nat, nat)> {
    if ps == [] then []
    else
      var p := ps[|ps| - 1];
      Taken(r, ps[..|ps| - 1]) + if Accepts(Run(r, ps[..|ps| - 1]), p) then [(p.value1, p.value2)] else []
  }

  function Given(r: Regs, ps: seq<Pins>): seq<(nat, nat, nat)> {
    if ps == [] then []
    else
      var s := Run(r, ps[..|ps| - 1]);
      Given(r, ps[..|ps| - 1]) + if Delivers(s, ps[|ps| - 1]) then [(s.xInitial, s.yInitial, Result(s.x, s.y))] else []
  }

  ghost predicate Reset(r: Regs) { !r.busy && !r.resultValid }

  /** Each accepted pair gives exactly one output transfer, in order and before the next pair is accepted, and
      it carries the pair's gcd. This holds under all stalls on both sides. */
  lemma {:induction false} OneResultPerPair(r: Regs, ps: seq<Pins>)
    requires Reset(r)
    ensures var s, taken, given := Run(r, ps), Taken(r, ps), Given(r, ps);
            && Inv(s) && |taken| == |given| + (if s.busy then 1 else 0)
            && (s.busy ==> taken[|given|] == (s.xInitial, s.yInitial))
            && forall i | 0 <= i < |given| :: given[i] == (taken[i].0, taken[i].1, Gcd(taken[i].0, taken[i].1))
  {
    if ps != [] {
      OneResultPerPair(r, ps[..|ps| - 1]);
      NextInv(Run(r, ps[..|ps| - 1]), ps[|ps| - 1]);
      hide Gcd, Inv;
      var s := Run(r, ps[..|ps| - 1]);
      Finished(s);
    }
  }

  lemma Finished(s: Regs)
    requires Inv(s)
    ensures s.resultValid ==> s.busy && (s.x == 0 || s.y == 0) && Result(s.x, s.y) == Gcd(s.xInitial, s.yInitial)
  {}

  // ----- latency -----------------------------------------------------------------------------------

  /** Cycles until the result is valid, which no stall changes: one more than the subtractions needed. */
  function Wait(s: Regs): nat {
    if s.resultValid then 0 else Subtractions(s.x, s.y) + 1
  }

  lemma WaitDrops(s: Regs, p: Pins)
    requires Inv(s) && s.busy && !s.resultValid
    ensures var t := Next(s, p);
            t.busy && Wait(t) + 1 == Wait(s) && t.xInitial == s.xInitial && t.yInitial == s.yInitial
  {}

  lemma RunHead(s: Regs, ps: seq<Pins>)
    requires ps != []
    ensures Run(s, ps) == Run(Next(s, ps[0]), ps[1..])
  {
    if |ps| == 1 {
      assert ps[..0] == [] && ps[1..] == [];
    } else {
      RunHead(s, ps[..|ps| - 1]);
      assert ps[..|ps| - 1][1..] == ps[1..][..|ps[1..]| - 1];
    }
  }

  /** After a pair (a, b) has been accepted, the result becomes valid in exactly `Subtractions(a, b) + 1` cycles,
      at most a + b + 1, whatever producer and consumer do. */
  lemma {:induction false} ValidInTime(s: Regs, ps: seq<Pins>)
    requires Inv(s) && s.busy && |ps| <= Wait(s)
    ensures Run(s, ps).busy && Wait(Run(s, ps)) == Wait(s) - |ps|
    ensures Run(s, ps).resultValid <==> |ps| == Wait(s)
    ensures Wait(s) <= s.x + s.y + 1
    decreases |ps|
  {
    hide Subtractions;
    if ps != [] {
      NextInv(s, ps[0]);
      WaitDrops(s, ps[0]);
      ValidInTime(Next(s, ps[0]), ps[1..]);
      RunHead(s, ps);
    }
  }

  /** A valid result stays, with its value, until it is taken. */
  lemma {:induction false} ValidStays(s: Regs, ps: seq<Pins>)
    requires Inv(s) && s.resultValid && forall i | 0 <= i < |ps| :: !ps[i].outReady
    ensures Run(s, ps) == s
  {
    if ps != [] { ValidStays(s, ps[..|ps| - 1]); }
  }
}
