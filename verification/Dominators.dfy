/** Dominators (src/cfg/dominators.cc). */
module Dominators {
  import opened Graph
  import opened Fixpoint

  /** d lies on every walk from the entry to b. */
  ghost predicate Dominates(g: Cfg, d: nat, b: nat) {
    forall w :: WalkBetween(g, w, 0, b) ==> d in w
  }

  function Below(n: nat): (s: set<nat>)
    ensures forall b: nat :: b in s <==> b < n
  {
    if n == 0 then {} else Below(n - 1) + {n - 1}
  }

  function Blocks(g: Cfg): set<nat> { Below(g.Size()) }

  /** Dominators as a forward problem: every block adds itself and nothing is removed. */
  function Problem(g: Cfg): Forward
    requires g.Size() > 0
  {
    Forward(g, Blocks(g), seq(g.Size(), b requires 0 <= b => {b}), seq(g.Size(), b => {}), {0}, Blocks(g))
  }

  ghost function DominatorSets(g: Cfg): (x: seq<set<nat>>)
    ensures |x| == g.Size()
  {
    seq(g.Size(), b requires 0 <= b => set d | d in Blocks(g) && Dominates(g, d, b))
  }

  lemma DominatorStep(g: Cfg, d: nat, p: nat, b: nat)
    requires g.Valid() && Dominates(g, d, b) && d != b && g.Edge(p, b)
    ensures Dominates(g, d, p)
  {
    forall w | WalkBetween(g, w, 0, p)
      ensures d in w
    {
      JoinWalks(g, w, [p, b]);
      assert WalkBetween(g, w + [p, b][1..], 0, b);
      assert w + [p, b][1..] == w + [b];
      assert d in w + [b];
    }
  }

  lemma DominatorsSupported(g: Cfg)
    requires g.Valid()
    ensures Problem(g).Valid() && Problem(g).Supported(DominatorSets(g))
  {
    var f, x := Problem(g), DominatorSets(g);
    forall d | d in x[0]
      ensures d == 0
    {
      assert WalkBetween(g, [0], 0, 0);
    }
    forall b: nat, d | b in f.nodes && b != 0 && d in x[b]
      ensures d in f.Transfer(b, f.Meet(x, b))
    {
      if d != b {
        forall p: nat | p in f.nodes && g.Edge(p, b)
          ensures d in x[p]
        {
          DominatorStep(g, d, p, b);
        }
      }
    }
  }

  lemma {:induction false} SolvedDominates(g: Cfg, dom: seq<set<nat>>, w: seq<nat>, d: nat)
    requires g.Valid() && Problem(g).Valid() && Problem(g).Solved(dom)
    requires IsWalk(g, w) && w[0] == 0 && d in dom[w[|w| - 1]]
    ensures d in w
    decreases |w|
  {
    var b := w[|w| - 1];
    if b != 0 && d != b {
      var p := w[|w| - 2];
      assert g.Edge(p, w[|w| - 2 + 1]);
      assert Problem(g).Fixed(dom, b);
      SubWalk(g, w, 0, |w| - 1);
      assert w[0..|w| - 1] == w[..|w| - 1];
      assert d in Problem(g).Meet(dom, b);
      SolvedDominates(g, dom, w[..|w| - 1], d);
    } else {
      assert w[|w| - 1] in w && w[0] in w;
      assert b == 0 ==> dom[0] == {0};
    }
  }

  class CfgDominators {
    const g: Cfg
    var dom: seq<set<nat>>

    constructor (g: Cfg)
      requires g.Valid()
      ensures this.g == g && |dom| == g.Size()
      ensures forall b, d :: 0 <= b < g.Size() ==> (d in dom[b] <==> d in Blocks(g) && Dominates(g, d, b))
    {
      this.g := g;
      dom := [];
      new;
      Recompute();
    }

    /** The loop terminates, and d is in dom[b] exactly when d is on every walk from the entry to b. */
    method Recompute()
      requires g.Valid()
      modifies this`dom
      ensures |dom| == g.Size()
      ensures forall b, d :: 0 <= b < g.Size() ==> (d in dom[b] <==> d in Blocks(g) && Dominates(g, d, b))
    {
      var all := Blocks(g);
      dom := seq(g.Size(), b requires 0 <= b => if b == 0 then {0} else all);
      var f := Problem(g);
      DominatorsSupported(g);
      assert Descending(f, dom);
      var preds := RecomputePreds(g);
      var order := seq(g.Size() - 1, i => i + 1);
      forall b | b in f.nodes && b != 0
        ensures b in order
      {
        assert order[b - 1] == b;
      }
      hide PredsOf, Descending, Dominates, Problem;
      dom := SolveForward(f, preds, order, dom);
      forall b, d | 0 <= b < g.Size()
        ensures d in dom[b] <==> d in all && Dominates(g, d, b)
      {
        Exact(g, dom, b, d);
      }
    }
  }

  lemma Exact(g: Cfg, dom: seq<set<nat>>, b: nat, d: nat)
    requires g.Valid() && Problem(g).Valid() && Problem(g).Solved(dom) && Problem(g).Greatest(dom) && b < g.Size()
    ensures d in dom[b] <==> d in Blocks(g) && Dominates(g, d, b)
  {
    DominatorsSupported(g);
    assert DominatorSets(g)[b] <= dom[b];
    if d in dom[b] {
      assert b != 0 ==> Problem(g).Fixed(dom, b);
      assert d in Blocks(g);
      forall w | WalkBetween(g, w, 0, b)
        ensures d in w
      {
        SolvedDominates(g, dom, w, d);
      }
    }
  }
}
