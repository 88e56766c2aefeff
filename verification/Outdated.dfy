/** Guesses that a rewrite elsewhere makes outdated: what the cache costs. */
module Outdated {
  import opened FourState
  import opened Netlists
  import opened Rewrites
  import opened LinkConst
  import opened Folding
  import opened Designs

  function Named(): Kind {
    Signal(Sig(Wire, 1, 0, 0, false, NotAPort, false))
  }

  /** A constant 1 on nexus 0, concatenated to nexus 1, of which a substitution makes nexus 2,
      which in turn is concatenated to nexus 3. */
  function Chained(): Netlist {
    Netlist(map[0 := Node(Const([V1]), [0]), 1 := Node(Concat(false), [1, 0]),
                2 := Node(Substitute(0), [2, 1, 0]), 3 := Node(Concat(false), [3, 2]),
                4 := Node(Named(), [0]), 5 := Node(Named(), [1]), 6 := Node(Named(), [2]), 7 := Node(Named(), [3])],
            map[0 := 1, 1 := 1, 2 := 1, 3 := 1])
  }

  /** The first concatenation has been folded. */
  function Folded(): Netlist {
    Replace(Chained(), {1}, 8, Node(Const([V1]), [1]))
  }

  /** The pins on each nexus. */
  lemma ChainedLinks(l: Link, n: NexusId)
    requires IsLink(Chained(), l, n)
    ensures n == 0 ==> l == Link(0, 0) || l == Link(1, 1) || l == Link(2, 2) || l == Link(4, 0)
    ensures n == 1 ==> l == Link(1, 0) || l == Link(2, 1) || l == Link(5, 0)
    ensures n == 2 ==> l == Link(2, 0) || l == Link(3, 1) || l == Link(6, 0)
  {
  }

  lemma ChainedAt(n: NexusId)
    requires n < 4
    ensures IsLink(Chained(), Link(n, 0), n) && HasSignal(Chained(), n)
  {
    assert IsLink(Chained(), Link(n + 4, 0), n);
  }

  lemma ChainedNode(id: NodeId)
    requires id in Chained().nodes
    ensures NodeOk(Chained().width, Chained().nodes[id]) && (Chained().nodes[id].kind.Substitute? ==> id == 2)
  {
    assert id == 0 || id == 1 || id == 2 || id == 3 || id == 4 || id == 5 || id == 6 || id == 7;
    assert [1, 0][1..] == [0] && [3, 2][1..] == [2];
    assert SumWidths(Chained().width, [0]) == 1 && SumWidths(Chained().width, [2]) == 1;
  }

  lemma ChainedWellFormed()
    ensures WellFormed(Chained())
  {
    forall n | n in Chained().width ensures HasSignal(Chained(), n) {
      ChainedAt(n);
    }
    forall id | id in Chained().nodes ensures NodeOk(Chained().width, Chained().nodes[id]) {
      ChainedNode(id);
    }
  }

  lemma ChainedRanked(rank: NexusId -> nat)
    requires rank(0) < rank(2) && rank(1) < rank(2)
    ensures Ranked(Chained(), rank)
  {
    forall id | id in Chained().nodes && Chained().nodes[id].kind.Substitute?
      ensures Chained().nodes[id].pins == [2, 1, 0]
    {
      ChainedNode(id);
    }
  }

  /** One link drives the nexus, as a constant does. */
  ghost predicate OneConstant(net: Netlist, n: NexusId, only: Link) {
    forall l | IsLink(net, l, n) :: RoleOf(net.nodes[l.node].kind, l.pin) == if l == only then Constant else Silent
  }

  lemma OneIsConstant(net: Netlist, rank: NexusId -> nat, n: NexusId, only: Link)
    requires WellFormed(net) && Ranked(net, rank) && OneConstant(net, n, only)
    requires SubstituteAt(net, only, n) ==>
               && ConstantNexus(net, rank, net.nodes[only.node].pins[1])
               && ConstantNexus(net, rank, net.nodes[only.node].pins[2])
    ensures ConstantNexus(net, rank, n)
  {
    forall l | SubstituteAt(net, l, n) ensures l == only {
      assert RoleOf(net.nodes[l.node].kind, l.pin) == Constant;
    }
  }

  lemma SourceOne()
    ensures OneConstant(Chained(), 0, Link(0, 0)) && !SubstituteAt(Chained(), Link(0, 0), 0)
  {
    forall l | IsLink(Chained(), l, 0)
      ensures RoleOf(Chained().nodes[l.node].kind, l.pin) == if l == Link(0, 0) then Constant else Silent
    {
      ChainedLinks(l, 0);
    }
  }

  lemma SubstituteOne()
    ensures OneConstant(Chained(), 2, Link(2, 0)) && SubstituteAt(Chained(), Link(2, 0), 2)
    ensures Chained().nodes[2].pins == [2, 1, 0]
  {
    forall l | IsLink(Chained(), l, 2)
      ensures RoleOf(Chained().nodes[l.node].kind, l.pin) == if l == Link(2, 0) then Constant else Silent
    {
      ChainedLinks(l, 2);
    }
  }

  lemma FoldedOne()
    ensures OneConstant(Folded(), 1, Link(8, 0)) && !SubstituteAt(Folded(), Link(8, 0), 1)
  {
    forall l | IsLink(Folded(), l, 1)
      ensures RoleOf(Folded().nodes[l.node].kind, l.pin) == if l == Link(8, 0) then Constant else Silent
    {
      if l.node != 8 {
        assert IsLink(Chained(), l, 1);
        ChainedLinks(l, 1);
      }
    }
  }

  /** The first concatenation can be folded, to what `Folded` says. */
  lemma ChainedFolds(rank: NexusId -> nat)
    requires rank(0) < rank(2) && rank(1) < rank(2)
    ensures CanFoldConcat(Chained(), rank, 1, 8) && FoldedConcat(Chained(), rank, 1, 8) == Folded()
    ensures WellFormed(Folded()) && Ranked(Folded(), rank)
  {
    ChainedWellFormed();
    ChainedRanked(rank);
    SourceVector(rank);
    FoldsTo(rank);
    FoldConcatEquivalent(Chained(), rank, 1, 8);
  }

  lemma SourceVector(rank: NexusId -> nat)
    requires WellFormed(Chained()) && Ranked(Chained(), rank)
    ensures ConstantNexus(Chained(), rank, 0) && DrivenVector(Chained(), rank, 0) == [V1]
  {
    SourceOne();
    OneIsConstant(Chained(), rank, 0, Link(0, 0));
    ChainedAt(0);
    SoleDriverVector(Chained(), rank, Link(0, 0), 0);
  }

  lemma FoldsTo(rank: NexusId -> nat)
    requires WellFormed(Chained()) && Ranked(Chained(), rank)
    requires ConstantNexus(Chained(), rank, 0) && DrivenVector(Chained(), rank, 0) == [V1]
    ensures CanFoldConcat(Chained(), rank, 1, 8) && FoldedConcat(Chained(), rank, 1, 8) == Folded()
  {
    assert Chained().nodes[1].pins[1..] == [0] && [0][1..] == [];
    assert [V1] + [] == [V1] && DrivenConcat(Chained(), rank, []) == [] && DrivenConcat(Chained(), rank, [0]) == [V1];
    assert Node(Const(DrivenConcat(Chained(), rank, [0])), [Chained().nodes[1].pins[0]]) == Node(Const([V1]), [1]);
  }

  lemma KeepsOne(n: NexusId, only: Link)
    requires n != 1 && OneConstant(Chained(), n, only)
    ensures OneConstant(Folded(), n, only)
  {
    forall l | IsLink(Folded(), l, n)
      ensures IsLink(Chained(), l, n) && Folded().nodes[l.node] == Chained().nodes[l.node]
    {
    }
  }

  /** A scan of nexus 2 before the fold finds it variable, since the substitution reads the
      concatenation. The fold forgets the guess at nexus 1 alone, so that nexus 2 is taken for
      variable ever after: the second concatenation, of what is now a constant, stays. */
  lemma SubstitutionOutdatesGuess(rank: NexusId -> nat, d: map<NexusId, Guess>)
    requires rank(0) < rank(2) && rank(1) < rank(2) && 2 in d && d[2].Var?
    ensures Ranked(Chained(), rank) && !ConstantNexus(Chained(), rank, 2)
    ensures CanFoldConcat(Chained(), rank, 1, 8) && FoldedConcat(Chained(), rank, 1, 8) == Folded()
    ensures var forgotten := Forget(Forget(d, Folded().nodes[8], 1), Chained().nodes[1], 2); 2 in forgotten && forgotten[2].Var?
    ensures CanFoldConcat(Folded(), rank, 3, 9)
  {
    ChainedFolds(rank);
    VariableBefore(rank);
    ConstantAfter(rank);
    FoldableAfter(rank);
    ForgetsElsewhere(d, Folded().nodes[8], 1);
    ForgetsElsewhere(Forget(d, Folded().nodes[8], 1), Chained().nodes[1], 2);
  }

  /** A device forgets only the guesses of nexuses that it may drive. */
  lemma ForgetsElsewhere(d: map<NexusId, Guess>, node: Node, p: nat)
    requires p <= |node.pins| && 2 in d
    requires forall q | 0 <= q < p && !PinDir(node.kind, q).Input? :: node.pins[q] != 2
    ensures 2 in Forget(d, node, p) && Forget(d, node, p)[2] == d[2]
  {
  }

  lemma FoldableAfter(rank: NexusId -> nat)
    requires WellFormed(Folded()) && Ranked(Folded(), rank) && ConstantNexus(Folded(), rank, 2)
    ensures CanFoldConcat(Folded(), rank, 3, 9)
  {
    assert Folded().nodes[3] == Node(Concat(false), [3, 2]) && [3, 2][1..] == [2];
  }

  lemma VariableBefore(rank: NexusId -> nat)
    requires Ranked(Chained(), rank)
    ensures !ConstantNexus(Chained(), rank, 2)
  {
    SubstituteOne();
    ChainedAt(1);
    assert LinkRole(Chained(), Link(1, 0), 1, Variable);
    assert !ConstantNexus(Chained(), rank, 1);
  }

  lemma ConstantAfter(rank: NexusId -> nat)
    requires WellFormed(Folded()) && Ranked(Folded(), rank) && Ranked(Chained(), rank)
    ensures ConstantNexus(Folded(), rank, 2)
  {
    SourceOne();
    SubstituteOne();
    FoldedOne();
    KeepsOne(0, Link(0, 0));
    KeepsOne(2, Link(2, 0));
    OneIsConstant(Folded(), rank, 0, Link(0, 0));
    OneIsConstant(Folded(), rank, 1, Link(8, 0));
    OneIsConstant(Folded(), rank, 2, Link(2, 0));
  }
}
