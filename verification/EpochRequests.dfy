/** All execution-layer requests of an epoch. The bundle handles the consolidation requests of all blocks
    first and the withdrawal requests of all blocks after them; the consensus standard goes block by block,
    withdrawals before consolidations (Electra beacon chain specification, section "Modified
    process_operations").

    The blocks are those of the next state, so the standard's epoch is the one after the cached state's.
    Registry, balances and queues are those of the cached state throughout, but for what the requests do:
    the standard's other work at the transition and between the blocks is not modelled. */
module EpochRequests {
  import opened Chain
  import opened RequestLedger
  import WR = WithdrawalRequests
  import CR = ConsolidationRequests

  /** The execution-layer requests of one block; none when the block was missed. */
  datatype Block = Block(executionRequests: bool, withdrawals: seq<WR.Request>, consolidations: seq<CR.Request>)

  /** All withdrawal requests of an epoch, block by block. */
  function WithdrawalsIn(blocks: seq<Block>): seq<WR.Request> {
    if blocks == [] then []
    else if blocks[0].executionRequests then blocks[0].withdrawals + WithdrawalsIn(blocks[1..])
    else WithdrawalsIn(blocks[1..])
  }

  function ConsolidationsIn(blocks: seq<Block>): seq<CR.Request> {
    if blocks == [] then []
    else if blocks[0].executionRequests then blocks[0].consolidations + ConsolidationsIn(blocks[1..])
    else ConsolidationsIn(blocks[1..])
  }

  // ------------------------------------------------------------ the standard's order

  function AllWithdraw(requests: seq<WR.Request>): seq<CR.Operation> {
    if requests == [] then [] else [CR.Withdraw(requests[0])] + AllWithdraw(requests[1..])
  }

  function AllConsolidate(requests: seq<CR.Request>): seq<CR.Operation> {
    if requests == [] then [] else [CR.Consolidate(requests[0])] + AllConsolidate(requests[1..])
  }

  /** The order in which the standard takes the requests of an epoch. */
  function BlockOrder(blocks: seq<Block>): seq<CR.Operation> {
    if blocks == [] then []
    else if blocks[0].executionRequests then
      AllWithdraw(blocks[0].withdrawals) + AllConsolidate(blocks[0].consolidations) + BlockOrder(blocks[1..])
    else BlockOrder(blocks[1..])
  }

  /** The blocks are taken in their order. */
  lemma {:induction false} BlocksInOrder(a: seq<Block>, b: seq<Block>)
    ensures BlockOrder(a + b) == BlockOrder(a) + BlockOrder(b)
  {
    if a == [] {
      assert a + b == b;
    } else {
      assert (a + b)[1..] == a[1..] + b && (a + b)[0] == a[0];
      BlocksInOrder(a[1..], b);
      if a[0].executionRequests {
        var here := AllWithdraw(a[0].withdrawals) + AllConsolidate(a[0].consolidations);
        assert here + (BlockOrder(a[1..]) + BlockOrder(b)) == (here + BlockOrder(a[1..])) + BlockOrder(b);
      }
    }
  }

  lemma {:induction false} AllWithdrawAt(requests: seq<WR.Request>)
    ensures |AllWithdraw(requests)| == |requests|
    ensures forall i :: 0 <= i < |requests| ==> AllWithdraw(requests)[i] == CR.Withdraw(requests[i])
  {
    if requests != [] { AllWithdrawAt(requests[1..]); }
  }

  lemma {:induction false} AllConsolidateAt(requests: seq<CR.Request>)
    ensures |AllConsolidate(requests)| == |requests|
    ensures forall i :: 0 <= i < |requests| ==> AllConsolidate(requests)[i] == CR.Consolidate(requests[i])
  {
    if requests != [] { AllConsolidateAt(requests[1..]); }
  }

  /** And in a block first its withdrawals and then its consolidations, each in their order; a block without
      execution requests has none. */
  lemma WithdrawalsComeFirst(b: Block)
    ensures var ops, n := BlockOrder([b]), |b.withdrawals|;
            if b.executionRequests then
              && |ops| == n + |b.consolidations|
              && (forall i :: 0 <= i < n ==> ops[i] == CR.Withdraw(b.withdrawals[i]))
              && (forall i :: 0 <= i < |b.consolidations| ==> ops[n + i] == CR.Consolidate(b.consolidations[i]))
            else ops == []
  {
    AllWithdrawAt(b.withdrawals);
    AllConsolidateAt(b.consolidations);
    assert [b][1..] == [];
  }

  /** The requests of one kind among the operations, in their order. */
  function WithdrawalsOf(ops: seq<CR.Operation>): seq<WR.Request> {
    if ops == [] then []
    else if ops[0].Withdraw? then [ops[0].withdrawal] + WithdrawalsOf(ops[1..])
    else WithdrawalsOf(ops[1..])
  }

  function ConsolidationsOf(ops: seq<CR.Operation>): seq<CR.Request> {
    if ops == [] then []
    else if ops[0].Consolidate? then [ops[0].consolidation] + ConsolidationsOf(ops[1..])
    else ConsolidationsOf(ops[1..])
  }

  lemma {:induction false} OfSplits(a: seq<CR.Operation>, b: seq<CR.Operation>)
    ensures WithdrawalsOf(a + b) == WithdrawalsOf(a) + WithdrawalsOf(b)
    ensures ConsolidationsOf(a + b) == ConsolidationsOf(a) + ConsolidationsOf(b)
  {
    if a == [] {
      assert a + b == b;
    } else {
      assert (a + b)[1..] == a[1..] + b;
      OfSplits(a[1..], b);
    }
  }

  lemma {:induction false} OfWithdraw(requests: seq<WR.Request>)
    ensures WithdrawalsOf(AllWithdraw(requests)) == requests && ConsolidationsOf(AllWithdraw(requests)) == []
  {
    if requests != [] {
      assert AllWithdraw(requests)[1..] == AllWithdraw(requests[1..]);
      OfWithdraw(requests[1..]);
    }
  }

  lemma {:induction false} OfConsolidate(requests: seq<CR.Request>)
    ensures ConsolidationsOf(AllConsolidate(requests)) == requests && WithdrawalsOf(AllConsolidate(requests)) == []
  {
    if requests != [] {
      assert AllConsolidate(requests)[1..] == AllConsolidate(requests[1..]);
      OfConsolidate(requests[1..]);
    }
  }

  /** Both orders hold the same requests of each kind, in the same order within the kind. */
  lemma {:induction false} OrdersHoldSameRequests(blocks: seq<Block>)
    ensures WithdrawalsOf(BlockOrder(blocks)) == WithdrawalsIn(blocks)
    ensures ConsolidationsOf(BlockOrder(blocks)) == ConsolidationsIn(blocks)
  {
    if blocks != [] {
      var b, rest := blocks[0], BlockOrder(blocks[1..]);
      OrdersHoldSameRequests(blocks[1..]);
      if b.executionRequests {
        OfSplits(AllWithdraw(b.withdrawals) + AllConsolidate(b.consolidations), rest);
        OfSplits(AllWithdraw(b.withdrawals), AllConsolidate(b.consolidations));
        OfWithdraw(b.withdrawals);
        OfConsolidate(b.consolidations);
        assert b.withdrawals + [] == b.withdrawals && [] + b.consolidations == b.consolidations;
      }
    }
  }

  // ------------------------------------------------------------ the answers, listed in the standard's order

  datatype Answer = Withdrawn(withdrawal: WR.Result) | Consolidated(consolidation: CR.Result)

  /** The handlers' answers: each kind goes on with its own ledger, since one pass runs after the other. */
  function HandlerAnswers(view: View, forConsolidations: Ledger, forWithdrawals: Ledger, ops: seq<CR.Operation>): seq<Answer>
    requires |view.registry| == |view.balances|
    decreases |ops|
  {
    if ops == [] then []
    else match ops[0] {
      case Consolidate(r) =>
        var (result, after) := CR.Handle(view, forConsolidations, r);
        [Consolidated(result)] + HandlerAnswers(view, after, forWithdrawals, ops[1..])
      case Withdraw(r) =>
        var (result, after) := WR.Handle(view, forWithdrawals, r);
        [Withdrawn(result)] + HandlerAnswers(view, forConsolidations, after, ops[1..])
    }
  }

  /** One operation by the standard. */
  function StandardStep(view: View, s: StandardState, op: CR.Operation, exitAt: nat): (Answer, StandardState)
    requires |s.registry| == |s.balances|
  {
    match op {
      case Consolidate(r) => var (result, after) := CR.StandardHandle(view, s, r, exitAt); (Consolidated(result), after)
      case Withdraw(r) => var (result, after) := WR.StandardHandle(RequestEpoch(view), s, r, exitAt); (Withdrawn(result), after)
    }
  }

  function StandardAnswers(view: View, s: StandardState, ops: seq<CR.Operation>, exits: seq<nat>): seq<Answer>
    requires |s.registry| == |s.balances| && |exits| == |ops|
    decreases |ops|
  {
    if ops == [] then []
    else
      var (answer, after) := StandardStep(view, s, ops[0], exits[0]);
      [answer] + StandardAnswers(view, after, ops[1..], exits[1..])
  }

  /** Whether every request is untouched by what was granted before it in the standard's order, the handlers
      knowing what was granted before it in theirs. */
  predicate AllUntouched(view: View, forConsolidations: Ledger, forWithdrawals: Ledger, granted: Record, ops: seq<CR.Operation>)
    requires |view.registry| == |view.balances|
    decreases |ops|
  {
    ops == [] ||
    match ops[0] {
      case Consolidate(r) =>
        var (result, after) := CR.Handle(view, forConsolidations, r);
        && CR.Untouched(view, forConsolidations, granted, r)
        && AllUntouched(view, after, forWithdrawals, CR.Granted(view, granted, r, result), ops[1..])
      case Withdraw(r) =>
        var (result, after) := WR.Handle(view, forWithdrawals, r);
        && WR.Untouched(view, forWithdrawals, granted, r)
        && AllUntouched(view, forConsolidations, after, WR.Granted(view, granted, r, result), ops[1..])
    }
  }

  /** The withdrawal pass queues what has been granted, and both sides hold as many consolidations. */
  predicate Aligned(forConsolidations: Ledger, forWithdrawals: Ledger, granted: Record) {
    && forWithdrawals.partials == granted.ledger.partials
    && |forConsolidations.consolidations| == |granted.ledger.consolidations|
  }

  lemma ConsolidationKeepsAligned(view: View, forConsolidations: Ledger, forWithdrawals: Ledger, granted: Record, r: CR.Request)
    requires |view.registry| == |view.balances| && Aligned(forConsolidations, forWithdrawals, granted)
    ensures var (result, after) := CR.Handle(view, forConsolidations, r);
            Aligned(after, forWithdrawals, CR.Granted(view, granted, r, result))
  {
  }

  lemma WithdrawalKeepsAligned(view: View, forConsolidations: Ledger, forWithdrawals: Ledger, granted: Record, r: WR.Request)
    requires |view.registry| == |view.balances| && Aligned(forConsolidations, forWithdrawals, granted)
    ensures var (result, after) := WR.Handle(view, forWithdrawals, r);
            Aligned(forConsolidations, after, WR.Granted(view, granted, r, result))
  {
  }

  ghost predicate ValidExits(view: View, exits: seq<nat>) { forall i :: 0 <= i < |exits| ==> ValidExit(view, exits[i]) }

  lemma {:induction false} AnswersExact(view: View, forConsolidations: Ledger, forWithdrawals: Ledger, granted: Record,
                                        s: StandardState, ops: seq<CR.Operation>, exits: seq<nat>)
    requires Corresponds(view, granted, s) && Aligned(forConsolidations, forWithdrawals, granted)
    requires |exits| == |ops| && ValidExits(view, exits)
    ensures HandlerAnswers(view, forConsolidations, forWithdrawals, ops) == StandardAnswers(view, s, ops, exits)
            <==> AllUntouched(view, forConsolidations, forWithdrawals, granted, ops)
    decreases |ops|
  {
    if ops != [] {
      var mine := HandlerAnswers(view, forConsolidations, forWithdrawals, ops);
      var theirs := StandardAnswers(view, s, ops, exits);
      var (b, s1) := StandardStep(view, s, ops[0], exits[0]);
      assert theirs == [b] + StandardAnswers(view, s1, ops[1..], exits[1..]) && theirs[0] == b;
      match ops[0] {
        case Consolidate(r) =>
          CR.StepExact(view, forConsolidations, granted, s, r, exits[0]);
          ConsolidationKeepsAligned(view, forConsolidations, forWithdrawals, granted, r);
          var (a, after) := CR.Handle(view, forConsolidations, r);
          assert mine == [Consolidated(a)] + HandlerAnswers(view, after, forWithdrawals, ops[1..]) && mine[0] == Consolidated(a);
          if Consolidated(a) == b {
            AnswersExact(view, after, forWithdrawals, CR.Granted(view, granted, r, a), s1, ops[1..], exits[1..]);
            SameTails(b, HandlerAnswers(view, after, forWithdrawals, ops[1..]), StandardAnswers(view, s1, ops[1..], exits[1..]));
          }
        case Withdraw(r) =>
          WR.StepExact(view, forWithdrawals, granted, s, r, exits[0]);
          WithdrawalKeepsAligned(view, forConsolidations, forWithdrawals, granted, r);
          var (a, after) := WR.Handle(view, forWithdrawals, r);
          assert mine == [Withdrawn(a)] + HandlerAnswers(view, forConsolidations, after, ops[1..]) && mine[0] == Withdrawn(a);
          if Withdrawn(a) == b {
            AnswersExact(view, forConsolidations, after, WR.Granted(view, granted, r, a), s1, ops[1..], exits[1..]);
            SameTails(b, HandlerAnswers(view, forConsolidations, after, ops[1..]), StandardAnswers(view, s1, ops[1..], exits[1..]));
          }
      }
    }
  }

  lemma SameTails(x: Answer, a: seq<Answer>, b: seq<Answer>)
    ensures [x] + a == [x] + b <==> a == b
  {
    if [x] + a == [x] + b { assert a == ([x] + a)[1..] == ([x] + b)[1..] == b; }
  }

  // ------------------------------------------------------------ the two result lists of the bundle

  function WithdrawalResults(answers: seq<Answer>): seq<WR.Result> {
    if answers == [] then []
    else if answers[0].Withdrawn? then [answers[0].withdrawal] + WithdrawalResults(answers[1..])
    else WithdrawalResults(answers[1..])
  }

  function ConsolidationResults(answers: seq<Answer>): seq<CR.Result> {
    if answers == [] then []
    else if answers[0].Consolidated? then [answers[0].consolidation] + ConsolidationResults(answers[1..])
    else ConsolidationResults(answers[1..])
  }

  /** Each answer is of the kind of its request. */
  ghost predicate AnswersTo(ops: seq<CR.Operation>, answers: seq<Answer>) {
    |answers| == |ops| && forall i :: 0 <= i < |ops| ==> (answers[i].Withdrawn? <==> ops[i].Withdraw?)
  }

  lemma {:induction false} HandlerResults(view: View, forConsolidations: Ledger, forWithdrawals: Ledger, ops: seq<CR.Operation>)
    requires |view.registry| == |view.balances|
    ensures var answers := HandlerAnswers(view, forConsolidations, forWithdrawals, ops);
            && AnswersTo(ops, answers)
            && WithdrawalResults(answers) == WR.Run(view, forWithdrawals, WithdrawalsOf(ops))
            && ConsolidationResults(answers) == CR.Run(view, forConsolidations, ConsolidationsOf(ops))
    decreases |ops|
  {
    if ops != [] {
      var rest := ops[1..];
      var answers := HandlerAnswers(view, forConsolidations, forWithdrawals, ops);
      match ops[0] {
        case Consolidate(r) =>
          var after := CR.Handle(view, forConsolidations, r).1;
          HandlerResults(view, after, forWithdrawals, rest);
          assert answers[1..] == HandlerAnswers(view, after, forWithdrawals, rest);
          assert ConsolidationsOf(ops)[1..] == ConsolidationsOf(rest) && WithdrawalsOf(ops) == WithdrawalsOf(rest);
        case Withdraw(r) =>
          var after := WR.Handle(view, forWithdrawals, r).1;
          HandlerResults(view, forConsolidations, after, rest);
          assert answers[1..] == HandlerAnswers(view, forConsolidations, after, rest);
          assert WithdrawalsOf(ops)[1..] == WithdrawalsOf(rest) && ConsolidationsOf(ops) == ConsolidationsOf(rest);
      }
    }
  }

  lemma StandardAnswersTo(view: View, s: StandardState, ops: seq<CR.Operation>, exits: seq<nat>)
    requires |s.registry| == |s.balances| && |exits| == |ops|
    ensures AnswersTo(ops, StandardAnswers(view, s, ops, exits))
    decreases |ops|
  {
  }

  /** The two lists of results determine the answers. */
  lemma {:induction false} ResultsDetermine(ops: seq<CR.Operation>, a: seq<Answer>, b: seq<Answer>)
    requires AnswersTo(ops, a) && AnswersTo(ops, b)
    requires WithdrawalResults(a) == WithdrawalResults(b) && ConsolidationResults(a) == ConsolidationResults(b)
    ensures a == b
  {
    if ops != [] {
      assert a[0].Withdrawn? <==> b[0].Withdrawn?;
      if a[0].Withdrawn? {
        assert WithdrawalResults(a)[0] == a[0].withdrawal && WithdrawalResults(b)[0] == b[0].withdrawal;
        assert WithdrawalResults(a)[1..] == WithdrawalResults(a[1..]) && WithdrawalResults(b)[1..] == WithdrawalResults(b[1..]);
      } else {
        assert ConsolidationResults(a)[0] == a[0].consolidation && ConsolidationResults(b)[0] == b[0].consolidation;
        assert ConsolidationResults(a)[1..] == ConsolidationResults(a[1..]) && ConsolidationResults(b)[1..] == ConsolidationResults(b[1..]);
      }
      ResultsDetermine(ops[1..], a[1..], b[1..]);
      assert a == [a[0]] + a[1..] && b == [b[0]] + b[1..];
    }
  }

  lemma {:induction false} ConsolidationsQueueNothing(view: View, ledger: Ledger, requests: seq<CR.Request>)
    requires |view.registry| == |view.balances|
    ensures CR.RunLedger(view, ledger, requests).partials == ledger.partials
    decreases |requests|
  {
    if requests != [] { ConsolidationsQueueNothing(view, CR.Handle(view, ledger, requests[0]).1, requests[1..]); }
  }

  /** The bundle's two lists of results: consolidations first, withdrawals after them. */
  ghost predicate BundleResults(view: View, ledger: Ledger, blocks: seq<Block>, consolidations: seq<CR.Result>, withdrawals: seq<WR.Result>)
    requires |view.registry| == |view.balances|
  {
    && consolidations == CR.Run(view, ledger, ConsolidationsIn(blocks))
    && withdrawals == WR.Run(view, CR.RunLedger(view, ledger, ConsolidationsIn(blocks)), WithdrawalsIn(blocks))
  }

  /** For every epoch of blocks and every choice of exit epochs: the bundle's two lists of results are the
      standard's if and only if every request is untouched. */
  lemma EpochExact(view: View, ledger: Ledger, s: StandardState, blocks: seq<Block>, exits: seq<nat>)
    requires Corresponds(view, Record(ledger, {}), s)
    requires |exits| == |BlockOrder(blocks)| && ValidExits(view, exits)
    ensures var between := CR.RunLedger(view, ledger, ConsolidationsIn(blocks));
            var theirs := StandardAnswers(view, s, BlockOrder(blocks), exits);
            BundleResults(view, ledger, blocks, ConsolidationResults(theirs), WithdrawalResults(theirs))
            <==> AllUntouched(view, ledger, between, Record(ledger, {}), BlockOrder(blocks))
  {
    var ops, between := BlockOrder(blocks), CR.RunLedger(view, ledger, ConsolidationsIn(blocks));
    var mine, theirs := HandlerAnswers(view, ledger, between, ops), StandardAnswers(view, s, ops, exits);
    ConsolidationsQueueNothing(view, ledger, ConsolidationsIn(blocks));
    OrdersHoldSameRequests(blocks);
    HandlerResults(view, ledger, between, ops);
    StandardAnswersTo(view, s, ops, exits);
    AnswersExact(view, ledger, between, Record(ledger, {}), s, ops, exits);
    if WithdrawalResults(mine) == WithdrawalResults(theirs) && ConsolidationResults(mine) == ConsolidationResults(theirs) {
      ResultsDetermine(ops, mine, theirs);
    }
  }

  const EXIT_OF_A: WR.Request := WR.Request("w", "a", 0)
  const A_INTO_B: CR.Request := CR.Request("w", "a", "b")

  /** A asks for its exit in one block, and to be consolidated into B in the next. */
  const TWO_BLOCKS: seq<Block> := [Block(true, [EXIT_OF_A], []), Block(true, [], [A_INTO_B])]

  lemma TwoBlocks()
    ensures WithdrawalsIn(TWO_BLOCKS) == [EXIT_OF_A] && ConsolidationsIn(TWO_BLOCKS) == [A_INTO_B]
    ensures BlockOrder(TWO_BLOCKS) == [CR.Withdraw(EXIT_OF_A), CR.Consolidate(A_INTO_B)]
  {
    assert TWO_BLOCKS[1..] == [TWO_BLOCKS[1]] && TWO_BLOCKS[1..][1..] == [];
    assert [EXIT_OF_A][1..] == [] && [A_INTO_B][1..] == [];
    assert AllWithdraw([EXIT_OF_A]) == [CR.Withdraw(EXIT_OF_A)] && AllConsolidate([A_INTO_B]) == [CR.Consolidate(A_INTO_B)];
    assert WithdrawalsIn(TWO_BLOCKS[1..]) == [] && [A_INTO_B] + [] == [A_INTO_B];
    assert ConsolidationsIn(TWO_BLOCKS[1..]) == [A_INTO_B];
    assert BlockOrder(TWO_BLOCKS[1..]) == [CR.Consolidate(A_INTO_B)];
  }

  lemma HandlersGrantConsolidation()
    ensures var view := CR.Two(CR.A, CR.B);
            && CR.Run(view, CR.NOTHING_YET, [A_INTO_B]) == [CR.Success]
            && WR.Run(view, CR.RunLedger(view, CR.NOTHING_YET, [A_INTO_B]), [EXIT_OF_A]) == [WR.ExitAlreadyInitiated]
  {
    var view := CR.Two(CR.A, CR.B);
    CR.TwoFound(CR.A, CR.B);
    assert "a" != "b" by { assert "a"[0] != "b"[0]; }
    assert CR.EarlyResult(view, CR.NOTHING_YET, A_INTO_B).None?;
    var (a, between) := CR.Handle(view, CR.NOTHING_YET, A_INTO_B);
    assert a == CR.Success && between.exiting == [0];
    assert [A_INTO_B][1..] == [] && [EXIT_OF_A][1..] == [];
    assert CR.RunLedger(view, CR.NOTHING_YET, [A_INTO_B]) == between;
    assert WR.Handle(view, between, EXIT_OF_A).0 == WR.ExitAlreadyInitiated;
  }

  lemma StandardGrantsExit()
    ensures var view := CR.Two(CR.A, CR.B);
            StandardAnswers(view, CR.Start(view), [CR.Withdraw(EXIT_OF_A), CR.Consolidate(A_INTO_B)], [1005, 1005])
            == [Withdrawn(WR.Success), Consolidated(CR.SrcExitAlreadyInitiated)]
  {
    var view, s := CR.Two(CR.A, CR.B), CR.Start(CR.Two(CR.A, CR.B));
    CR.TwoFound(CR.A, CR.B);
    assert "a" != "b" by { assert "a"[0] != "b"[0]; }
    var (b, left) := WR.StandardHandle(1001, s, EXIT_OF_A, 1005);
    assert b == WR.Success && left.registry == [left.registry[0], CR.B];
    CR.TwoFound(left.registry[0], CR.B);
    assert CR.StandardHandle(view, left, A_INTO_B, 1005).0 == CR.SrcExitAlreadyInitiated;
    var ops := [CR.Withdraw(EXIT_OF_A), CR.Consolidate(A_INTO_B)];
    assert ops[1..] == [CR.Consolidate(A_INTO_B)] && [1005, 1005][1..] == [1005] && ops[1..][1..] == [];
    assert StandardAnswers(view, left, ops[1..], [1005]) == [Consolidated(CR.SrcExitAlreadyInitiated)];
  }

  /** The bundle, which comes to the consolidation first, grants that and refuses the exit; the standard does
      the opposite. */
  lemma OrderCounterexample()
    ensures |BlockOrder(TWO_BLOCKS)| == 2
    ensures var view := CR.Two(CR.A, CR.B);
            var between := CR.RunLedger(view, CR.NOTHING_YET, ConsolidationsIn(TWO_BLOCKS));
            var theirs := StandardAnswers(view, CR.Start(view), BlockOrder(TWO_BLOCKS), [1005, 1005]);
            && CR.Run(view, CR.NOTHING_YET, ConsolidationsIn(TWO_BLOCKS)) == [CR.Success]
            && WR.Run(view, between, WithdrawalsIn(TWO_BLOCKS)) == [WR.ExitAlreadyInitiated]
            && WithdrawalResults(theirs) == [WR.Success]
            && ConsolidationResults(theirs) == [CR.SrcExitAlreadyInitiated]
  {
    TwoBlocks();
    HandlersGrantConsolidation();
    StandardGrantsExit();
    var theirs := [Withdrawn(WR.Success), Consolidated(CR.SrcExitAlreadyInitiated)];
    assert theirs[1..] == [Consolidated(CR.SrcExitAlreadyInitiated)] && theirs[1..][1..] == [];
    assert ConsolidationResults(theirs[1..]) == [CR.SrcExitAlreadyInitiated];
  }
}
