/** The cache's blocking map: readers of an absent key subscribe and are woken by the writer of the
    key. Set keeps the lock while it hands its value to every subscriber over unbuffered channels; all
    other operations are one critical section. A wait may be cancelled at any time, which leaves its
    channel among the subscribers. */
module BlockingMap {
  import opened Chain

  type Item = Bytes

  /** One call of Wait; each call has its own channel, named by the call. */
  datatype Waiter = Waiting(key: nat) | Received(key: nat, item: Item) | Cancelled(key: nat)

  /** The call of Set that holds the lock, and the subscribers it has not handed its value to yet. */
  datatype Writer = Writer(key: nat, remaining: seq<nat>)

  datatype State = State(m: map<nat, Item>, subs: map<nat, seq<nat>>, writer: Option<Writer>, waiters: map<nat, Waiter>)

  const INITIAL: State := State(map[], map[], None, map[])

  function SubsOf(st: State, key: nat): seq<nat> { if key in st.subs then st.subs[key] else [] }

  datatype Step =
    | Wait(call: nat, key: nat) | Cancel(call: nat)
    | SetBegin(key: nat, item: Item) | SetSend | SetEnd
    | Delete(key: nat)

  /** An unbuffered send succeeds only when its receiver is waiting. */
  predicate Enabled(st: State, step: Step) {
    match step {
      case Wait(call, key) => st.writer.None? && call !in st.waiters
      case Cancel(call) => call in st.waiters && st.waiters[call].Waiting?
      case SetBegin(key, item) => st.writer.None?
      case SetSend =>
        st.writer.Some? && st.writer.value.remaining != [] && st.writer.value.key in st.m
        && st.writer.value.remaining[0] in st.waiters && st.waiters[st.writer.value.remaining[0]].Waiting?
      case SetEnd => st.writer.Some? && st.writer.value.remaining == []
      case Delete(key) => st.writer.None?
    }
  }

  function Next(st: State, step: Step): State
    requires Enabled(st, step)
  {
    match step {
      case Wait(call, key) =>
        if key in st.m then st.(waiters := st.waiters[call := Received(key, st.m[key])])
        else st.(subs := st.subs[key := SubsOf(st, key) + [call]], waiters := st.waiters[call := Waiting(key)])
      case Cancel(call) => st.(waiters := st.waiters[call := Cancelled(st.waiters[call].key)])
      case SetBegin(key, item) => st.(m := st.m[key := item], writer := Some(Writer(key, SubsOf(st, key))))
      case SetSend =>
        var w := st.writer.value;
        st.(waiters := st.waiters[w.remaining[0] := Received(w.key, st.m[w.key])],
            writer := Some(Writer(w.key, w.remaining[1..])))
      case SetEnd => st.(subs := st.subs - {st.writer.value.key}, writer := None)
      case Delete(key) => if key in st.m && key !in st.subs then st.(m := st.m - {key}) else st
    }
  }

  // ------------------------------------------------------------ the invariant

  /** The subscribers of a key that still have to be woken. */
  function Pending(st: State, key: nat): seq<nat> {
    if st.writer.Some? && st.writer.value.key == key then st.writer.value.remaining else SubsOf(st, key)
  }

  /** A key with a value has no subscribers, unless its writer is at work. */
  ghost predicate PresentUnwatched(st: State) {
    && (st.writer.Some? ==> st.writer.value.key in st.m)
    && forall key :: key in st.m && !(st.writer.Some? && st.writer.value.key == key) ==> key !in st.subs
  }

  /** Those that wait for a key, or did until they were cancelled, are exactly those that its next value
      will be sent to. */
  ghost predicate WaitingArePending(st: State) {
    forall call, key :: WaitsFor(st, call, key)
  }

  ghost predicate PendingOnce(st: State) { forall key :: NoRepeats(Pending(st, key)) }

  ghost predicate Inv(st: State) { PresentUnwatched(st) && WaitingArePending(st) && PendingOnce(st) }

  lemma InitialInv()
    ensures Inv(INITIAL)
  {
  }

  lemma NextPending(st: State, step: Step, key: nat)
    requires Inv(st) && Enabled(st, step)
    ensures match step {
              case Wait(call, k) => Pending(Next(st, step), key)
                                    == if k == key && key !in st.m then Pending(st, key) + [call] else Pending(st, key)
              case SetSend => Pending(st, key)
                              == if st.writer.value.key == key then [st.writer.value.remaining[0]] + Pending(Next(st, step), key)
                                 else Pending(Next(st, step), key)
              case _ => Pending(Next(st, step), key) == Pending(st, key)
            }
  {
  }

  /** One call waits for one key, and its channel is in that key's list only. */
  ghost predicate WaitsFor(st: State, call: nat, key: nat) {
    call in Pending(st, key) <==> call in st.waiters && (st.waiters[call] == Waiting(key) || st.waiters[call] == Cancelled(key))
  }

  lemma SendAnswersHead(st: State, call: nat, key: nat)
    requires Inv(st) && Enabled(st, SetSend) && WaitsFor(st, call, key)
    ensures WaitsFor(Next(st, SetSend), call, key)
  {
    var w := st.writer.value;
    var head := w.remaining[0];
    NextPending(st, SetSend, key);
    assert head in Pending(st, w.key);
    assert WaitsFor(st, head, w.key);
    assert NoRepeats(Pending(st, w.key));
    var rest := Pending(Next(st, SetSend), key);
    if key == w.key {
      assert Pending(st, key) == [head] + rest;
      assert forall i :: 0 <= i < |rest| ==> rest[i] == Pending(st, key)[i + 1] != Pending(st, key)[0];
    }
  }

  lemma NextWaiting(st: State, step: Step)
    requires Inv(st) && Enabled(st, step)
    ensures WaitingArePending(Next(st, step))
  {
    forall call, key ensures WaitsFor(Next(st, step), call, key) {
      assert WaitsFor(st, call, key);
      NextPending(st, step, key);
      if step.SetSend? { SendAnswersHead(st, call, key); }
    }
  }

  lemma NextOnce(st: State, step: Step)
    requires Inv(st) && Enabled(st, step)
    ensures PendingOnce(Next(st, step))
  {
    forall key ensures NoRepeats(Pending(Next(st, step), key)) {
      NextPending(st, step, key);
      assert NoRepeats(Pending(st, key));
      if step.Wait? { assert WaitsFor(st, step.call, key); }
    }
  }

  lemma NextInv(st: State, step: Step)
    requires Inv(st) && Enabled(st, step)
    ensures Inv(Next(st, step))
  {
    NextWaiting(st, step);
    NextOnce(st, step);
  }

  /** The writer can neither send nor return if and only if the next subscriber's wait was cancelled. */
  lemma WriterBlocksExactly(st: State)
    requires Inv(st) && st.writer.Some?
    ensures !(Enabled(st, SetSend) || Enabled(st, SetEnd))
            <==> var rest := st.writer.value.remaining;
                 rest != [] && rest[0] in st.waiters && st.waiters[rest[0]] == Cancelled(st.writer.value.key)
  {
    var w := st.writer.value;
    if w.remaining != [] {
      assert w.remaining[0] in Pending(st, w.key);
      assert WaitsFor(st, w.remaining[0], w.key);
    }
  }

  // ------------------------------------------------------------ runs

  function Run(st: State, steps: seq<Step>): (r: Option<State>)
    decreases |steps|
  {
    if steps == [] then Some(st)
    else if Enabled(st, steps[0]) then Run(Next(st, steps[0]), steps[1..])
    else None
  }

  lemma {:induction false} RunInv(st: State, steps: seq<Step>)
    requires Inv(st) && Run(st, steps).Some?
    ensures Inv(Run(st, steps).value)
    decreases |steps|
  {
    if steps != [] {
      NextInv(st, steps[0]);
      RunInv(Next(st, steps[0]), steps[1..]);
    }
  }

  /** Then it never does: whatever follows, the lock stays with it. */
  lemma {:induction false} BlockedForEver(st: State, steps: seq<Step>)
    requires Inv(st) && st.writer.Some? && !Enabled(st, SetSend) && !Enabled(st, SetEnd) && Run(st, steps).Some?
    ensures Run(st, steps).value.writer == st.writer && Run(st, steps).value.m == st.m
    decreases |steps|
  {
    if steps != [] {
      WriterBlocksExactly(st);
      NextInv(st, steps[0]);
      WriterBlocksExactly(Next(st, steps[0]));
      BlockedForEver(Next(st, steps[0]), steps[1..]);
    }
  }

  /** No wait is ever cancelled in the run. */
  predicate NoneCancels(steps: seq<Step>) { forall i :: 0 <= i < |steps| ==> !steps[i].Cancel? }

  lemma {:induction false} NoneCancelled(st: State, steps: seq<Step>, call: nat)
    requires Run(st, steps).Some? && NoneCancels(steps) && (call in st.waiters ==> !st.waiters[call].Cancelled?)
    ensures call in Run(st, steps).value.waiters ==> !Run(st, steps).value.waiters[call].Cancelled?
    decreases |steps|
  {
    if steps != [] { NoneCancelled(Next(st, steps[0]), steps[1..], call); }
  }

  /** Without cancelled waits the lock is never held for good. */
  lemma WriterNeverBlocks(steps: seq<Step>)
    requires Run(INITIAL, steps).Some? && NoneCancels(steps) && Run(INITIAL, steps).value.writer.Some?
    ensures Enabled(Run(INITIAL, steps).value, SetSend) || Enabled(Run(INITIAL, steps).value, SetEnd)
  {
    var st := Run(INITIAL, steps).value;
    InitialInv();
    RunInv(INITIAL, steps);
    WriterBlocksExactly(st);
    if st.writer.value.remaining != [] { NoneCancelled(INITIAL, steps, st.writer.value.remaining[0]); }
  }

  /** One cancelled wait is enough: the next writer of its key holds the lock from then on. */
  lemma CancelledWaitBlocks(key: nat, item: Item, more: seq<Step>)
    requires var blocked := [Wait(0, key), Cancel(0), SetBegin(key, item)]; Run(INITIAL, blocked + more).Some?
    ensures Run(INITIAL, [Wait(0, key), Cancel(0), SetBegin(key, item)] + more).value.writer == Some(Writer(key, [0]))
  {
    var steps := [Wait(0, key), Cancel(0), SetBegin(key, item)] + more;
    var s1 := Next(INITIAL, steps[0]);
    var s2 := Next(s1, steps[1]);
    var s3 := Next(s2, steps[2]);
    assert steps[1..][1..][1..] == more;
    assert steps[1..][0] == steps[1] && steps[1..][1..][0] == steps[2];
    assert Run(INITIAL, steps) == Run(s1, steps[1..]) == Run(s2, steps[1..][1..]) == Run(s3, more);
    InitialInv();
    NextInv(INITIAL, steps[0]);
    NextInv(s1, steps[1]);
    NextInv(s2, steps[2]);
    assert SubsOf(INITIAL, key) + [0] == [0];
    assert s3.writer == Some(Writer(key, [0])) && s3.waiters[0] == Cancelled(key);
    BlockedForEver(s3, more);
  }

  /** What has been received stays received: every call gets exactly one value. */
  lemma {:induction false} ReceivedOnce(st: State, steps: seq<Step>, call: nat)
    requires Inv(st) && Run(st, steps).Some? && call in st.waiters && st.waiters[call].Received?
    ensures call in Run(st, steps).value.waiters && Run(st, steps).value.waiters[call] == st.waiters[call]
    decreases |steps|
  {
    if steps != [] {
      NextInv(st, steps[0]);
      if steps[0] == SetSend {
        var w := st.writer.value;
        assert w.remaining[0] in Pending(st, w.key);
        assert WaitsFor(st, w.remaining[0], w.key);
      }
      ReceivedOnce(Next(st, steps[0]), steps[1..], call);
    }
  }

  /** The map held this value for the key. */
  predicate HeldNow(st: State, key: nat, item: Item) { key in st.m && st.m[key] == item }

  /** In every interleaving, a call that has received a value got it from the map: after some prefix of
      the run at whose end the call was not yet answered, one step answers it with the entry the map
      then holds. */
  lemma {:induction false} ReceivedWasHeld(steps: seq<Step>, call: nat) returns (k: nat)
    requires Run(INITIAL, steps).Some?
    requires var waiters := Run(INITIAL, steps).value.waiters; call in waiters && waiters[call].Received?
    ensures k < |steps| && Run(INITIAL, steps[..k]).Some? && Run(INITIAL, steps[..k + 1]).Some?
    ensures var before, after := Run(INITIAL, steps[..k]).value, Run(INITIAL, steps[..k + 1]).value;
            var got := Run(INITIAL, steps).value.waiters[call];
            && !(call in before.waiters && before.waiters[call].Received?)
            && (call in before.waiters ==> before.waiters[call] == Waiting(got.key))
            && call in after.waiters && after.waiters[call] == got
            && HeldNow(after, got.key, got.item)
    decreases |steps|
  {
    var rest := steps[..|steps| - 1];
    assert rest + [steps[|steps| - 1]] == steps;
    RunSnoc(INITIAL, rest, steps[|steps| - 1]);
    InitialInv();
    RunInv(INITIAL, rest);
    var before := Run(INITIAL, rest).value;
    if call in before.waiters && before.waiters[call].Received? {
      k := ReceivedWasHeld(rest, call);
      assert rest[..k] == steps[..k] && rest[..k + 1] == steps[..k + 1];
      NextInv(before, steps[|steps| - 1]);
      assert [steps[|steps| - 1]][1..] == [];
      assert Run(before, [steps[|steps| - 1]]) == Some(Next(before, steps[|steps| - 1]));
      ReceivedOnce(before, [steps[|steps| - 1]], call);
    } else {
      k := |steps| - 1;
      assert steps[..k + 1] == steps;
      if steps[k] == SetSend {
        var w := before.writer.value;
        assert w.remaining[0] in Pending(before, w.key);
        assert WaitsFor(before, w.remaining[0], w.key);
      }
    }
  }

  lemma {:induction false} RunSnoc(st: State, steps: seq<Step>, last: Step)
    requires Run(st, steps + [last]).Some?
    ensures Run(st, steps).Some? && Enabled(Run(st, steps).value, last)
    ensures Run(st, steps + [last]).value == Next(Run(st, steps).value, last)
    decreases |steps|
  {
    if steps == [] {
      assert steps + [last] == [last] && [last][1..] == [];
      assert Run(st, [last]) == if Enabled(st, last) then Run(Next(st, last), []) else None;
    } else {
      assert (steps + [last])[1..] == steps[1..] + [last];
      RunSnoc(Next(st, steps[0]), steps[1..], last);
    }
  }

  /** No wake-up is lost: whenever the lock is free, whoever still waits for a key waits because the map
      has no value for it, whatever waits were cancelled before. */
  lemma NoLostWakeup(steps: seq<Step>, call: nat, key: nat)
    requires Run(INITIAL, steps).Some?
    requires var st := Run(INITIAL, steps).value;
             st.writer.None? && call in st.waiters && st.waiters[call] == Waiting(key)
    ensures key !in Run(INITIAL, steps).value.m
  {
    InitialInv();
    RunInv(INITIAL, steps);
    var st := Run(INITIAL, steps).value;
    assert WaitsFor(st, call, key);
    assert key in st.subs;
  }

  /** Delete of a present key always removes it: with the lock free, a key with a value has no
      subscribers that could hold the deletion back. */
  lemma DeleteRemoves(steps: seq<Step>, key: nat)
    requires Run(INITIAL, steps).Some? && Enabled(Run(INITIAL, steps).value, Delete(key))
    ensures key !in Next(Run(INITIAL, steps).value, Delete(key)).m
  {
    InitialInv();
    RunInv(INITIAL, steps);
  }

  // ------------------------------------------------------------ a whole Set

  function Sends(n: nat): seq<Step> {
    if n == 0 then [SetEnd] else [SetSend] + Sends(n - 1)
  }

  /** Everyone who waited for the key has its item. */
  ghost predicate Woken(st: State, calls: seq<nat>, key: nat, item: Item) {
    forall i :: 0 <= i < |calls| ==> calls[i] in st.waiters && st.waiters[calls[i]] == Received(key, item)
  }

  /** None of the calls has been cancelled. */
  ghost predicate AllWaiting(st: State, calls: seq<nat>) {
    forall i :: 0 <= i < |calls| ==> calls[i] in st.waiters && st.waiters[calls[i]].Waiting?
  }

  lemma RestWaits(st: State)
    requires Inv(st) && Enabled(st, SetSend) && AllWaiting(st, st.writer.value.remaining)
    ensures AllWaiting(Next(st, SetSend), Next(st, SetSend).writer.value.remaining)
  {
    assert NoRepeats(Pending(st, st.writer.value.key));
  }

  /** While the lock is held and no wait is cancelled only the writer moves: after as many sends as there are subscribers it
      returns, everyone who waited has the new value, and the key has no subscribers. */
  lemma {:induction false} SetWakesAll(st: State)
    requires Inv(st) && st.writer.Some? && AllWaiting(st, st.writer.value.remaining)
    ensures var w := st.writer.value;
            var run := Run(st, Sends(|w.remaining|));
            && run.Some? && run.value.writer.None? && run.value.m == st.m
            && Woken(run.value, w.remaining, w.key, st.m[w.key])
            && w.key !in run.value.subs
    decreases |st.writer.value.remaining|
  {
    var w := st.writer.value;
    WriterBlocksExactly(st);
    var n := |w.remaining|;
    if n == 0 {
      assert Sends(0)[1..] == [];
      assert Run(Next(st, SetEnd), []) == Some(Next(st, SetEnd));
    } else {
      var next := Next(st, SetSend);
      NextInv(st, SetSend);
      RestWaits(st);
      assert Sends(n)[1..] == Sends(n - 1);
      SetWakesAll(next);
      var last := Run(next, Sends(n - 1)).value;
      RunInv(next, Sends(n - 1));
      ReceivedOnce(next, Sends(n - 1), w.remaining[0]);
      forall i | 0 <= i < n ensures w.remaining[i] in last.waiters && last.waiters[w.remaining[i]] == Received(w.key, st.m[w.key]) {
        if i > 0 { assert w.remaining[1..][i - 1] == w.remaining[i]; }
      }
    }
  }

  // ------------------------------------------------------------ the operations as they are written

  /** A Set that has handed its value to the first i of those who waited. */
  ghost predicate Sending(first: State, begun: State, st: State, key: nat, waiting: seq<nat>, i: nat) {
    && Inv(first) && waiting == SubsOf(first, key) && i <= |waiting|
    && Inv(st) && st.m == begun.m && st.subs == begun.subs && st.writer == Some(Writer(key, waiting[i..]))
    && (forall j :: 0 <= j < i ==> waiting[j] in first.waiters && first.waiters[waiting[j]].Waiting?)
    && (forall j :: i <= j < |waiting| ==> SameWaiter(first, st, waiting[j]))
    && Run(begun, Sends(|waiting|)) == Run(st, Sends(|waiting| - i))
  }

  lemma SendingStarts(first: State, key: nat, value: Item)
    requires Inv(first) && first.writer.None?
    ensures var begun := Next(first, SetBegin(key, value)); Sending(first, begun, begun, key, SubsOf(first, key), 0)
  {
    NextInv(first, SetBegin(key, value));
    assert SubsOf(first, key)[0..] == SubsOf(first, key);
  }

  /** The next one waits, or has been cancelled. */
  lemma SendIsNext(first: State, begun: State, st: State, key: nat, waiting: seq<nat>, i: nat)
    requires Sending(first, begun, st, key, waiting, i) && i < |waiting|
    ensures waiting[i] in st.waiters && !st.waiters[waiting[i]].Received?
    ensures st.waiters[waiting[i]].Cancelled? <==> !Enabled(st, SetSend)
    ensures st.waiters[waiting[i]].Cancelled? ==> !AllWaiting(first, waiting)
  {
    assert waiting[i..][0] == waiting[i];
    assert waiting[i] in Pending(st, key) && WaitsFor(st, waiting[i], key);
    WriterBlocksExactly(st);
    assert SameWaiter(first, st, waiting[i]);
  }

  lemma SendGoesOn(first: State, begun: State, st: State, key: nat, waiting: seq<nat>, i: nat)
    requires Sending(first, begun, st, key, waiting, i) && i < |waiting| && Enabled(st, SetSend)
    ensures Sending(first, begun, Next(st, SetSend), key, waiting, i + 1)
  {
    var st1 := Next(st, SetSend);
    SendIsNext(first, begun, st, key, waiting, i);
    NextInv(st, SetSend);
    assert waiting[i..][1..] == waiting[i + 1..] && waiting[i..][0] == waiting[i];
    assert Sends(|waiting| - i)[1..] == Sends(|waiting| - i - 1);
    assert NoRepeats(Pending(st, key)) && Pending(st, key) == waiting[i..];
    assert SameWaiter(first, st, waiting[i]);
    forall j | i + 1 <= j < |waiting| ensures SameWaiter(first, st1, waiting[j]) {
      assert SameWaiter(first, st, waiting[j]);
      assert waiting[j] == waiting[i..][j - i] != waiting[i..][0];
    }
  }

  lemma SendingEnds(first: State, key: nat, value: Item, st: State)
    requires first.writer.None? && Enabled(first, SetBegin(key, value))
    requires var waiting := SubsOf(first, key); Sending(first, Next(first, SetBegin(key, value)), st, key, waiting, |waiting|)
    ensures var waiting, last := SubsOf(first, key), st.(subs := st.subs - {key}, writer := None);
            && AllWaiting(first, waiting) && Inv(last)
            && Run(first, [SetBegin(key, value)] + Sends(|waiting|)) == Some(last)
            && Woken(last, waiting, key, value)
  {
    var waiting, begun := SubsOf(first, key), Next(first, SetBegin(key, value));
    var steps := [SetBegin(key, value)] + Sends(|waiting|);
    assert Sends(0)[1..] == [] && steps[1..] == Sends(|waiting|);
    assert Run(Next(st, SetEnd), []) == Some(Next(st, SetEnd));
    NextInv(st, SetEnd);
    NextInv(first, SetBegin(key, value));
    assert AllWaiting(begun, waiting);
    SetWakesAll(begun);
  }

  ghost predicate SameWaiter(a: State, b: State, call: nat) {
    (call in a.waiters <==> call in b.waiters) && (call in a.waiters ==> a.waiters[call] == b.waiters[call])
  }

  class AgnosticMap {
    var m: map<nat, Item>
    var subs: map<nat, seq<nat>>
    /** The calls of Wait, at the other ends of the channels. */
    var waiters: map<nat, Waiter>

    ghost function View(): State
      reads this
    {
      State(m, subs, None, waiters)
    }

    ghost predicate Valid()
      reads this
    {
      Inv(View())
    }

    constructor ()
      ensures Valid() && View() == INITIAL
    {
      m, subs, waiters := map[], map[], map[];
    }

    /** Returns if and only if no subscriber has been cancelled; else it keeps the lock. */
    method Set(key: nat, value: Item) returns (done: bool)
      requires Valid()
      modifies this
      ensures done <==> AllWaiting(old(View()), SubsOf(old(View()), key))
      ensures m == old(m)[key := value]
      ensures done ==> Valid() && key !in subs
      ensures done ==> Run(old(View()), [SetBegin(key, value)] + Sends(|SubsOf(old(View()), key)|)) == Some(View())
      ensures done ==> Woken(View(), SubsOf(old(View()), key), key, value)
    {
      ghost var first, begun := View(), Next(View(), SetBegin(key, value));
      m := m[key := value];
      var waiting := if key in subs then subs[key] else [];
      SendingStarts(first, key, value);
      ghost var st := begun;
      for i := 0 to |waiting|
        invariant m == begun.m && subs == begun.subs
        invariant st == State(m, subs, Some(Writer(key, waiting[i..])), waiters)
        invariant Sending(first, begun, st, key, waiting, i)
      {
        SendIsNext(first, begun, st, key, waiting, i);
        if waiters[waiting[i]].Cancelled? { return false; }
        SendGoesOn(first, begun, st, key, waiting, i);
        st := Next(st, SetSend);
        waiters := waiters[waiting[i] := Received(key, m[key])];
      }
      SendingEnds(first, key, value, st);
      subs := subs - {key};
      done := true;
    }

    /** Returns the value, or subscribes the call's channel. */
    method Wait(key: nat, call: nat) returns (item: Option<Item>)
      requires Valid() && call !in waiters
      modifies this
      ensures Valid() && View() == Next(old(View()), Step.Wait(call, key))
      ensures item == if key in m then Some(m[key]) else None
    {
      NextInv(View(), Step.Wait(call, key));
      if key in m {
        waiters := waiters[call := Received(key, m[key])];
        return Some(m[key]);
      }
      subs := subs[key := (if key in subs then subs[key] else []) + [call]];
      waiters := waiters[call := Waiting(key)];
      return None;
    }

    /** The call goes away; its channel stays among the subscribers. */
    method Cancel(call: nat)
      requires Valid() && call in waiters && waiters[call].Waiting?
      modifies this
      ensures Valid() && View() == Next(old(View()), Step.Cancel(call))
      ensures call in SubsOf(View(), old(waiters[call]).key)
    {
      NextInv(View(), Step.Cancel(call));
      assert WaitsFor(View(), call, waiters[call].key);
      waiters := waiters[call := Cancelled(waiters[call].key)];
    }

    method Delete(key: nat)
      requires Valid()
      modifies this
      ensures Valid() && View() == Next(old(View()), Step.Delete(key))
      ensures key !in m
    {
      NextInv(View(), Step.Delete(key));
      var valueExists, subsExist := key in m, key in subs;
      if valueExists && !subsExist {
        assert subs - {key} == subs;
        m := m - {key};
        subs := subs - {key};
      }
    }
  }
}
