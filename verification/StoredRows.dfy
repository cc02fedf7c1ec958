/** Which stored rows a replaced state invalidates. Metrics of a bundle are computed from three
    consecutive states, and each table uses some of them; the rows of a bundle are stored under the
    epoch of one of its states, duties under their slot.

    Bundles read their states one by one and write their tables later; a reorganisation replaces a state
    and deletes rows beside them. */
module StoredRows {
  import opened Chain

  /** Records stands for the tables with any number of rows a bundle: slashings, deposits and consolidations
      processed, and the results of execution-layer requests. */
  datatype Table = Epochs | ProposerDuties | ValidatorRewards | BlockRewards | Records

  /** The tables with one row, or what counts as one here, for each bundle. */
  predicate OneRow(table: Table) { table == Epochs || table == ValidatorRewards }

  /** A row of the bundle whose latest state is of epoch `next`: the one of its epoch metrics, all of its
      validator rewards taken together, one duty of its latest epoch with the slot's place in the epoch and
      the proposer, the reward of one block of the epoch before, or the record at one place (a slot and an
      index, or an epoch and an index). `versions` are the roots of the states it was computed from. */
  datatype Row = Row(table: Table, next: nat, item: nat, validator: nat, versions: map<nat, Bytes>)

  /** The epochs whose states the table uses: validator rewards all three of the bundle, epoch metrics and
      records the last two, duties the last, block rewards the first two. */
  function Uses(table: Table, next: nat): set<nat> {
    if next < 2 then {} else match table {
      case Epochs => {next - 1, next}
      case ProposerDuties => {next}
      case BlockRewards => {next - 2, next - 1}
      case Records => {next - 1, next}
      case ValidatorRewards => {next - 2, next - 1, next}
    }
  }

  /** Rows of complete bundles, with one version per state used; epochs fit uint64. */
  ghost predicate ProperRow(r: Row) {
    && 2 <= r.next && r.next + 2 < U64
    && r.versions.Keys == Uses(r.table, r.next)
    && (r.table == ProposerDuties || r.table == BlockRewards ==> r.item < SLOTS_PER_EPOCH)
    && (r.table != ProposerDuties ==> r.validator == 0)
    && (OneRow(r.table) ==> r.item == 0)
  }

  /** The WHERE clause of a deletion. Epoch metrics are stored under the middle epoch of the bundle and
      rewards under the last; duties are compared by slot / 32 == key, which the database evaluates as a
      division of real numbers. */
  predicate Matches(r: Row, table: Table, key: nat) {
    r.table == table
    && match table {
         case Epochs => r.next == key + 1
         case ValidatorRewards => r.next == key
         case BlockRewards => false
         case Records => false
         case ProposerDuties => (r.next * SLOTS_PER_EPOCH + r.item) as real / 32.0 == key as real
       }
  }

  /** Hence a duty is matched only for the first slot of its epoch. */
  lemma DutyMatches(r: Row, key: nat)
    requires r.table == ProposerDuties && r.item < SLOTS_PER_EPOCH
    ensures Matches(r, ProposerDuties, key) <==> r.next == key && r.item == 0
  {
    assert (r.next * SLOTS_PER_EPOCH + r.item) as real / 32.0 == key as real
           <==> (r.next * SLOTS_PER_EPOCH + r.item) as real == (key * 32) as real;
  }

  /** Computed from the state of this epoch and yet not deleted with it. */
  predicate Overlooked(r: Row, epoch: nat) {
    epoch in Uses(r.table, r.next)
    && (r.table == BlockRewards || r.table == Records || (r.table == ProposerDuties && r.item > 0))
  }

  // ------------------------------------------------------------ the stored tables

  class DBService {
    var rows: set<Row>

    ghost predicate Valid()
      reads this
    {
      forall r :: r in rows ==> ProperRow(r)
    }

    method Delete(table: Table, key: nat)
      modifies this
      ensures rows == set r | r in old(rows) && !Matches(r, table, key)
    {
      rows := set r | r in rows && !Matches(r, table, key);
    }

    /** The six deletions for a replaced state remove the epoch metrics and the validator rewards that were
        computed from it, and the duty of its first slot; no other duty, no block reward, no record, and
        nothing that was not computed from it. */
    method DeleteStateMetrics(epoch: nat)
      requires Valid() && epoch + 2 < U64
      modifies this
      ensures Valid() && rows == Remaining(old(rows), epoch)
    {
      ghost var before := rows;
      Delete(Epochs, Wrap(epoch - 1));
      Delete(Epochs, epoch);
      Delete(ProposerDuties, epoch);
      Delete(ValidatorRewards, epoch + 2);
      Delete(ValidatorRewards, epoch + 1);
      Delete(ValidatorRewards, epoch);
      assert epoch == 0 ==> Wrap(epoch - 1) == Wrap(U64 - 1) == U64 - 1;
      forall r | r in before ensures r in rows <==> epoch !in Uses(r.table, r.next) || Overlooked(r, epoch) {
        assert ProperRow(r);
        if r.table == ProposerDuties { DutyMatches(r, epoch); }
      }
    }
  }

  function Remaining(rows: set<Row>, epoch: nat): set<Row> {
    set r | r in rows && (epoch !in Uses(r.table, r.next) || Overlooked(r, epoch))
  }

  // ------------------------------------------------------------ bundles in flight

  /** How a replacement waits for bundles: the pages it waits for, whether the last look at the book and the
      replacement are one step, and whether an epoch has at most one bundle in flight. */
  datatype Policy = Policy(waits: nat -> set<nat>, atomic: bool, single: bool)

  /** A bundle in flight, with the versions of the states it has read so far. */
  datatype Flight = Flight(next: nat, ready: bool, seen: map<nat, Bytes>)

  /** The tables, the current version of every epoch's state, the bundles in flight, the pages of their
      epochs, the epochs whose wait is over, and those replaced whose rows are still to be deleted. */
  datatype World = World(
    rows: set<Row>, versions: map<nat, Bytes>, flights: map<nat, Flight>, book: set<nat>, cleared: set<nat>, due: set<nat>)

  datatype Step =
    | Arrive(epoch: nat, version: Bytes)     // a state enters the cache for the first time
    | Begin(id: nat, next: nat)              // a bundle enters the page of its epoch
    | Pass(id: nat)                          // and finds no page of the epoch before
    | Read(id: nat, epoch: nat)              // takes one of its three states from the cache
    | Write(id: nat, next: nat, table: Table, content: seq<nat>)    // and writes the rows of one table
    | End(id: nat)                           // frees the page
    | Check(epoch: nat)                      // a replacement sees none of the pages it waits for
    | Swap(epoch: nat, version: Bytes)       // another version is cached
    | Delete(epoch: nat)                     // the rows of the epoch's state are deleted

  /** The states of a bundle. */
  function Needs(next: nat): set<nat> { if next < 2 then {} else {next - 2, next - 1, next} }

  predicate Enabled(p: Policy, w: World, step: Step) {
    match step {
      case Arrive(epoch, _) => epoch !in w.versions
      case Begin(id, next) => id !in w.flights && 2 <= next && next + 2 < U64 && (p.single ==> next !in w.book)
      case Pass(id) => id in w.flights && (w.flights[id].next > 0 ==> w.flights[id].next - 1 !in w.book)
      case Read(id, epoch) =>
        && id in w.flights && w.flights[id].ready && epoch in Needs(w.flights[id].next)
        && epoch !in w.flights[id].seen && epoch in w.versions
      case Write(id, next, table, content) =>
        && id in w.flights && w.flights[id].next == next && w.flights[id].seen.Keys == Needs(next)
        && (table != Records ==> |content| == SLOTS_PER_EPOCH)
      case End(id) => id in w.flights
      case Check(epoch) => p.waits(epoch) !! w.book
      case Swap(epoch, version) =>
        && epoch in w.versions && w.versions[epoch] != version && epoch + 2 < U64
        && if p.atomic then p.waits(epoch) !! w.book else epoch in w.cleared
      case Delete(epoch) => epoch + 2 < U64
    }
  }

  function VersionsUsed(table: Table, next: nat, seen: map<nat, Bytes>): map<nat, Bytes> {
    map e | e in Uses(table, next) && e in seen :: seen[e]
  }

  /** The rows that a bundle writes to a table: of duties the content is the slots' proposers, of records
      their places. */
  function TableRows(table: Table, next: nat, content: seq<nat>, seen: map<nat, Bytes>): set<Row> {
    if table == ProposerDuties then
      set item | 0 <= item < |content| :: Row(table, next, item, content[item], VersionsUsed(table, next, seen))
    else if table == BlockRewards then
      set item | 0 <= item < SLOTS_PER_EPOCH :: Row(table, next, item, 0, VersionsUsed(table, next, seen))
    else if table == Records then
      set k | 0 <= k < |content| :: Row(table, next, content[k], 0, VersionsUsed(table, next, seen))
    else {Row(table, next, 0, 0, VersionsUsed(table, next, seen))}
  }

  /** Rows that the database keeps as one: the last one written stays. */
  predicate SameKey(r: Row, s: Row) { r.table == s.table && r.next == s.next && r.item == s.item && r.validator == s.validator }

  function Stored(rows: set<Row>, more: set<Row>): set<Row> {
    more + set r | r in rows && forall s :: s in more ==> !SameKey(r, s)
  }

  function Next(p: Policy, w: World, step: Step): World
    requires Enabled(p, w, step)
  {
    match step {
      case Arrive(epoch, version) => w.(versions := w.versions[epoch := version])
      case Begin(id, next) => w.(flights := w.flights[id := Flight(next, false, map[])], book := w.book + {next})
      case Pass(id) => w.(flights := w.flights[id := w.flights[id].(ready := true)])
      case Read(id, epoch) =>
        w.(flights := w.flights[id := w.flights[id].(seen := w.flights[id].seen[epoch := w.versions[epoch]])])
      case Write(id, next, table, content) => w.(rows := Stored(w.rows, TableRows(table, next, content, w.flights[id].seen)))
      case End(id) => w.(flights := w.flights - {id}, book := w.book - {w.flights[id].next})
      case Check(epoch) => w.(cleared := w.cleared + {epoch})
      case Swap(epoch, version) =>
        w.(versions := w.versions[epoch := version], cleared := w.cleared - {epoch}, due := w.due + {epoch})
      case Delete(epoch) => w.(rows := Remaining(w.rows, epoch), due := w.due - {epoch})
    }
  }

  function Run(p: Policy, w: World, steps: seq<Step>): Option<World>
    decreases |steps|
  {
    if steps == [] then Some(w)
    else if Enabled(p, w, steps[0]) then Run(p, Next(p, w, steps[0]), steps[1..])
    else None
  }

  function CountOf(steps: seq<Step>, swaps: bool, epoch: nat): nat {
    if steps == [] then 0
    else
      var here := if swaps then steps[0].Swap? && steps[0].epoch == epoch else steps[0] == Check(epoch);
      (if here then 1 else 0) + CountOf(steps[1..], swaps, epoch)
  }

  /** Where the replacement is a step of its own, each has a check of its own before it. */
  lemma {:induction false} SwapsAreChecked(p: Policy, w: World, steps: seq<Step>, epoch: nat)
    requires !p.atomic && Run(p, w, steps).Some?
    ensures CountOf(steps, true, epoch) <= CountOf(steps, false, epoch) + if epoch in w.cleared then 1 else 0
    decreases |steps|
  {
    if steps != [] { SwapsAreChecked(p, Next(p, w, steps[0]), steps[1..], epoch); }
  }

  /** Computed from what are the current versions of its states. */
  ghost predicate Fresh(r: Row, versions: map<nat, Bytes>) {
    forall e :: e in r.versions ==> e in versions && versions[e] == r.versions[e]
  }

  /** What stored rows and bundles in flight know of: states that have arrived. */
  ghost predicate Known(w: World) {
    && (forall r :: r in w.rows ==> ProperRow(r) && r.versions.Keys <= w.versions.Keys)
    && forall id :: id in w.flights ==> KnownFlight(w.flights[id], w.versions)
  }

  ghost predicate KnownFlight(f: Flight, versions: map<nat, Bytes>) {
    2 <= f.next && f.next + 2 < U64 && f.seen.Keys <= Needs(f.next) && f.seen.Keys <= versions.Keys
  }

  lemma ProperRows(table: Table, next: nat, content: seq<nat>, seen: map<nat, Bytes>, r: Row)
    requires 2 <= next && next + 2 < U64 && seen.Keys == Needs(next) && (table != Records ==> |content| == SLOTS_PER_EPOCH)
    requires r in TableRows(table, next, content, seen)
    ensures ProperRow(r) && r.table == table && r.next == next && r.versions.Keys <= seen.Keys
  {
    assert Uses(table, next) <= Needs(next);
  }

  lemma NextKnown(p: Policy, w: World, step: Step)
    requires Known(w) && Enabled(p, w, step)
    ensures Known(Next(p, w, step))
  {
    if step.Write? {
      var f := w.flights[step.id];
      forall r | r in TableRows(step.table, step.next, step.content, f.seen)
        ensures ProperRow(r) && r.versions.Keys <= w.versions.Keys
      {
        assert KnownFlight(f, w.versions);
        ProperRows(step.table, step.next, step.content, f.seen, r);
      }
    }
  }

  // ------------------------------------------------------------ what is stored at the end of a run

  /** The step writes this very row. */
  predicate Writes(w: World, step: Step, r: Row) {
    && step.Write? && step.id in w.flights
    && r in TableRows(step.table, step.next, step.content, w.flights[step.id].seen)
  }

  /** The step removes the row or writes over it. What a deletion overlooks is only written over: a duty by
      one that names the same proposer for its slot, a record by one at the same place. */
  predicate Removes(step: Step, r: Row) {
    match step {
      case Delete(epoch) => epoch in Uses(r.table, r.next) && !Overlooked(r, epoch)
      case Write(_, next, table, content) =>
        && table == r.table && next == r.next
        && (table == ProposerDuties ==> r.item < |content| && content[r.item] == r.validator)
        && (table == Records ==> r.item in content)
      case _ => false
    }
  }

  predicate NoneRemoves(steps: seq<Step>, r: Row) { forall i :: 0 <= i < |steps| ==> !Removes(steps[i], r) }

  /** Some step writes the row and no later one removes it. */
  predicate WrittenAndKept(p: Policy, w: World, steps: seq<Step>, r: Row)
    decreases |steps|
  {
    && steps != [] && Enabled(p, w, steps[0])
    && (|| (Writes(w, steps[0], r) && NoneRemoves(steps[1..], r))
        || WrittenAndKept(p, Next(p, w, steps[0]), steps[1..], r))
  }

  lemma WriteKeeps(rows: set<Row>, step: Step, seen: map<nat, Bytes>, r: Row)
    requires step.Write? && 2 <= step.next && step.next + 2 < U64
    requires seen.Keys == Needs(step.next) && (step.table != Records ==> |step.content| == SLOTS_PER_EPOCH) && ProperRow(r)
    ensures var more := TableRows(step.table, step.next, step.content, seen);
            r in Stored(rows, more) <==> r in more || (r in rows && !Removes(step, r))
  {
    var more := TableRows(step.table, step.next, step.content, seen);
    if Removes(step, r) {
      var s := Row(r.table, r.next, r.item, r.validator, VersionsUsed(r.table, r.next, seen));
      assert s in more && SameKey(r, s);
    } else {
      forall s | s in more ensures !SameKey(r, s) {
      }
    }
  }

  lemma StepKeeps(p: Policy, w: World, step: Step, r: Row)
    requires Known(w) && Enabled(p, w, step) && ProperRow(r)
    ensures r in Next(p, w, step).rows <==> Writes(w, step, r) || (r in w.rows && !Removes(step, r))
  {
    if step.Write? {
      assert KnownFlight(w.flights[step.id], w.versions);
      WriteKeeps(w.rows, step, w.flights[step.id].seen, r);
    }
  }

  /** At the end of every run, a row is stored if and only if it was stored or has been written, and no
      later step has removed it. */
  lemma {:induction false} StoredExactly(p: Policy, w: World, steps: seq<Step>, r: Row)
    requires Known(w) && Run(p, w, steps).Some? && ProperRow(r)
    ensures r in Run(p, w, steps).value.rows
            <==> (r in w.rows && NoneRemoves(steps, r)) || WrittenAndKept(p, w, steps, r)
    decreases |steps|
  {
    if steps != [] {
      var w1 := Next(p, w, steps[0]);
      NextKnown(p, w, steps[0]);
      StepKeeps(p, w, steps[0], r);
      StoredExactly(p, w1, steps[1..], r);
      assert NoneRemoves(steps, r) <==> !Removes(steps[0], r) && NoneRemoves(steps[1..], r) by {
        assert steps == [steps[0]] + steps[1..];
      }
    }
  }

  // ------------------------------------------------------------ stale epoch and reward rows

  /** A row that is stale and that no deletion still to come would remove. */
  ghost predicate Stays(w: World, r: Row) {
    r in w.rows && !Fresh(r, w.versions) && Uses(r.table, r.next) !! w.due
  }

  ghost predicate StaleStays(w: World, table: Table, next: nat) {
    exists r :: Stays(w, r) && r.table == table && r.next == next
  }

  /** The step writes a row of the table from a state that has been replaced, and whose rows have been
      deleted, since the bundle read it. */
  ghost predicate Late(w: World, step: Step, table: Table, next: nat) {
    && step.Write? && step.table == table && step.next == next && step.id in w.flights
    && Uses(table, next) !! w.due
    && exists e :: e in VersionsUsed(table, next, w.flights[step.id].seen)
                   && (e !in w.versions || w.versions[e] != w.flights[step.id].seen[e])
  }

  /** The step rewrites the row, deletes it, or replaces a state it was computed from. */
  predicate Clears(step: Step, table: Table, next: nat) {
    match step {
      case Swap(epoch, _) => epoch in Uses(table, next)
      case Delete(epoch) => epoch in Uses(table, next)
      case Write(_, n, t, _) => t == table && n == next
      case _ => false
    }
  }

  predicate NoneClears(steps: seq<Step>, table: Table, next: nat) { forall i :: 0 <= i < |steps| ==> !Clears(steps[i], table, next) }

  /** Some write is late and no later step clears the row. */
  ghost predicate LateWriteStays(p: Policy, w: World, steps: seq<Step>, table: Table, next: nat)
    decreases |steps|
  {
    && steps != [] && Enabled(p, w, steps[0])
    && (|| (Late(w, steps[0], table, next) && NoneClears(steps[1..], table, next))
        || LateWriteStays(p, Next(p, w, steps[0]), steps[1..], table, next))
  }

  lemma WriteStays(p: Policy, w: World, step: Step, table: Table, next: nat)
    requires Known(w) && Enabled(p, w, step) && OneRow(table)
    requires step.Write? && step.table == table && step.next == next
    ensures StaleStays(Next(p, w, step), table, next) <==> Late(w, step, table, next)
  {
    var f, w1 := w.flights[step.id], Next(p, w, step);
    assert KnownFlight(f, w.versions);
    var s := Row(table, next, 0, 0, VersionsUsed(table, next, f.seen));
    forall r | r in w1.rows && r.table == table && r.next == next ensures r == s {
      assert ProperRow(r) by { NextKnown(p, w, step); }
      WriteKeeps(w.rows, step, f.seen, r);
    }
    assert s in w1.rows;
    assert StaleStays(w1, table, next) <==> Stays(w1, s);
  }

  lemma OtherStepStays(p: Policy, w: World, step: Step, r: Row)
    requires Known(w) && Enabled(p, w, step) && OneRow(r.table)
    requires !(step.Write? && step.table == r.table && step.next == r.next)
    ensures Stays(Next(p, w, step), r) <==> Stays(w, r) && !Clears(step, r.table, r.next)
  {
    if r in w.rows || r in Next(p, w, step).rows {
      assert ProperRow(r) by { NextKnown(p, w, step); }
      StepKeeps(p, w, step, r);
      assert !Writes(w, step, r);
      assert Removes(step, r) ==> step.Delete? && step.epoch in Uses(r.table, r.next);
    }
  }

  lemma StepStays(p: Policy, w: World, step: Step, table: Table, next: nat)
    requires Known(w) && Enabled(p, w, step) && OneRow(table)
    ensures StaleStays(Next(p, w, step), table, next)
            <==> Late(w, step, table, next) || (StaleStays(w, table, next) && !Clears(step, table, next))
  {
    if step.Write? && step.table == table && step.next == next {
      WriteStays(p, w, step, table, next);
    } else {
      forall r: Row | r.table == table && r.next == next
        ensures Stays(Next(p, w, step), r) <==> Stays(w, r) && !Clears(step, table, next)
      {
        OtherStepStays(p, w, step, r);
      }
    }
  }

  lemma {:induction false} RunStays(p: Policy, w: World, steps: seq<Step>, table: Table, next: nat)
    requires Known(w) && Run(p, w, steps).Some? && OneRow(table)
    ensures StaleStays(Run(p, w, steps).value, table, next)
            <==> (StaleStays(w, table, next) && NoneClears(steps, table, next)) || LateWriteStays(p, w, steps, table, next)
    decreases |steps|
  {
    if steps != [] {
      NextKnown(p, w, steps[0]);
      StepStays(p, w, steps[0], table, next);
      RunStays(p, Next(p, w, steps[0]), steps[1..], table, next);
      assert NoneClears(steps, table, next) <==> !Clears(steps[0], table, next) && NoneClears(steps[1..], table, next) by {
        assert steps == [steps[0]] + steps[1..];
      }
    }
  }

  /** Nothing in flight or in progress, and every stored row computed from current states. */
  ghost predicate Clean(w: World) {
    && Known(w) && w.flights == map[] && w.book == {} && w.cleared == {} && w.due == {}
    && forall r :: r in w.rows ==> Fresh(r, w.versions)
  }

  /** The run ends with every deletion made. */
  ghost predicate Complete(p: Policy, w: World, steps: seq<Step>) { Run(p, w, steps).Some? && Run(p, w, steps).value.due == {} }

  /** After a complete run, a stale epoch or reward row is stored if and only if some write of it was late
      and no later step cleared it. */
  lemma StaleExactly(p: Policy, w: World, steps: seq<Step>, table: Table, next: nat)
    requires Clean(w) && Complete(p, w, steps) && OneRow(table)
    ensures (exists r :: r in Run(p, w, steps).value.rows && r.table == table && r.next == next
                         && !Fresh(r, Run(p, w, steps).value.versions))
            <==> LateWriteStays(p, w, steps, table, next)
  {
    var end := Run(p, w, steps).value;
    RunStays(p, w, steps, table, next);
    assert !StaleStays(w, table, next);
    forall r | r in end.rows && r.table == table && r.next == next && !Fresh(r, end.versions) ensures Stays(end, r) {
    }
  }

  // ------------------------------------------------------------ which waits are enough

  /** No complete run leaves a stale epoch or reward row. */
  ghost predicate Safe(p: Policy) {
    forall w, steps, r ::
      Clean(w) && Complete(p, w, steps) && r in Run(p, w, steps).value.rows && OneRow(r.table) ==>
        Fresh(r, Run(p, w, steps).value.versions)
  }

  /** A replacement waits for every bundle that reads the state: its own epoch's and those of the next two. */
  ghost predicate Covers(waits: nat -> set<nat>) {
    forall epoch: nat, next: nat {:trigger next in waits(epoch)} ::
      2 <= next && next + 2 < U64 && epoch <= next <= epoch + 2 ==> next in waits(epoch)
  }

  /** Bundles in flight hold pages of their own, and current versions; rows are fresh or to be deleted. */
  ghost predicate Settled(w: World) {
    && Known(w)
    && (forall id :: id in w.flights ==> w.flights[id].next in w.book && UpToDate(w.flights[id], w.versions))
    && (forall i, j :: i in w.flights && j in w.flights && w.flights[i].next == w.flights[j].next ==> i == j)
    && forall r :: Stays(w, r) ==> !OneRow(r.table)
  }

  ghost predicate UpToDate(f: Flight, versions: map<nat, Bytes>) {
    forall e :: e in f.seen ==> e in versions && versions[e] == f.seen[e]
  }

  lemma SwapFindsNoReader(p: Policy, w: World, step: Step, id: nat)
    requires p.atomic && Covers(p.waits) && Settled(w) && step.Swap? && Enabled(p, w, step) && id in w.flights
    ensures step.epoch !in w.flights[id].seen
  {
    var f := w.flights[id];
    assert KnownFlight(f, w.versions);
    assert f.next in w.book && f.next !in p.waits(step.epoch);
  }

  lemma NeverLate(w: World, step: Step, table: Table, next: nat)
    requires Settled(w)
    ensures !Late(w, step, table, next)
  {
    if step.Write? && step.id in w.flights { assert UpToDate(w.flights[step.id], w.versions); }
  }

  lemma NextSettled(p: Policy, w: World, step: Step)
    requires p.atomic && p.single && Covers(p.waits) && Settled(w) && Enabled(p, w, step)
    ensures Settled(Next(p, w, step))
  {
    var w1 := Next(p, w, step);
    NextKnown(p, w, step);
    FlightsSettled(p, w, step);
    forall r | Stays(w1, r) ensures !OneRow(r.table) {
      if OneRow(r.table) {
        StepStays(p, w, step, r.table, r.next);
        NeverLate(w, step, r.table, r.next);
      }
    }
  }

  lemma FlightsSettled(p: Policy, w: World, step: Step)
    requires p.atomic && p.single && Covers(p.waits) && Settled(w) && Enabled(p, w, step)
    ensures var w1 := Next(p, w, step);
            && (forall id :: id in w1.flights ==> w1.flights[id].next in w1.book && UpToDate(w1.flights[id], w1.versions))
            && (forall i, j :: i in w1.flights && j in w1.flights && w1.flights[i].next == w1.flights[j].next ==> i == j)
  {
    if step.Swap? {
      forall id | id in w.flights ensures step.epoch !in w.flights[id].seen {
        SwapFindsNoReader(p, w, step, id);
      }
    }
  }

  lemma {:induction false} RunSettled(p: Policy, w: World, steps: seq<Step>)
    requires p.atomic && p.single && Covers(p.waits) && Settled(w) && Run(p, w, steps).Some?
    ensures Settled(Run(p, w, steps).value)
    decreases |steps|
  {
    if steps != [] {
      NextSettled(p, w, steps[0]);
      RunSettled(p, Next(p, w, steps[0]), steps[1..]);
    }
  }

  lemma {:induction false} RunAppend(p: Policy, w: World, a: seq<Step>, b: seq<Step>)
    requires Run(p, w, a).Some?
    ensures Run(p, w, a + b) == Run(p, Run(p, w, a).value, b)
    decreases |a|
  {
    if a == [] {
      assert a + b == b;
    } else {
      assert (a + b)[1..] == a[1..] + b;
      RunAppend(p, Next(p, w, a[0]), a[1..], b);
    }
  }

  lemma RunTwo(p: Policy, w: World, a: Step, b: Step)
    requires Enabled(p, w, a) && Enabled(p, Next(p, w, a), b)
    ensures Run(p, w, [a, b]) == Some(Next(p, Next(p, w, a), b))
  {
    var w1 := Next(p, w, a);
    assert [a, b][1..] == [b] && [b][1..] == [] && [a, b][0] == a && [b][0] == b;
    assert Run(p, w1, [b]) == Run(p, Next(p, w1, b), []);
  }

  function Nobody(): seq<nat> { seq(SLOTS_PER_EPOCH, _ => 0) }

  /** The states of a bundle have arrived; no rows yet. */
  function Before(n: nat, cleared: set<nat>): World
    requires n >= 2
  {
    World({}, map[n - 2 := "a", n - 1 := "a", n := "a"], map[], {}, cleared, {})
  }

  /** The bundle holds its page and has read some of the three. */
  function Holding(n: nat, ready: bool, seen: map<nat, Bytes>, cleared: set<nat>, book: set<nat>): World
    requires n >= 2
  {
    Before(n, cleared).(flights := map[0 := Flight(n, ready, seen)], book := book)
  }

  function HasRead(n: nat, cleared: set<nat>, book: set<nat>): World
    requires n >= 2
  {
    Holding(n, true, Before(n, cleared).versions, cleared, book)
  }

  function Reads(n: nat): seq<Step>
    requires n >= 2
  {
    [Begin(0, n), Pass(0)] + ([Read(0, n - 2), Read(0, n - 1)] + [Read(0, n)])
  }

  lemma BundleBegins(p: Policy, n: nat, cleared: set<nat>)
    requires 2 <= n && n + 2 < U64
    ensures Run(p, Before(n, cleared), [Begin(0, n), Pass(0)]) == Some(Holding(n, true, map[], cleared, {n}))
  {
    var w := Before(n, cleared);
    assert w.book + {n} == {n};
    assert Next(p, w, Begin(0, n)) == Holding(n, false, map[], cleared, {n});
    var held := Holding(n, false, map[], cleared, {n});
    assert held.flights[0 := held.flights[0].(ready := true)] == map[0 := Flight(n, true, map[])];
    assert Next(p, held, Pass(0)) == Holding(n, true, map[], cleared, {n});
    RunTwo(p, w, Begin(0, n), Pass(0));
  }

  lemma BundleReadsOne(p: Policy, n: nat, e: nat, seen: map<nat, Bytes>, cleared: set<nat>)
    requires 2 <= n && e in Needs(n) && e !in seen
    ensures var w := Holding(n, true, seen, cleared, {n});
            Enabled(p, w, Read(0, e)) && Next(p, w, Read(0, e)) == Holding(n, true, seen[e := "a"], cleared, {n})
  {
    var w := Holding(n, true, seen, cleared, {n});
    assert w.flights[0 := w.flights[0].(seen := seen[e := "a"])] == map[0 := Flight(n, true, seen[e := "a"])];
  }

  lemma BundleReads(p: Policy, n: nat, cleared: set<nat>)
    requires 2 <= n && n + 2 < U64
    ensures Run(p, Before(n, cleared), Reads(n)) == Some(HasRead(n, cleared, {n}))
  {
    var w1 := Holding(n, true, map[], cleared, {n});
    var w2 := Holding(n, true, map[n - 2 := "a", n - 1 := "a"], cleared, {n});
    BundleBegins(p, n, cleared);
    BundleReadsOne(p, n, n - 2, map[], cleared);
    BundleReadsOne(p, n, n - 1, map[n - 2 := "a"], cleared);
    BundleReadsOne(p, n, n, map[n - 2 := "a", n - 1 := "a"], cleared);
    RunTwo(p, w1, Read(0, n - 2), Read(0, n - 1));
    assert [Read(0, n)][1..] == [];
    assert Run(p, w2, [Read(0, n)]) == Some(HasRead(n, cleared, {n}));
    RunAppend(p, w1, [Read(0, n - 2), Read(0, n - 1)], [Read(0, n)]);
    RunAppend(p, Before(n, cleared), [Begin(0, n), Pass(0)], [Read(0, n - 2), Read(0, n - 1)] + [Read(0, n)]);
  }

  /** The state of epoch e is replaced under the bundle that has read it, which writes its rewards last. */
  function Overtaking(e: nat, n: nat): seq<Step> {
    [Swap(e, "b"), Delete(e)] + [Write(0, n, ValidatorRewards, Nobody()), End(0)]
  }

  lemma OvertakenWritesStale(p: Policy, e: nat, n: nat, cleared: set<nat>, book: set<nat>)
    requires 2 <= n && n + 2 < U64 && e <= n <= e + 2
    requires Enabled(p, HasRead(n, cleared, book), Swap(e, "b"))
    ensures var end := Run(p, HasRead(n, cleared, book), Overtaking(e, n));
            && end.Some? && end.value.due == {} && end.value.flights == map[]
            && exists r :: r in end.value.rows && r.table == ValidatorRewards && !Fresh(r, end.value.versions)
  {
    var w := HasRead(n, cleared, book);
    RunTwo(p, w, Swap(e, "b"), Delete(e));
    var w1 := Next(p, Next(p, w, Swap(e, "b")), Delete(e));
    var write := Write(0, n, ValidatorRewards, Nobody());
    assert w1.rows == {} && w1.flights == w.flights && w1.due == {} && w1.versions[e] == "b";
    assert Enabled(p, w1, write);
    var w2 := Next(p, w1, write);
    RunTwo(p, w1, write, End(0));
    RunAppend(p, w, [Swap(e, "b"), Delete(e)], [write, End(0)]);
    var r := Row(ValidatorRewards, n, 0, 0, VersionsUsed(ValidatorRewards, n, w1.flights[0].seen));
    assert r in w2.rows && r.versions[e] == "a" && e in r.versions;
    assert "a" != "b" by { assert "a"[0] != "b"[0]; }
    assert !Fresh(r, w2.versions);
    assert r in Next(p, w2, End(0)).rows;
  }

  lemma RefutesSafe(p: Policy, w: World, steps: seq<Step>, end: World)
    requires Clean(w) && Run(p, w, steps) == Some(end) && end.due == {}
    requires exists r :: r in end.rows && r.table == ValidatorRewards && !Fresh(r, end.versions)
    ensures !Safe(p)
  {
    var r :| r in end.rows && r.table == ValidatorRewards && !Fresh(r, end.versions);
    assert Complete(p, w, steps);
    assert !Fresh(r, Run(p, w, steps).value.versions);
  }

  lemma {:induction false} UncoveredIsUnsafe(p: Policy, e: nat, n: nat)
    requires p.atomic && 2 <= n && n + 2 < U64 && e <= n <= e + 2 && n !in p.waits(e)
    ensures !Safe(p)
  {
    BundleReads(p, n, {});
    OvertakenWritesStale(p, e, n, {}, {n});
    RunAppend(p, Before(n, {}), Reads(n), Overtaking(e, n));
    RefutesSafe(p, Before(n, {}), Reads(n) + Overtaking(e, n), Run(p, HasRead(n, {}, {n}), Overtaking(e, n)).value);
  }

  /** A second bundle of the same epoch frees the page they share. */
  lemma SharedPageIsUnsafe(p: Policy)
    requires p.atomic && !p.single
    ensures !Safe(p)
  {
    var w, mid := Before(2, {}), [Begin(1, 2), End(1)];
    BundleReads(p, 2, {});
    var w1 := HasRead(2, {}, {2});
    RunTwo(p, w1, Begin(1, 2), End(1));
    assert Next(p, Next(p, w1, Begin(1, 2)), End(1)) == HasRead(2, {}, {});
    OvertakenWritesStale(p, 2, 2, {}, {});
    RunAppend(p, w1, mid, Overtaking(2, 2));
    RunAppend(p, w, Reads(2), mid + Overtaking(2, 2));
    RefutesSafe(p, w, Reads(2) + (mid + Overtaking(2, 2)), Run(p, HasRead(2, {}, {}), Overtaking(2, 2)).value);
  }

  /** The bundle begins after the wait is over and before the state is replaced. */
  lemma EarlyCheckIsUnsafe(p: Policy)
    requires !p.atomic
    ensures !Safe(p)
  {
    var w := Before(2, {});
    assert [Check(2)][1..] == [];
    assert Next(p, w, Check(2)) == Before(2, {2});
    assert Run(p, w, [Check(2)]) == Some(Before(2, {2}));
    BundleReads(p, 2, {2});
    OvertakenWritesStale(p, 2, 2, {2}, {2});
    RunAppend(p, Before(2, {2}), Reads(2), Overtaking(2, 2));
    RunAppend(p, w, [Check(2)], Reads(2) + Overtaking(2, 2));
    RefutesSafe(p, w, [Check(2)] + (Reads(2) + Overtaking(2, 2)), Run(p, HasRead(2, {2}, {2}), Overtaking(2, 2)).value);
  }

  /** No complete run leaves a stale epoch or reward row if and only if the last look at the book and the
      replacement are one step, an epoch has at most one bundle in flight, and the wait covers all three
      bundles that read the state. */
  lemma SafeExactly(p: Policy)
    ensures Safe(p) <==> p.atomic && p.single && Covers(p.waits)
  {
    if p.atomic && p.single && Covers(p.waits) {
      forall w, steps, r | Clean(w) && Complete(p, w, steps) && r in Run(p, w, steps).value.rows && OneRow(r.table)
        ensures Fresh(r, Run(p, w, steps).value.versions)
      {
        RunSettled(p, w, steps);
        assert !Stays(Run(p, w, steps).value, r);
      }
    } else if !p.atomic {
      EarlyCheckIsUnsafe(p);
    } else if !p.single {
      SharedPageIsUnsafe(p);
    } else {
      var e: nat, n: nat :| 2 <= n && n + 2 < U64 && e <= n <= e + 2 && n !in p.waits(e);
      UncoveredIsUnsafe(p, e, n);
    }
  }

  /** The reorg handler: it looks for the page of the number of the epoch's last slot, and the replacement
      is a later step. */
  function HandleReorg(): Policy { Policy((e: nat) => {LastSlotOf(e)}, false, false) }

  /** A wait for the page of the replaced epoch alone, at its best. */
  function OwnEpochOnly(): Policy { Policy((e: nat) => {e}, true, true) }

  /** The run that the handler's wait does not prevent: the bundle of epoch 3 has read the state of epoch 2
      when the handler checks, replaces and deletes, and writes its rewards afterwards. */
  lemma ReorgStaleRun()
    ensures var steps := Reads(3) + ([Check(2)] + Overtaking(2, 3));
            var end := Run(HandleReorg(), Before(3, {}), steps);
            && Clean(Before(3, {})) && end.Some? && end.value.due == {} && end.value.flights == map[]
            && exists r :: r in end.value.rows && r.table == ValidatorRewards && !Fresh(r, end.value.versions)
  {
    var p := HandleReorg();
    BundleReads(p, 3, {});
    assert [Check(2)][1..] == [];
    assert Next(p, HasRead(3, {}, {3}), Check(2)) == HasRead(3, {2}, {3});
    assert Run(p, HasRead(3, {}, {3}), [Check(2)]) == Some(HasRead(3, {2}, {3}));
    OvertakenWritesStale(p, 2, 3, {2}, {3});
    RunAppend(p, HasRead(3, {}, {3}), [Check(2)], Overtaking(2, 3));
    RunAppend(p, Before(3, {}), Reads(3), [Check(2)] + Overtaking(2, 3));
  }

  /** Neither the handler's wait nor one for the page of the replaced epoch alone is enough. */
  lemma OwnEpochIsNotEnough()
    ensures !Safe(HandleReorg()) && !Safe(OwnEpochOnly())
  {
    SafeExactly(HandleReorg());
    SafeExactly(OwnEpochOnly());
    assert 3 !in OwnEpochOnly().waits(2);
  }

  // ------------------------------------------------------------ a replacement and its own bundle

  /** A bundle writes its duties, its last state is replaced, and the duties are written again: the old duty
      of the k-th slot is still stored if and only if the slot is not the first of the epoch and the new
      state names another proposer for it. */
  lemma StaleDutyStaysExactly(
      rows: set<Row>, next: nat, proposers: seq<nat>, seen: map<nat, Bytes>, others: seq<nat>, seenAgain: map<nat, Bytes>, k: nat)
    requires next >= 2 && next in seen && next in seenAgain && seen[next] != seenAgain[next]
    requires |proposers| == SLOTS_PER_EPOCH == |others| && k < SLOTS_PER_EPOCH
    ensures var again := Stored(Remaining(Stored(rows, TableRows(ProposerDuties, next, proposers, seen)), next),
                                TableRows(ProposerDuties, next, others, seenAgain));
            Row(ProposerDuties, next, k, proposers[k], VersionsUsed(ProposerDuties, next, seen)) in again
            <==> k > 0 && proposers[k] != others[k]
  {
    var written := Stored(rows, TableRows(ProposerDuties, next, proposers, seen));
    var more := TableRows(ProposerDuties, next, others, seenAgain);
    var duty := Row(ProposerDuties, next, k, proposers[k], VersionsUsed(ProposerDuties, next, seen));
    var again := Row(ProposerDuties, next, k, others[k], VersionsUsed(ProposerDuties, next, seenAgain));
    assert duty in written && (duty in Remaining(written, next) <==> k > 0);
    assert again in more && next in duty.versions && next in again.versions;
    assert duty.versions[next] != again.versions[next];
    assert duty !in more;
    if proposers[k] == others[k] { assert SameKey(duty, again); }
  }

  /** Concretely: the state of epoch 2 named validator 7 for slot 65, the one that replaces it names 8. */
  lemma StaleDutyCounterexample()
    ensures var sevens, eights := seq(SLOTS_PER_EPOCH, _ => 7), seq(SLOTS_PER_EPOCH, _ => 8);
            var again := Stored(Remaining(TableRows(ProposerDuties, 2, sevens, map[2 := "a"]), 2),
                                TableRows(ProposerDuties, 2, eights, map[2 := "b"]));
            exists r :: r in again && r.next * SLOTS_PER_EPOCH + r.item == 65 && !Fresh(r, map[2 := "b"])
  {
    var sevens: seq<nat>, eights: seq<nat> := seq(SLOTS_PER_EPOCH, _ => 7), seq(SLOTS_PER_EPOCH, _ => 8);
    assert "a" != "b" by { assert "a"[0] != "b"[0]; }
    StaleDutyStaysExactly({}, 2, sevens, map[2 := "a"], eights, map[2 := "b"], 1);
    var first := TableRows(ProposerDuties, 2, sevens, map[2 := "a"]);
    assert Stored({}, first) == first;
    var r := Row(ProposerDuties, 2, 1, 7, VersionsUsed(ProposerDuties, 2, map[2 := "a"]));
    assert 2 in r.versions && r.versions[2] == "a";
  }

  /** A bundle writes its records, one of its states is replaced, and the records are written again: an old
      record is still stored if and only if none is written at its place. */
  lemma StaleRecordStaysExactly(
      rows: set<Row>, epoch: nat, next: nat, content: seq<nat>, seen: map<nat, Bytes>, again: seq<nat>, seenAgain: map<nat, Bytes>, k: nat)
    requires next >= 2 && epoch in Uses(Records, next) && {next - 1, next} <= seen.Keys && {next - 1, next} <= seenAgain.Keys
    requires seen[epoch] != seenAgain[epoch] && k in content
    ensures var last := Stored(Remaining(Stored(rows, TableRows(Records, next, content, seen)), epoch),
                               TableRows(Records, next, again, seenAgain));
            Row(Records, next, k, 0, VersionsUsed(Records, next, seen)) in last <==> k !in again
  {
    var record := Row(Records, next, k, 0, VersionsUsed(Records, next, seen));
    var newer := Row(Records, next, k, 0, VersionsUsed(Records, next, seenAgain));
    var more := TableRows(Records, next, again, seenAgain);
    assert epoch in record.versions && record.versions[epoch] != newer.versions[epoch];
    var i :| 0 <= i < |content| && content[i] == k;
    assert record in TableRows(Records, next, content, seen);
    assert record in Remaining(Stored(rows, TableRows(Records, next, content, seen)), epoch);
    assert record !in more;
    if k in again {
      var j :| 0 <= j < |again| && again[j] == k;
      assert newer in more && SameKey(record, newer);
    } else {
      forall s | s in more ensures !SameKey(record, s) {
      }
    }
  }

  /** The rewards of the replaced epoch's own blocks belong to the next bundle: computing the epoch's own bundle
      again leaves the old ones in place. */
  lemma StaleBlockRewardsStay(rows: set<Row>, epoch: nat, seen: map<nat, Bytes>, seenAgain: map<nat, Bytes>, k: nat)
    requires 2 <= epoch && {epoch - 1, epoch} <= seen.Keys && {epoch - 2, epoch - 1, epoch} <= seenAgain.Keys
    requires seen[epoch] != seenAgain[epoch] && k < SLOTS_PER_EPOCH
    ensures var written := Stored(rows, TableRows(BlockRewards, epoch + 1, [], seen));
            var again := Stored(Remaining(written, epoch), TableRows(BlockRewards, epoch, [], seenAgain));
            var reward := Row(BlockRewards, epoch + 1, k, 0, VersionsUsed(BlockRewards, epoch + 1, seen));
            reward in again && !Fresh(reward, seenAgain)
  {
    var reward := Row(BlockRewards, epoch + 1, k, 0, VersionsUsed(BlockRewards, epoch + 1, seen));
    assert reward in TableRows(BlockRewards, epoch + 1, [], seen);
    assert reward in Remaining(Stored(rows, TableRows(BlockRewards, epoch + 1, [], seen)), epoch);
    forall s | s in TableRows(BlockRewards, epoch, [], seenAgain) ensures !SameKey(reward, s) {
    }
    assert epoch in reward.versions && reward.versions[epoch] == seen[epoch];
  }

  /** A deletion followed by computing that epoch's own bundle loses exactly the epoch and reward rows of the
      next two bundles that use the replaced state; they stay missing until those are computed. */
  lemma LostUntilRecomputed(rows: set<Row>, epoch: nat, seen: map<nat, Bytes>, r: Row)
    requires 2 <= epoch && r in rows && ProperRow(r) && OneRow(r.table)
    ensures var again := Stored(Stored(Remaining(rows, epoch), TableRows(Epochs, epoch, [], seen)),
                                TableRows(ValidatorRewards, epoch, [], seen));
            (exists s :: s in again && SameKey(s, r)) <==> epoch !in Uses(r.table, r.next) || r.next == epoch
  {
    var left := Remaining(rows, epoch);
    var middle := Stored(left, TableRows(Epochs, epoch, [], seen));
    var again := Stored(middle, TableRows(ValidatorRewards, epoch, [], seen));
    if r.next == epoch {
      var s := Row(r.table, epoch, 0, 0, VersionsUsed(r.table, epoch, seen));
      assert s in again && SameKey(s, r);
    } else if epoch !in Uses(r.table, r.next) {
      assert r in left && r in middle && r in again && SameKey(r, r);
    } else {
      forall s | s in again ensures !SameKey(s, r) {
        assert s in left || s.next == epoch;
      }
    }
  }
}
