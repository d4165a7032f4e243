/**
 Acceptance of monitoring configurations under one transaction-scoped lock.

 Every writer takes the lock, reads the accepted snapshot, writes at most one snapshot row,
 synchronises the registry, and commits or aborts; the lock is released when the transaction
 ends. API mutations and the scheduler stamp their row from the database clock, read under
 the lock. The activation of the first monitor takes the same lock but stamps its row with
 the clock of its application host. The reader takes the accepted row with the greatest
 (acceptedAt, seenAt) and breaks a tie arbitrarily.

 The database clock counts microseconds since the epoch. A stamp is its millisecond: a
 JavaScript Date drops the fraction (TimeClip, section 21.4.1.31 of ECMA-262).
 */
module ConfigurationLock {
  import opened Wrappers

  /**
   A snapshot row; `decidedFrom` records the accepted configuration its writer had read, and
   `clockRead` the database clock its writer had read, if any.
   */
  datatype Row = Row(config: string, acceptedAt: Option<int>, seenAt: int, decidedFrom: Option<string>, clockRead: Option<nat>)

  /** What the lock holder has done so far; `sync` is what it has put into the registry, if anything. */
  datatype Transaction = Transaction(
    clockRead: Option<nat>,
    accepted: Option<Option<string>>,
    written: Option<Row>,
    sync: Option<string>)

  datatype Database = Database(
    rows: seq<Row>,
    registry: Option<string>,
    clock: nat,
    holder: Option<nat>,
    tx: Transaction)

  datatype Event =
    | Tick(micros: nat)
    | Lock(id: nat)
    | ReadClock(id: nat)
    | ReadAccepted(id: nat, pick: Option<nat>)
    | Write(id: nat, config: string, accept: bool)
    | Activate(id: nat, config: string, hostNow: int)
    | Resync(id: nat)
    | Commit(id: nat)
    | Abort(id: nat)

  const NEW := Transaction(None, None, None, None)

  function Stamp(micros: nat): int {
    micros / 1000
  }

  // ---- The reader ----

  predicate IsAccepted(rows: seq<Row>, i: int) {
    0 <= i < |rows| && rows[i].acceptedAt.Some?
  }

  predicate SortsBefore(a: Row, b: Row)
    requires a.acceptedAt.Some? && b.acceptedAt.Some?
  {
    a.acceptedAt.value < b.acceptedAt.value
    || (a.acceptedAt == b.acceptedAt && a.seenAt <= b.seenAt)
  }

  /** Row `i` may be the one the descending order with limit 1 returns. */
  ghost predicate MayRead(rows: seq<Row>, i: nat) {
    IsAccepted(rows, i) && forall j :: IsAccepted(rows, j) ==> SortsBefore(rows[j], rows[i])
  }

  ghost predicate MayReturn(rows: seq<Row>, pick: Option<nat>) {
    match pick
    case Some(i) => MayRead(rows, i)
    case None => forall j :: !IsAccepted(rows, j)
  }

  function ConfigAt(rows: seq<Row>, pick: Option<nat>): Option<string>
    requires pick.Some? ==> pick.value < |rows|
  {
    if pick.Some? then Some(rows[pick.value].config) else None
  }

  /** The configuration of the last accepted row, in commit order. */
  function LastAccepted(rows: seq<Row>): Option<string> {
    if rows == [] then None
    else if rows[|rows| - 1].acceptedAt.Some? then Some(rows[|rows| - 1].config)
    else LastAccepted(rows[..|rows| - 1])
  }

  // ---- The steps ----

  predicate Deciding(db: Database, id: nat) {
    db.holder == Some(id) && db.tx.accepted.Some? && db.tx.written.None? && db.tx.sync.None?
  }

  /** `minCommit` is the least time between a writer's reading of the database clock and its commit. */
  ghost predicate Enabled(db: Database, e: Event, minCommit: nat) {
    match e
    case Tick(_) => true
    case Lock(_) => db.holder == None
    case ReadClock(id) => db.holder == Some(id) && db.tx.clockRead.None?
    case ReadAccepted(id, pick) =>
      db.holder == Some(id) && db.tx.accepted.None? && db.tx.written.None? && MayReturn(db.rows, pick)
    case Write(id, _, _) => Deciding(db, id) && db.tx.clockRead.Some?
    case Activate(id, config, _) => Deciding(db, id) && db.tx.clockRead.None? && db.tx.accepted.value != Some(config)
    case Resync(id) => Deciding(db, id) && db.tx.accepted.value.Some?
    case Commit(id) =>
      db.holder == Some(id) && (db.tx.clockRead.Some? ==> db.clock >= db.tx.clockRead.value + minCommit)
    case Abort(id) => db.holder == Some(id)
  }

  function Step(db: Database, e: Event): Database
    requires Enabled(db, e, 0)
  {
    match e
    case Tick(micros) => db.(clock := db.clock + micros)
    case Lock(id) => db.(holder := Some(id), tx := NEW)
    case ReadClock(_) => db.(tx := db.tx.(clockRead := Some(db.clock)))
    case ReadAccepted(_, pick) => db.(tx := db.tx.(accepted := Some(ConfigAt(db.rows, pick))))
    case Write(_, config, accept) =>
      var stamp := Stamp(db.tx.clockRead.value);
      var row := Row(config, if accept then Some(stamp) else None, stamp, db.tx.accepted.value, db.tx.clockRead);
      db.(tx := db.tx.(written := Some(row), sync := if accept then Some(config) else db.tx.accepted.value))
    case Activate(_, config, hostNow) =>
      db.(tx := db.tx.(written := Some(Row(config, Some(hostNow), hostNow, db.tx.accepted.value, None)), sync := Some(config)))
    case Resync(_) => db.(tx := db.tx.(sync := db.tx.accepted.value))
    case Commit(_) =>
      db.(rows := if db.tx.written.Some? then db.rows + [db.tx.written.value] else db.rows,
          registry := if db.tx.sync.Some? then db.tx.sync else db.registry,
          holder := None, tx := NEW)
    case Abort(_) => db.(holder := None, tx := NEW)
  }

  /** The lock excludes: only its holder acts, and it is taken only when free. */
  lemma OnlyTheHolderActs(db: Database, e: Event, minCommit: nat)
    requires Enabled(db, e, minCommit)
    ensures e.Lock? ==> db.holder == None && Step(db, e).holder == Some(e.id)
    ensures !e.Lock? && !e.Tick? ==> db.holder == Some(e.id)
    ensures Step(db, e).holder == (if e.Lock? then Some(e.id) else if e.Commit? || e.Abort? then None else db.holder)
  {
  }

  /** The events can happen in this order, and lead from `start` to `end`. */
  ghost predicate Runs(start: Database, events: seq<Event>, minCommit: nat, end: Database)
    decreases |events|
  {
    if events == [] then start == end
    else Enabled(start, events[0], minCommit) && Runs(Step(start, events[0]), events[1..], minCommit, end)
  }

  function Start(clock: nat): Database {
    Database([], None, clock, None, NEW)
  }

  // ---- When the reader follows the registry ----

  /** Whatever the reader may return is what the registry runs. */
  ghost predicate Agrees(db: Database) {
    forall pick: Option<nat> :: MayReturn(db.rows, pick) ==> ConfigAt(db.rows, pick) == db.registry
  }

  /** Facts about every reachable state, whatever the clocks do. */
  ghost predicate Sound(db: Database) {
    && (forall i :: IsAccepted(db.rows, i) ==> db.rows[i].seenAt == db.rows[i].acceptedAt.value)
    && (db.holder == None ==> db.tx == NEW)
    && (db.tx.accepted.Some? ==> exists pick: Option<nat> :: MayReturn(db.rows, pick) && db.tx.accepted.value == ConfigAt(db.rows, pick))
    && (db.tx.written.Some? ==>
          var row := db.tx.written.value;
          && db.tx.accepted.Some? && row.decidedFrom == db.tx.accepted.value
          && (row.acceptedAt.Some? ==> row.seenAt == row.acceptedAt.value && db.tx.sync == Some(row.config))
          && (row.acceptedAt.None? ==> db.tx.sync == db.tx.accepted.value))
    && (db.tx.sync.Some? && db.tx.written.None? ==> db.tx.accepted == Some(db.tx.sync))
  }

  /**
   Before its insert a writer can see whether its stamp is past every accepted stamp, or else
   whether the rows the reader may return hold its own configuration already.
   */
  ghost predicate StampIsPast(db: Database) {
    db.tx.written.Some? && db.tx.written.value.acceptedAt.Some? ==>
      forall i: nat :: MayRead(db.rows, i) && db.tx.written.value.acceptedAt.value <= db.rows[i].acceptedAt.value ==>
        db.rows[i].config == db.tx.written.value.config
  }

  lemma StepKeepsSound(db: Database, e: Event)
    requires Enabled(db, e, 0) && Sound(db)
    ensures Sound(Step(db, e))
  {
    hide MayReturn;
    var next := Step(db, e);
    if e.Commit? && db.tx.written.Some? {
      forall i | IsAccepted(next.rows, i) ensures next.rows[i].seenAt == next.rows[i].acceptedAt.value {
        assert i < |db.rows| ==> IsAccepted(db.rows, i);
      }
    }
  }

  /** A rejected row does not change what the reader may return. */
  lemma RejectedRowIsInvisible(rows: seq<Row>, row: Row, pick: Option<nat>)
    requires row.acceptedAt.None?
    ensures MayReturn(rows + [row], pick) <==> MayReturn(rows, pick)
    ensures MayReturn(rows, pick) ==> ConfigAt(rows + [row], pick) == ConfigAt(rows, pick)
  {
    assert forall i :: IsAccepted(rows + [row], i) <==> IsAccepted(rows, i);
    assert forall i :: IsAccepted(rows, i) ==> (rows + [row])[i] == rows[i];
  }

  /** An accepted row hides an older one exactly when its stamp is greater. */
  lemma AcceptedRowCompetes(rows: seq<Row>, row: Row, i: nat)
    requires forall j :: IsAccepted(rows, j) ==> rows[j].seenAt == rows[j].acceptedAt.value
    requires row.acceptedAt.Some? && row.seenAt == row.acceptedAt.value && i < |rows|
    ensures MayRead(rows + [row], i) <==> MayRead(rows, i) && row.acceptedAt.value <= rows[i].acceptedAt.value
  {
    var all := rows + [row];
    assert IsAccepted(all, |rows|) && all[|rows|] == row;
    assert forall j :: 0 <= j < |rows| ==> all[j] == rows[j] && (IsAccepted(all, j) <==> IsAccepted(rows, j));
    assert forall j :: IsAccepted(all, j) ==> j == |rows| || IsAccepted(rows, j);
  }

  /** What committing an accepted row does, from a serial database with the lock free. */
  function Committed(db: Database, row: Row): Database {
    db.(rows := db.rows + [row], registry := Some(row.config))
  }

  lemma CommittedRowAgreesIff(db: Database, row: Row)
    requires forall j :: IsAccepted(db.rows, j) ==> db.rows[j].seenAt == db.rows[j].acceptedAt.value
    requires row.acceptedAt.Some? && row.seenAt == row.acceptedAt.value
    ensures Agrees(Committed(db, row)) <==>
      forall i: nat :: MayRead(db.rows, i) && row.acceptedAt.value <= db.rows[i].acceptedAt.value ==> db.rows[i].config == row.config
  {
    var next := Committed(db, row);
    forall i: nat | i < |db.rows|
      ensures MayRead(next.rows, i) <==> MayRead(db.rows, i) && row.acceptedAt.value <= db.rows[i].acceptedAt.value
    {
      AcceptedRowCompetes(db.rows, row, i);
    }
    assert IsAccepted(next.rows, |db.rows|);
    if Agrees(next) {
      forall i: nat | MayRead(db.rows, i) && row.acceptedAt.value <= db.rows[i].acceptedAt.value
        ensures db.rows[i].config == row.config
      {
        assert MayReturn(next.rows, Some(i));
        assert next.rows[i] == db.rows[i];
      }
    }
  }

  /**
   From agreement, a commit leaves reader and registry in agreement exactly when its stamp was
   past every accepted one (or the readable rows hold its configuration already).
   */
  lemma CommitAgreesIff(db: Database, id: nat)
    requires Enabled(db, Commit(id), 0) && Sound(db) && Agrees(db)
    ensures Agrees(Step(db, Commit(id))) <==> StampIsPast(db)
  {
    var next := Step(db, Commit(id));
    if db.tx.written.Some? && db.tx.written.value.acceptedAt.Some? {
      CommittedRowAgreesIff(db, db.tx.written.value);
      assert next.(holder := db.holder, tx := db.tx) == Committed(db, db.tx.written.value);
    } else if db.tx.written.Some? {
      forall pick: Option<nat> ensures MayReturn(next.rows, pick) <==> MayReturn(db.rows, pick)
        ensures MayReturn(db.rows, pick) ==> ConfigAt(next.rows, pick) == ConfigAt(db.rows, pick)
      {
        RejectedRowIsInvisible(db.rows, db.tx.written.value, pick);
      }
    }
  }

  lemma OtherStepsKeepAgreement(db: Database, e: Event)
    requires Enabled(db, e, 0) && !e.Commit?
    ensures Step(db, e).rows == db.rows && Step(db, e).registry == db.registry
    ensures Agrees(Step(db, e)) <==> Agrees(db)
  {
  }

  /** Reader and registry agree at the start and after every event. */
  ghost predicate AgreesThroughout(db: Database, events: seq<Event>)
    decreases |events|
  {
    && Agrees(db)
    && (events != [] && Enabled(db, events[0], 0) ==> AgreesThroughout(Step(db, events[0]), events[1..]))
  }

  /** Every commit of the run brings a stamp past the accepted ones. */
  ghost predicate StampsPast(db: Database, events: seq<Event>)
    decreases |events|
  {
    events != [] && Enabled(db, events[0], 0) ==>
      && (events[0].Commit? ==> StampIsPast(db))
      && StampsPast(Step(db, events[0]), events[1..])
  }

  lemma {:induction false} AgreementFromHere(db: Database, events: seq<Event>, minCommit: nat, end: Database)
    requires Runs(db, events, minCommit, end) && Sound(db) && Agrees(db)
    ensures AgreesThroughout(db, events) <==> StampsPast(db, events)
    decreases |events|
  {
    hide Step, Agrees, Sound, StampIsPast;
    if events != [] {
      var e := events[0];
      StepKeepsSound(db, e);
      if e.Commit? {
        CommitAgreesIff(db, e.id);
      } else {
        OtherStepsKeepAgreement(db, e);
      }
      if Agrees(Step(db, e)) {
        AgreementFromHere(Step(db, e), events[1..], minCommit, end);
      }
    }
  }

  /**
   Over every run of every writer, whatever the clocks show: the reader returns what the
   registry runs at every moment if and only if each commit's stamp is past the accepted ones
   that it finds.
   */
  lemma ReaderFollowsRegistryIff(clock: nat, events: seq<Event>, minCommit: nat, end: Database)
    requires Runs(Start(clock), events, minCommit, end)
    ensures AgreesThroughout(Start(clock), events) <==> StampsPast(Start(clock), events)
  {
    AgreementFromHere(Start(clock), events, minCommit, end);
  }

  // ---- What agreement gives ----

  /** Every row was decided from the configuration accepted immediately before it. */
  ghost predicate DecidedInOrder(rows: seq<Row>) {
    forall i :: 0 <= i < |rows| ==> rows[i].decidedFrom == LastAccepted(rows[..i])
  }

  ghost predicate Serial(db: Database) {
    && Sound(db)
    && db.registry == LastAccepted(db.rows)
    && DecidedInOrder(db.rows)
  }

  lemma AppendDecided(rows: seq<Row>, row: Row)
    requires DecidedInOrder(rows) && row.decidedFrom == LastAccepted(rows)
    ensures DecidedInOrder(rows + [row])
    ensures LastAccepted(rows + [row]) == if row.acceptedAt.Some? then Some(row.config) else LastAccepted(rows)
  {
    var all := rows + [row];
    assert all[..|rows|] == rows;
    forall i | 0 <= i < |rows| ensures all[i].decidedFrom == LastAccepted(all[..i]) {
      assert all[..i] == rows[..i];
    }
  }

  lemma CommittedRowIsSerial(db: Database, row: Row)
    requires Serial(db) && db.holder == None && row.decidedFrom == db.registry
    requires row.acceptedAt.Some? && row.seenAt == row.acceptedAt.value
    ensures Serial(Committed(db, row))
  {
    hide LastAccepted, DecidedInOrder, MayReturn;
    AppendDecided(db.rows, row);
    forall i | IsAccepted(db.rows + [row], i) ensures (db.rows + [row])[i].seenAt == (db.rows + [row])[i].acceptedAt.value {
      assert i < |db.rows| ==> IsAccepted(db.rows, i);
    }
  }

  /** In agreement a writer decides from the last accepted configuration. */
  lemma StepKeepsSerial(db: Database, e: Event)
    requires Enabled(db, e, 0) && Serial(db) && Agrees(db)
    ensures Serial(Step(db, e))
  {
    hide LastAccepted, DecidedInOrder, MayReturn;
    StepKeepsSound(db, e);
    if e.Commit? && db.tx.written.Some? {
      AppendDecided(db.rows, db.tx.written.value);
    }
  }

  lemma {:induction false} AgreementIsSerialFromHere(db: Database, events: seq<Event>, minCommit: nat, end: Database)
    requires Runs(db, events, minCommit, end) && Serial(db) && AgreesThroughout(db, events)
    ensures Serial(end) && Agrees(end)
    decreases |events|
  {
    hide Step, Agrees, Serial;
    if events != [] {
      StepKeepsSerial(db, events[0]);
      AgreementIsSerialFromHere(Step(db, events[0]), events[1..], minCommit, end);
    }
  }

  /**
   While stamps are past the accepted ones, acceptance is serial: the reader returns the last
   accepted configuration, the registry runs it, and each row was decided from the
   configuration accepted immediately before it.
   */
  lemma PastStampsAreSerial(clock: nat, events: seq<Event>, minCommit: nat, end: Database, pick: Option<nat>)
    requires Runs(Start(clock), events, minCommit, end) && StampsPast(Start(clock), events) && MayReturn(end.rows, pick)
    ensures ConfigAt(end.rows, pick) == end.registry == LastAccepted(end.rows)
    ensures DecidedInOrder(end.rows)
  {
    hide StampsPast, AgreesThroughout;
    ReaderFollowsRegistryIff(clock, events, minCommit, end);
    AgreementIsSerialFromHere(Start(clock), events, minCommit, end);
  }

  // ---- Writers that stamp from the database clock ----

  ghost predicate StampsIncrease(rows: seq<Row>) {
    forall i, j :: i < j && IsAccepted(rows, i) && IsAccepted(rows, j) ==>
      rows[i].acceptedAt.value < rows[j].acceptedAt.value
  }

  /** Every accepted stamp lies in a millisecond before the one of `micros`. */
  ghost predicate AllBefore(rows: seq<Row>, micros: nat) {
    forall i :: IsAccepted(rows, i) ==> rows[i].acceptedAt.value < Stamp(micros)
  }

  ghost predicate DatabaseStamped(events: seq<Event>) {
    forall i :: 0 <= i < |events| ==> !events[i].Activate?
  }

  ghost predicate ClockInvariant(db: Database) {
    && StampsIncrease(db.rows)
    && AllBefore(db.rows, db.clock)
    && (db.tx.clockRead.Some? ==> db.tx.clockRead.value <= db.clock && AllBefore(db.rows, db.tx.clockRead.value))
    && (db.tx.written.Some? ==>
          && db.tx.clockRead.Some?
          && db.tx.written.value.acceptedAt in {None, Some(Stamp(db.tx.clockRead.value))})
  }

  lemma {:induction false} LastAcceptedIs(rows: seq<Row>, i: nat)
    requires IsAccepted(rows, i) && forall j :: j > i ==> !IsAccepted(rows, j)
    ensures LastAccepted(rows) == Some(rows[i].config)
  {
    var n := |rows| - 1;
    if i < n {
      assert !IsAccepted(rows, n);
      forall j | i < j < n ensures rows[..n][j].acceptedAt.None? {
        assert !IsAccepted(rows, j);
      }
      LastAcceptedIs(rows[..n], i);
    }
  }

  lemma {:induction false} LastAcceptedNone(rows: seq<Row>)
    requires forall j :: !IsAccepted(rows, j)
    ensures LastAccepted(rows) == None
  {
    if rows != [] {
      assert !IsAccepted(rows, |rows| - 1);
      var init := rows[..|rows| - 1];
      forall j | 0 <= j < |init| ensures init[j].acceptedAt.None? {
        assert !IsAccepted(rows, j);
      }
      LastAcceptedNone(init);
    }
  }

  /** With increasing stamps the reader has no choice: it returns the last accepted row. */
  lemma ReaderReturnsLast(rows: seq<Row>, pick: Option<nat>)
    requires StampsIncrease(rows) && MayReturn(rows, pick)
    ensures ConfigAt(rows, pick) == LastAccepted(rows)
  {
    match pick {
      case None => LastAcceptedNone(rows);
      case Some(i) =>
        forall j | j > i ensures !IsAccepted(rows, j) {
        }
        LastAcceptedIs(rows, i);
    }
  }

  lemma AppendStamp(rows: seq<Row>, row: Row, micros: nat, later: nat)
    requires StampsIncrease(rows) && AllBefore(rows, micros) && micros + 1000 <= later
    requires row.acceptedAt in {None, Some(Stamp(micros))}
    ensures StampsIncrease(rows + [row]) && AllBefore(rows + [row], later)
  {
    var all := rows + [row];
    assert Stamp(micros) + 1 <= Stamp(later);
    forall i | IsAccepted(all, i) ensures i == |rows| || (IsAccepted(rows, i) && all[i] == rows[i]) {
    }
  }

  lemma StepKeepsClockInvariant(db: Database, e: Event, minCommit: nat)
    requires minCommit >= 1000 && Enabled(db, e, minCommit) && ClockInvariant(db) && !e.Activate?
    requires db.holder == None ==> db.tx == NEW
    ensures ClockInvariant(Step(db, e))
    ensures e.Commit? ==> StampIsPast(db)
  {
    hide MayReturn;
    if e.Commit? && db.tx.written.Some? {
      AppendStamp(db.rows, db.tx.written.value, db.tx.clockRead.value, db.clock);
    } else if e.Tick? {
      assert Stamp(db.clock) <= Stamp(db.clock + e.micros);
    }
  }

  lemma {:induction false} DatabaseStampsArePast(db: Database, events: seq<Event>, minCommit: nat, end: Database)
    requires minCommit >= 1000 && Runs(db, events, minCommit, end) && DatabaseStamped(events)
    requires Sound(db) && ClockInvariant(db)
    ensures StampsPast(db, events) && ClockInvariant(end)
    decreases |events|
  {
    hide Step, Enabled, ClockInvariant, StampIsPast;
    if events != [] {
      assert DatabaseStamped(events[1..]) by {
        forall i | 0 <= i < |events[1..]| ensures !events[1..][i].Activate? {
          assert events[1..][i] == events[i + 1];
        }
      }
      EnabledAtZero(db, events[0], minCommit);
      StepKeepsSound(db, events[0]);
      StepKeepsClockInvariant(db, events[0], minCommit);
      DatabaseStampsArePast(Step(db, events[0]), events[1..], minCommit, end);
    }
  }

  lemma EnabledAtZero(db: Database, e: Event, minCommit: nat)
    requires Enabled(db, e, minCommit)
    ensures Enabled(db, e, 0)
  {
  }

  /**
   After any run of API mutations and scheduler acceptances, commits and aborts, in which a
   commit takes a millisecond: the reader returns what the registry runs, the last accepted
   configuration, and each row was decided from its immediate predecessor.
   */
  lemma AcceptanceIsSerial(clock: nat, events: seq<Event>, minCommit: nat, end: Database, pick: Option<nat>)
    requires minCommit >= 1000 && Runs(Start(clock), events, minCommit, end) && DatabaseStamped(events)
    requires MayReturn(end.rows, pick)
    ensures ConfigAt(end.rows, pick) == end.registry == LastAccepted(end.rows)
    ensures StampsIncrease(end.rows) && DecidedInOrder(end.rows)
  {
    DatabaseStampsArePast(Start(clock), events, minCommit, end);
    PastStampsAreSerial(clock, events, minCommit, end, pick);
  }

  /** A row stamped from the database clock carries the millisecond in which the clock was read. */
  ghost predicate StampedTrue(row: Row) {
    row.clockRead.Some? ==>
      && 1000 * row.seenAt <= row.clockRead.value < 1000 * (row.seenAt + 1)
      && (row.acceptedAt.Some? ==> 1000 * row.acceptedAt.value <= row.clockRead.value < 1000 * (row.acceptedAt.value + 1))
  }

  ghost predicate StampsTrue(db: Database) {
    && (forall i :: 0 <= i < |db.rows| ==> StampedTrue(db.rows[i]))
    && (db.tx.written.Some? ==> StampedTrue(db.tx.written.value))
  }

  lemma StepKeepsStampsTrue(db: Database, e: Event)
    requires Enabled(db, e, 0) && StampsTrue(db)
    ensures StampsTrue(Step(db, e))
  {
    hide MayReturn;
  }

  /** In every run each stamp taken from the database clock is the millisecond in which it was read. */
  lemma {:induction false} RunStampsTrue(db: Database, events: seq<Event>, minCommit: nat, end: Database)
    requires Runs(db, events, minCommit, end) && StampsTrue(db)
    ensures StampsTrue(end)
    decreases |events|
  {
    hide Step, StampsTrue;
    if events != [] {
      EnabledAtZero(db, events[0], minCommit);
      StepKeepsStampsTrue(db, events[0]);
      RunStampsTrue(Step(db, events[0]), events[1..], minCommit, end);
    }
  }

  ghost predicate AllClocked(db: Database) {
    && (forall i :: 0 <= i < |db.rows| ==> db.rows[i].clockRead.Some?)
    && (db.tx.written.Some? ==> db.tx.written.value.clockRead.Some?)
  }

  /** Without an activation every row is stamped from the database clock. */
  lemma {:induction false} RunClocksRows(db: Database, events: seq<Event>, minCommit: nat, end: Database)
    requires Runs(db, events, minCommit, end) && DatabaseStamped(events) && AllClocked(db)
    ensures AllClocked(end)
    decreases |events|
  {
    hide MayReturn;
    if events != [] {
      assert forall i :: 0 <= i < |events[1..]| ==> events[1..][i] == events[i + 1];
      RunClocksRows(Step(db, events[0]), events[1..], minCommit, end);
    }
  }

  /** Rejecting keeps the configuration that was read in the registry, and so does an activation that changes nothing. */
  lemma FallbackRuns(db: Database, e: Event, id: nat)
    requires Enabled(db, e, 0) && (e.Resync? || (e.Write? && !e.accept)) && e.id == id
    requires db.tx.clockRead.Some? ==> db.tx.clockRead.value <= db.clock
    ensures Enabled(Step(db, e), Commit(id), 0)
    ensures var after := Step(Step(db, e), Commit(id));
      && (db.tx.accepted.value.Some? ==> after.registry == db.tx.accepted.value)
      && (db.tx.accepted.value.None? ==> after.registry == db.registry)
      && forall i :: IsAccepted(after.rows, i) <==> IsAccepted(db.rows, i)
  {
  }

  // ---- The activation, which stamps from its host's clock ----

  /**
   An activation leaves reader and registry in agreement exactly when its host's clock is past
   every stamp the reader may return.
   */
  lemma ActivationAgreesIff(db: Database, id: nat, config: string, hostNow: int)
    requires Enabled(db, Activate(id, config, hostNow), 0) && Sound(db) && Agrees(db)
    ensures var next := Step(db, Activate(id, config, hostNow));
      Agrees(Step(next, Commit(id))) <==> forall i: nat :: MayRead(db.rows, i) ==> db.rows[i].acceptedAt.value < hostNow
  {
    var next := Step(db, Activate(id, config, hostNow));
    StepKeepsSound(db, Activate(id, config, hostNow));
    CommitAgreesIff(next, id);
    forall i: nat | MayRead(db.rows, i) ensures Some(db.rows[i].config) == db.tx.accepted.value {
      assert MayReturn(db.rows, Some(i));
    }
  }

  // ---- How short a commit may be, and how far behind a host ----

  lemma {:induction false} Extend(start: Database, events: seq<Event>, minCommit: nat, mid: Database, e: Event)
    requires Runs(start, events, minCommit, mid) && Enabled(mid, e, minCommit)
    ensures Runs(start, events + [e], minCommit, Step(mid, e))
    decreases |events|
  {
    if events == [] {
      assert ([] + [e])[1..] == [];
    } else {
      Extend(Step(start, events[0]), events[1..], minCommit, mid, e);
      assert (events + [e])[1..] == events[1..] + [e];
    }
  }

  /** One whole acceptance that commits as early as it may. */
  lemma QuickAcceptance(start: Database, events: seq<Event>, minCommit: nat, db: Database, id: nat, config: string, pick: Option<nat>)
    returns (longer: seq<Event>, end: Database)
    requires Runs(start, events, minCommit, db) && db.holder == None && MayReturn(db.rows, pick)
    ensures Runs(start, longer, minCommit, end) && (DatabaseStamped(events) ==> DatabaseStamped(longer))
    ensures end.holder == None && end.clock == db.clock + minCommit
    ensures end.rows == db.rows + [Row(config, Some(Stamp(db.clock)), Stamp(db.clock), ConfigAt(db.rows, pick), Some(db.clock))]
    ensures end.registry == Some(config)
  {
    hide Runs;
    var s := db;
    Extend(start, events, minCommit, s, Lock(id));
    longer := events + [Lock(id)];
    s := Step(s, Lock(id));
    Extend(start, longer, minCommit, s, ReadClock(id));
    longer := longer + [ReadClock(id)];
    s := Step(s, ReadClock(id));
    Extend(start, longer, minCommit, s, ReadAccepted(id, pick));
    longer := longer + [ReadAccepted(id, pick)];
    s := Step(s, ReadAccepted(id, pick));
    Extend(start, longer, minCommit, s, Write(id, config, true));
    longer := longer + [Write(id, config, true)];
    s := Step(s, Write(id, config, true));
    Extend(start, longer, minCommit, s, Tick(minCommit));
    longer := longer + [Tick(minCommit)];
    s := Step(s, Tick(minCommit));
    Extend(start, longer, minCommit, s, Commit(id));
    longer := longer + [Commit(id)];
    end := Step(s, Commit(id));
  }

  /** If commits may be quicker, two stamps can tie and the reader can return the older configuration. */
  lemma QuickCommitsTie(minCommit: nat) returns (events: seq<Event>, end: Database)
    requires minCommit < 1000
    ensures Runs(Start(0), events, minCommit, end) && DatabaseStamped(events) && !StampsIncrease(end.rows)
    ensures MayReturn(end.rows, Some(0)) && ConfigAt(end.rows, Some(0)) != end.registry
  {
    var mid: Database;
    assert Runs(Start(0), [], minCommit, Start(0));
    events, mid := QuickAcceptance(Start(0), [], minCommit, Start(0), 1, "older", None);
    hide Runs;
    var first := Row("older", Some(0), 0, None, Some(0));
    assert mid.rows == [first] && MayRead(mid.rows, 0);
    events, end := QuickAcceptance(Start(0), events, minCommit, mid, 2, "newer", Some(0));
    assert end.rows == [first, Row("newer", Some(0), 0, Some("older"), Some(minCommit))];
    assert IsAccepted(end.rows, 0) && IsAccepted(end.rows, 1);
  }

  /** The stamps of database-stamped writers strictly increase in every run exactly when commits take a millisecond. */
  lemma StampsIncreaseIff(minCommit: nat)
    ensures (forall clock, events, end :: Runs(Start(clock), events, minCommit, end) && DatabaseStamped(events) ==>
               StampsIncrease(end.rows))
       <==> minCommit >= 1000
  {
    if minCommit >= 1000 {
      forall clock, events, end | Runs(Start(clock), events, minCommit, end) && DatabaseStamped(events)
        ensures StampsIncrease(end.rows)
      {
        DatabaseStampsArePast(Start(clock), events, minCommit, end);
      }
    } else {
      var events, end := QuickCommitsTie(minCommit);
      assert Runs(Start(0), events, minCommit, end) && !StampsIncrease(end.rows);
    }
  }

  /** One whole activation. */
  lemma QuickActivation(start: Database, events: seq<Event>, minCommit: nat, db: Database, id: nat, config: string, hostNow: int, pick: Option<nat>)
    returns (longer: seq<Event>, end: Database)
    requires Runs(start, events, minCommit, db) && db.holder == None
    requires MayReturn(db.rows, pick) && ConfigAt(db.rows, pick) != Some(config)
    ensures Runs(start, longer, minCommit, end)
    ensures end == Committed(db, Row(config, Some(hostNow), hostNow, ConfigAt(db.rows, pick), None)).(tx := NEW)
  {
    hide Runs;
    var s := db;
    Extend(start, events, minCommit, s, Lock(id));
    longer := events + [Lock(id)];
    s := Step(s, Lock(id));
    Extend(start, longer, minCommit, s, ReadAccepted(id, pick));
    longer := longer + [ReadAccepted(id, pick)];
    s := Step(s, ReadAccepted(id, pick));
    Extend(start, longer, minCommit, s, Activate(id, config, hostNow));
    longer := longer + [Activate(id, config, hostNow)];
    s := Step(s, Activate(id, config, hostNow));
    Extend(start, longer, minCommit, s, Commit(id));
    longer := longer + [Commit(id)];
    end := Step(s, Commit(id));
  }

  /**
   However long commits take, an activation on a host behind the database is enough: here an API
   change is stamped 5000, the activation after it 4000, and the reader returns the API's
   configuration while the registry runs the activation's.
   */
  lemma LateHostDisagrees(minCommit: nat) returns (events: seq<Event>, end: Database)
    ensures Runs(Start(5000000), events, minCommit, end) && end.holder == None
    ensures MayReturn(end.rows, Some(0)) && ConfigAt(end.rows, Some(0)) == Some("api")
    ensures end.registry == Some("activation")
  {
    var start := Start(5000000);
    var s: Database;
    assert Runs(start, [], minCommit, start);
    events, s := QuickAcceptance(start, [], minCommit, start, 1, "api", None);
    hide Runs;
    var first := Row("api", Some(5000), 5000, None, Some(5000000));
    assert s.rows == [first] && MayRead(s.rows, 0);
    events, end := QuickActivation(start, events, minCommit, s, 2, "activation", 4000, Some(0));
    assert end.rows == [first, Row("activation", Some(4000), 4000, Some("api"), None)];
  }

  /** A host ahead of the database hides the changes after it, and the next writer decides from the stale configuration. */
  lemma EarlyHostMisleads(minCommit: nat) returns (events: seq<Event>, end: Database)
    ensures Runs(Start(5000000), events, minCommit, end) && end.holder == None
    ensures !DecidedInOrder(end.rows)
  {
    var start := Start(5000000);
    var s: Database;
    assert Runs(start, [], minCommit, start) && MayReturn(start.rows, None);
    events, s := QuickActivation(start, [], minCommit, start, 1, "activation", 9000, None);
    hide Runs;
    var first := Row("activation", Some(9000), 9000, None, None);
    assert s.rows == [first] && MayRead(s.rows, 0);
    events, s := QuickAcceptance(start, events, minCommit, s, 2, "api", Some(0));
    var second := Row("api", Some(5000), 5000, Some("activation"), Some(5000000));
    assert s.rows == [first, second] && IsAccepted(s.rows, 0);
    assert MayRead(s.rows, 0);
    events, end := QuickAcceptance(start, events, minCommit, s, 3, "later", Some(0));
    assert end.rows[..2] == [first, second];
    assert end.rows[2].decidedFrom == Some("activation") && LastAccepted([first, second]) == Some("api");
  }

  // ---- When the next decision is in order ----

  /** Each accepted row of the greatest stamp holds the configuration accepted last. */
  ghost predicate NewestHoldLast(rows: seq<Row>) {
    forall i :: IsAccepted(rows, i) && (forall j :: IsAccepted(rows, j) ==> rows[j].acceptedAt.value <= rows[i].acceptedAt.value) ==>
      Some(rows[i].config) == LastAccepted(rows)
  }

  lemma ReadersSeeLast(rows: seq<Row>, pick: Option<nat>)
    requires forall i :: IsAccepted(rows, i) ==> rows[i].seenAt == rows[i].acceptedAt.value
    requires NewestHoldLast(rows) && MayReturn(rows, pick)
    ensures ConfigAt(rows, pick) == LastAccepted(rows)
  {
    match pick {
      case None => LastAcceptedNone(rows);
      case Some(i) => assert MayRead(rows, i);
    }
  }

  /** The lock holder, if any, has read and decided from the configuration accepted last. */
  ghost predicate DecidesFromLast(db: Database) {
    && Sound(db) && NewestHoldLast(db.rows)
    && (db.tx.accepted.Some? ==> db.tx.accepted.value == LastAccepted(db.rows))
  }

  lemma StepDecidesFromLast(db: Database, e: Event)
    requires Enabled(db, e, 0) && DecidesFromLast(db)
    ensures db.rows <= Step(db, e).rows && |Step(db, e).rows| <= |db.rows| + 1
    ensures Step(db, e).rows == db.rows ==> DecidesFromLast(Step(db, e))
    ensures Step(db, e).rows != db.rows ==> Step(db, e).rows[|db.rows|].decidedFrom == LastAccepted(db.rows)
  {
    StepKeepsSound(db, e);
    if e.ReadAccepted? {
      ReadersSeeLast(db.rows, e.pick);
    }
    hide LastAccepted, MayReturn, NewestHoldLast;
  }

  lemma {:induction false} RunExtendsRows(db: Database, events: seq<Event>, minCommit: nat, end: Database)
    requires Runs(db, events, minCommit, end)
    ensures db.rows <= end.rows
    decreases |events|
  {
    if events != [] {
      RunExtendsRows(Step(db, events[0]), events[1..], minCommit, end);
    }
  }

  lemma {:induction false} NextRowFromHere(db: Database, events: seq<Event>, minCommit: nat, end: Database)
    requires Runs(db, events, minCommit, end) && DecidesFromLast(db) && |end.rows| > |db.rows|
    ensures end.rows[|db.rows|].decidedFrom == LastAccepted(db.rows)
    decreases |events|
  {
    hide Step, DecidesFromLast, LastAccepted;
    if events != [] {
      var next := Step(db, events[0]);
      EnabledAtZero(db, events[0], minCommit);
      StepDecidesFromLast(db, events[0]);
      if next.rows == db.rows {
        NextRowFromHere(next, events[1..], minCommit, end);
      } else {
        RunExtendsRows(next, events[1..], minCommit, end);
      }
    }
  }

  lemma {:induction false} RunKeepsSound(db: Database, events: seq<Event>, minCommit: nat, end: Database)
    requires Runs(db, events, minCommit, end) && Sound(db)
    ensures Sound(end)
    decreases |events|
  {
    hide Step, Sound;
    if events != [] {
      EnabledAtZero(db, events[0], minCommit);
      StepKeepsSound(db, events[0]);
      RunKeepsSound(Step(db, events[0]), events[1..], minCommit, end);
    }
  }

  /** Every run from here decides its next row from the configuration accepted last. */
  ghost predicate NextRowInOrder(db: Database, minCommit: nat) {
    forall events, end :: Runs(db, events, minCommit, end) && |end.rows| > |db.rows| ==>
      end.rows[|db.rows|].decidedFrom == LastAccepted(db.rows)
  }

  /**
   In any reachable database with the lock free, every continuation decides its next row from
   its immediate predecessor exactly when the rows of the greatest accepted stamp hold it.
   */
  lemma NextRowInOrderIff(clock: nat, events: seq<Event>, minCommit: nat, db: Database)
    requires Runs(Start(clock), events, minCommit, db) && db.holder == None
    ensures NextRowInOrder(db, minCommit) <==> NewestHoldLast(db.rows)
  {
    RunKeepsSound(Start(clock), events, minCommit, db);
    if NewestHoldLast(db.rows) {
      forall more, end | Runs(db, more, minCommit, end) && |end.rows| > |db.rows|
        ensures end.rows[|db.rows|].decidedFrom == LastAccepted(db.rows)
      {
        NextRowFromHere(db, more, minCommit, end);
      }
    }
    if NextRowInOrder(db, minCommit) {
      forall i | IsAccepted(db.rows, i)
          && (forall j :: IsAccepted(db.rows, j) ==> db.rows[j].acceptedAt.value <= db.rows[i].acceptedAt.value)
        ensures Some(db.rows[i].config) == LastAccepted(db.rows)
      {
        assert MayRead(db.rows, i) && Runs(db, [], minCommit, db);
        var more, end := QuickAcceptance(db, [], minCommit, db, 1, "next", Some(i));
        assert Runs(db, more, minCommit, end);
      }
    }
  }

  // ---- The transactions ----

  /** Reader and registry agree, and every accepted stamp lies before the present millisecond. */
  ghost predicate Settled(db: Database) {
    db.holder == None && Serial(db) && Agrees(db) && AllBefore(db.rows, db.clock)
  }

  /** A row stamped from the present clock, committed a millisecond later, settles. */
  lemma AcceptedRowSettles(db: Database, config: string, micros: nat)
    requires Settled(db) && micros >= 1000
    ensures Settled(Database(db.rows + [Row(config, Some(Stamp(db.clock)), Stamp(db.clock), db.registry, Some(db.clock))],
                             Some(config), db.clock + micros, None, NEW))
  {
    var row := Row(config, Some(Stamp(db.clock)), Stamp(db.clock), db.registry, Some(db.clock));
    CommittedRowIsSerial(db, row);
    CommittedRowAgreesIff(db, row);
    assert Stamp(db.clock) < Stamp(db.clock + micros);
    forall i | IsAccepted(db.rows + [row], i) ensures (db.rows + [row])[i].acceptedAt.value < Stamp(db.clock + micros) {
      assert i < |db.rows| ==> IsAccepted(db.rows, i);
    }
  }

  /** In agreement every reader sees the registry's configuration, and the lock being free nothing is pending. */
  lemma SettledReader(db: Database)
    requires db.holder == None && Sound(db) && Agrees(db)
    ensures db.tx == NEW
    ensures forall pick: Option<nat> :: MayReturn(db.rows, pick) ==> ConfigAt(db.rows, pick) == db.registry
  {
  }

  lemma ActivationSettlesIff(db: Database, row: Row)
    requires db.holder == None && Serial(db) && Agrees(db) && row.decidedFrom == db.registry != Some(row.config)
    requires row.acceptedAt.Some? && row.seenAt == row.acceptedAt.value
    ensures Serial(Committed(db, row))
    ensures Agrees(Committed(db, row)) <==> forall i: nat :: MayRead(db.rows, i) ==> db.rows[i].acceptedAt.value < row.seenAt
  {
    CommittedRowIsSerial(db, row);
    CommittedRowAgreesIff(db, row);
    forall i: nat | MayRead(db.rows, i) ensures Some(db.rows[i].config) == db.registry {
      assert MayReturn(db.rows, Some(i));
    }
  }

  class ConfigurationStore {
    var rows: seq<Row>
    var registry: Option<string>
    var clock: nat
    var holder: Option<nat>
    var tx: Transaction

    function State(): Database
      reads this
    {
      Database(rows, registry, clock, holder, tx)
    }

    constructor (clock: nat)
      ensures State() == Start(clock) && Settled(State())
    {
      rows, registry, this.clock, holder, tx := [], None, clock, None, NEW;
    }

    /** Waits for the lock; here it is free. */
    method LockConfiguration(id: nat)
      requires Enabled(State(), Lock(id), 0)
      modifies this`holder, this`tx
      ensures State() == Step(old(State()), Lock(id))
    {
      holder := Some(id);
      tx := NEW;
    }

    method LockedNow(id: nat) returns (date: int)
      requires Enabled(State(), ReadClock(id), 0)
      modifies this`tx
      ensures State() == Step(old(State()), ReadClock(id))
      ensures 1000 * date <= clock < 1000 * (date + 1)
    {
      tx := tx.(clockRead := Some(clock));
      date := clock / 1000;
    }

    /** The scan behind `findAcceptedSnapshot`. */
    method FindAcceptedSnapshot(id: nat) returns (snapshot: Option<string>, ghost pick: Option<nat>)
      requires holder == Some(id) && tx.accepted.None? && tx.written.None?
      modifies this`tx
      ensures MayReturn(rows, pick) && snapshot == ConfigAt(rows, pick)
      ensures Enabled(old(State()), ReadAccepted(id, pick), 0)
      ensures State() == Step(old(State()), ReadAccepted(id, pick))
    {
      var best: Option<nat> := None;
      for i := 0 to |rows|
        invariant best.Some? ==> best.value < i && IsAccepted(rows, best.value)
        invariant forall j :: 0 <= j < i && IsAccepted(rows, j) ==>
                    best.Some? && SortsBefore(rows[j], rows[best.value])
      {
        if rows[i].acceptedAt.Some? && (best.None? || SortsBefore(rows[best.value], rows[i])) {
          best := Some(i);
        }
      }
      pick := best;
      snapshot := ConfigAt(rows, best);
      tx := tx.(accepted := Some(snapshot));
    }

    /** The insert of a database-stamped snapshot and the registry sync after it. */
    method WriteSnapshot(id: nat, config: string, accept: bool)
      requires Enabled(State(), Write(id, config, accept), 0)
      modifies this`tx
      ensures State() == Step(old(State()), Write(id, config, accept))
    {
      var now := Stamp(tx.clockRead.value);
      tx := tx.(written := Some(Row(config, if accept then Some(now) else None, now, tx.accepted.value, tx.clockRead)));
      tx := tx.(sync := if accept then Some(config) else tx.accepted.value);
    }

    /** From agreement, the commit keeps reader and registry in agreement exactly when its stamp is past. */
    method CommitTransaction(id: nat)
      requires Enabled(State(), Commit(id), 0)
      modifies this
      ensures State() == Step(old(State()), Commit(id))
      ensures Sound(old(State())) && Agrees(old(State())) ==> (Agrees(State()) <==> StampIsPast(old(State())))
    {
      ghost var before := State();
      registry := if tx.sync.Some? then tx.sync else registry;
      if tx.written.Some? {
        rows := rows + [tx.written.value];
      }
      holder, tx := None, NEW;
      if Sound(before) && Agrees(before) {
        CommitAgreesIff(before, id);
      }
    }

    method AbortTransaction(id: nat)
      requires Enabled(State(), Abort(id), 0)
      modifies this`holder, this`tx
      ensures State() == Step(old(State()), Abort(id))
    {
      holder, tx := None, NEW;
    }

    method PassTime(micros: nat)
      modifies this`clock
      ensures State() == Step(old(State()), Tick(micros))
    {
      clock := clock + micros;
    }

    /**
     `applyConfigChange`: the configuration that the registry runs is changed by `mutator`, which
     may fail. The commit comes `micros` after the clock was read.
     */
    method ApplyConfigChange(id: nat, mutator: string -> Option<string>, micros: nat) returns (result: Option<string>)
      requires Settled(State()) && micros >= 1000
      modifies this
      ensures Settled(State())
      ensures result == if old(registry).None? then None else mutator(old(registry).value)
      ensures registry == if result.Some? then result else old(registry)
      ensures rows == old(rows) || (result.Some? && rows == old(rows) + [Row(result.value, Some(Stamp(old(clock))), Stamp(old(clock)), old(registry), Some(old(clock)))])
    {
      SettledReader(State());
      hide Settled, Sound, Serial, Agrees, AllBefore, MayReturn, ConfigAt, StampIsPast, Stamp;
      LockConfiguration(id);
      var current, pick := FindAcceptedSnapshot(id);
      result := if current.None? then None else mutator(current.value);
      if result.None? {
        AbortTransaction(id);
        return;
      }
      if result == current {
        CommitTransaction(id);
        return;
      }
      var now := LockedNow(id);
      WriteSnapshot(id, result.value, true);
      PassTime(micros);
      CommitTransaction(id);
      AcceptedRowSettles(old(State()), result.value, micros);
    }

    /**
     `activateFirstMonitor`: the snapshot is stamped with the host's clock. Reader and registry
     agree afterwards exactly when that clock is past every accepted stamp.
     */
    method ActivateFirstMonitor(id: nat, config: string, hostNow: int)
      requires holder == None && Serial(State()) && Agrees(State())
      modifies this
      ensures holder == None && Serial(State()) && registry == Some(config)
      ensures old(registry) == Some(config) ==> Agrees(State())
      ensures old(registry) != Some(config) ==>
        (Agrees(State()) <==> forall i: nat :: MayRead(old(rows), i) ==> old(rows)[i].acceptedAt.value < hostNow)
    {
      SettledReader(State());
      hide Sound, Serial, Agrees, MayReturn, MayRead;
      LockConfiguration(id);
      var accepted, pick := FindAcceptedSnapshot(id);
      if accepted != Some(config) {
        tx := tx.(written := Some(Row(config, Some(hostNow), hostNow, accepted, None)));
        ActivationSettlesIff(old(State()), Row(config, Some(hostNow), hostNow, accepted, None));
      }
      tx := tx.(sync := Some(config));
      CommitTransaction(id);
    }
  }
}
