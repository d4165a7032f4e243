/**
 Bounded admission control: a fixed-window request counter per key that remembers at most
 `maxEntries` keys and forgets the oldest one when a new key needs room.

 A JavaScript Map iterates in insertion order, and an update in place keeps a key's
 position; it is modelled as the keys in that order beside the buckets themselves.
 Times are whole milliseconds, as `Date.now` returns them.
 */
module LocalAdmission {
  import opened Wrappers

  datatype Policy = Policy(limit: int, maxEntries: int, windowMs: int)

  datatype Bucket = Bucket(count: nat, expiresAtMs: int)

  datatype Verdict = Verdict(allowed: bool, retryAfterSeconds: int)

  datatype Table = Table(order: seq<string>, buckets: map<string, Bucket>)

  datatype Request = Request(key: string, at: int)

  /** `Math.max(1, Math.ceil(ms / 1000))`. */
  function RetrySeconds(ms: int): (r: int)
    ensures r >= 1
    ensures ms > 0 ==> 1000 * (r - 1) < ms <= 1000 * r
  {
    var s := (ms + 999) / 1000;
    if s < 1 then 1 else s
  }

  // ---- The control, as a function of its table ----

  function Without(order: seq<string>, key: string): seq<string> {
    if order == [] then []
    else if order[0] == key then Without(order[1..], key)
    else [order[0]] + Without(order[1..], key)
  }

  function Delete(t: Table, key: string): Table {
    Table(Without(t.order, key), t.buckets - {key})
  }

  function Lookup(t: Table, key: string): Option<Bucket> {
    if key in t.buckets then Some(t.buckets[key]) else None
  }

  predicate Live(b: Option<Bucket>, nowMs: int) {
    b.Some? && b.value.expiresAtMs > nowMs
  }

  /** The key pushed out when `key` opens a window. */
  function Evicted(policy: Policy, t: Table, key: string): Option<string> {
    var order := Without(t.order, key);
    if |order| >= policy.maxEntries && order != [] then Some(order[0]) else None
  }

  /** The table with `key` and, if it is still full, its oldest key taken out. */
  function MakeRoom(policy: Policy, t: Table, key: string): Table {
    var cleared := Delete(t, key);
    var evicted := Evicted(policy, t, key);
    if evicted.Some? then Delete(cleared, evicted.value) else cleared
  }

  function Serve(policy: Policy, t: Table, key: string, nowMs: int): (Table, Verdict) {
    if Live(Lookup(t, key), nowMs) then
      var b := t.buckets[key].(count := t.buckets[key].count + 1);
      (t.(buckets := t.buckets[key := b]),
       Verdict(b.count <= policy.limit, RetrySeconds(b.expiresAtMs - nowMs)))
    else
      var room := MakeRoom(policy, t, key);
      (Table(room.order + [key], room.buckets[key := Bucket(1, nowMs + policy.windowMs)]),
       Verdict(true, RetrySeconds(policy.windowMs)))
  }

  // ---- The reference: one independent window per key, nothing ever forgotten ----

  function Touch(policy: Policy, b: Option<Bucket>, nowMs: int): Bucket {
    if Live(b, nowMs) then b.value.(count := b.value.count + 1)
    else Bucket(1, nowMs + policy.windowMs)
  }

  function Answer(policy: Policy, b: Option<Bucket>, nowMs: int): Verdict {
    if Live(b, nowMs) then
      Verdict(b.value.count + 1 <= policy.limit, RetrySeconds(b.value.expiresAtMs - nowMs))
    else
      Verdict(true, RetrySeconds(policy.windowMs))
  }

  /** The last window the key opened, over the whole trace. */
  function Window(policy: Policy, trace: seq<Request>, key: string): Option<Bucket> {
    if trace == [] then None
    else
      var last, earlier := trace[|trace| - 1], Window(policy, trace[..|trace| - 1], key);
      if last.key == key then Some(Touch(policy, earlier, last.at)) else earlier
  }

  // ---- Whole traces ----

  const EMPTY := Table([], map[])

  function After(policy: Policy, trace: seq<Request>): Table {
    if trace == [] then EMPTY
    else
      var last := trace[|trace| - 1];
      Serve(policy, After(policy, trace[..|trace| - 1]), last.key, last.at).0
  }

  function VerdictAt(policy: Policy, trace: seq<Request>, i: nat): Verdict
    requires i < |trace|
  {
    Serve(policy, After(policy, trace[..i]), trace[i].key, trace[i].at).1
  }

  function ReferenceAt(policy: Policy, trace: seq<Request>, i: nat): Verdict
    requires i < |trace|
  {
    Answer(policy, Window(policy, trace[..i], trace[i].key), trace[i].at)
  }

  predicate Nondecreasing(trace: seq<Request>) {
    forall i, j :: 0 <= i < j < |trace| ==> trace[i].at <= trace[j].at
  }

  /** The clock has reached `nowMs` after the trace. */
  predicate UpTo(trace: seq<Request>, nowMs: int) {
    Nondecreasing(trace) && forall i :: 0 <= i < |trace| ==> trace[i].at <= nowMs
  }

  // ---- The object the routes share ----

  class AdmissionControl {
    const policy: Policy
    var order: seq<string>
    var buckets: map<string, Bucket>

    function State(): Table
      reads this
    {
      Table(order, buckets)
    }

    constructor (policy: Policy)
      ensures this.policy == policy && State() == EMPTY && WellFormed(State())
    {
      this.policy := policy;
      order, buckets := [], map[];
    }

    method Check(key: string, nowMs: int) returns (verdict: Verdict)
      requires WellFormed(State())
      modifies this
      ensures WellFormed(State())
      ensures (State(), verdict) == Serve(policy, old(State()), key, nowMs)
    {
      ghost var before := State();
      assert key in order <==> key in buckets;
      MakeRoomCases(policy, before, key);
      hide WellFormed, Without, MakeRoom, Evicted;
      if key in buckets && buckets[key].expiresAtMs > nowMs {
        var existing := buckets[key];
        ServeKeepsWellFormed(policy, before, key, nowMs);
        buckets := buckets[key := existing.(count := existing.count + 1)];
        return Verdict(buckets[key].count <= policy.limit, RetrySeconds(existing.expiresAtMs - nowMs));
      }
      if key in buckets {
        order, buckets := Without(order, key), buckets - {key};
      } else {
        DeleteAbsent(before, key);
      }
      assert State() == Delete(before, key);
      if |order| >= policy.maxEntries {
        if order != [] {
          var oldestKey := order[0];
          order, buckets := Without(order, oldestKey), buckets - {oldestKey};
        }
      }
      assert State() == MakeRoom(policy, before, key);
      order := order + [key];
      buckets := buckets[key := Bucket(1, nowMs + policy.windowMs)];
      ServeKeepsWellFormed(policy, before, key, nowMs);
      return Verdict(true, RetrySeconds(policy.windowMs));
    }

    method Reset()
      modifies this
      ensures State() == EMPTY && WellFormed(State())
    {
      order, buckets := [], map[];
    }
  }

  lemma DeleteAbsent(t: Table, key: string)
    requires key !in t.order && key !in t.buckets
    ensures Delete(t, key) == t
  {
    WithoutAbsent(t.order, key);
  }

  lemma MakeRoomCases(policy: Policy, t: Table, key: string)
    ensures var cleared := Delete(t, key);
      MakeRoom(policy, t, key) ==
        if |cleared.order| >= policy.maxEntries && cleared.order != [] then Delete(cleared, cleared.order[0]) else cleared
  {
  }

  // ---- What every table reached by a trace looks like ----

  predicate Distinct(order: seq<string>) {
    forall i, j :: 0 <= i < j < |order| ==> order[i] != order[j]
  }

  ghost predicate WellFormed(t: Table) {
    && Distinct(t.order)
    && forall k :: k in t.order <==> k in t.buckets
  }

  predicate SortedBy(order: seq<string>, buckets: map<string, Bucket>) {
    && (forall k :: k in order ==> k in buckets)
    && forall i, j :: 0 <= i < j < |order| ==>
         buckets[order[i]].expiresAtMs <= buckets[order[j]].expiresAtMs
  }

  /** Insertion order is expiry order. */
  ghost predicate ExpirySorted(t: Table) {
    SortedBy(t.order, t.buckets)
  }

  ghost predicate Sound(policy: Policy, t: Table, nowMs: int) {
    && WellFormed(t)
    && ExpirySorted(t)
    && (forall k :: k in t.buckets ==> t.buckets[k].expiresAtMs <= nowMs + policy.windowMs)
    && |t.order| <= if policy.maxEntries < 1 then 1 else policy.maxEntries
  }

  lemma {:induction false} WithoutAbsent(order: seq<string>, key: string)
    ensures key !in order ==> Without(order, key) == order
  {
    if order != [] && key !in order {
      WithoutAbsent(order[1..], key);
    }
  }

  lemma {:induction false} WithoutMembers(order: seq<string>, key: string)
    ensures forall k :: k in Without(order, key) <==> k in order && k != key
    ensures |Without(order, key)| <= |order|
    ensures key in order ==> |Without(order, key)| < |order|
  {
    if order != [] {
      WithoutMembers(order[1..], key);
      assert order == [order[0]] + order[1..];
    }
  }

  lemma {:induction false} WithoutKeepsDistinct(order: seq<string>, key: string)
    requires Distinct(order)
    ensures Distinct(Without(order, key))
  {
    if order != [] {
      assert forall i :: 0 <= i < |order[1..]| ==> order[1..][i] == order[i + 1] != order[0];
      WithoutKeepsDistinct(order[1..], key);
      WithoutMembers(order[1..], key);
      assert order[0] !in Without(order[1..], key);
    }
  }

  lemma DeleteKeepsWellFormed(t: Table, key: string)
    requires WellFormed(t)
    ensures WellFormed(Delete(t, key))
  {
    WithoutMembers(t.order, key);
    WithoutKeepsDistinct(t.order, key);
  }

  /** The order lists each key of the map once, whatever the clock does. */
  lemma ServeKeepsWellFormed(policy: Policy, t: Table, key: string, nowMs: int)
    requires WellFormed(t)
    ensures WellFormed(Serve(policy, t, key, nowMs).0)
  {
    var cleared := Delete(t, key);
    DeleteKeepsWellFormed(t, key);
    var evicted := Evicted(policy, t, key);
    if evicted.Some? {
      DeleteKeepsWellFormed(cleared, evicted.value);
    }
    var room := MakeRoom(policy, t, key);
    assert key !in room.buckets;
    assert forall k :: k in room.order + [key] <==> k in room.order || k == key;
  }

  predicate First(first: string, order: seq<string>, buckets: map<string, Bucket>) {
    first in buckets &&
    forall k :: k in order ==>
      k != first && k in buckets && buckets[first].expiresAtMs <= buckets[k].expiresAtMs
  }

  lemma OrderParts(order: seq<string>, buckets: map<string, Bucket>)
    requires order != [] && Distinct(order) && SortedBy(order, buckets)
    ensures Distinct(order[1..]) && SortedBy(order[1..], buckets) && First(order[0], order[1..], buckets)
  {
    assert forall i :: 0 <= i < |order[1..]| ==> order[1..][i] == order[i + 1];
  }

  lemma OrderJoin(first: string, order: seq<string>, buckets: map<string, Bucket>)
    requires Distinct(order) && SortedBy(order, buckets) && First(first, order, buckets)
    ensures Distinct([first] + order) && SortedBy([first] + order, buckets)
  {
  }

  lemma {:induction false} WithoutKeepsOrder(order: seq<string>, buckets: map<string, Bucket>, key: string)
    requires Distinct(order) && SortedBy(order, buckets)
    ensures Distinct(Without(order, key)) && SortedBy(Without(order, key), buckets)
  {
    if order != [] {
      OrderParts(order, buckets);
      hide Distinct, SortedBy;
      WithoutKeepsOrder(order[1..], buckets, key);
      WithoutMembers(order[1..], key);
      if order[0] != key {
        OrderJoin(order[0], Without(order[1..], key), buckets);
      }
    }
  }

  /** Deleting a key keeps the rest in place. */
  lemma DeleteKeepsOrder(t: Table, key: string)
    requires WellFormed(t) && ExpirySorted(t)
    ensures WellFormed(Delete(t, key)) && ExpirySorted(Delete(t, key))
    ensures |Delete(t, key).order| <= |t.order| && (key in t.order ==> |Delete(t, key).order| < |t.order|)
  {
    WithoutMembers(t.order, key);
    WithoutKeepsOrder(t.order, t.buckets, key);
  }

  /** A new window goes to the end of the order and expires last. */
  lemma AppendKeepsOrder(t: Table, key: string, b: Bucket)
    requires WellFormed(t) && ExpirySorted(t) && key !in t.buckets
    requires forall k :: k in t.buckets ==> t.buckets[k].expiresAtMs <= b.expiresAtMs
    ensures var after := Table(t.order + [key], t.buckets[key := b]);
      WellFormed(after) && ExpirySorted(after)
  {
    assert forall k :: k in t.order + [key] <==> k in t.order || k == key;
  }

  lemma MakeRoomKeepsOrder(policy: Policy, t: Table, key: string)
    requires WellFormed(t) && ExpirySorted(t)
    requires |t.order| <= if policy.maxEntries < 1 then 1 else policy.maxEntries
    ensures var room := MakeRoom(policy, t, key);
      && WellFormed(room) && ExpirySorted(room) && key !in room.buckets
      && (forall k :: k in room.buckets ==> k in t.buckets && room.buckets[k] == t.buckets[k])
      && |room.order| < if policy.maxEntries < 1 then 1 else policy.maxEntries
  {
    var cleared := Delete(t, key);
    DeleteKeepsOrder(t, key);
    var evicted := Evicted(policy, t, key);
    if evicted.Some? {
      DeleteKeepsOrder(cleared, evicted.value);
    }
  }

  lemma ServeKeepsSound(policy: Policy, t: Table, key: string, before: int, nowMs: int)
    requires policy.windowMs > 0 && before <= nowMs && Sound(policy, t, before)
    ensures Sound(policy, Serve(policy, t, key, nowMs).0, nowMs)
  {
    hide Without, MakeRoom, SortedBy;
    if Live(Lookup(t, key), nowMs) {
      CountKeepsOrder(t, key);
    } else {
      MakeRoomKeepsOrder(policy, t, key);
      AppendKeepsOrder(MakeRoom(policy, t, key), key, Bucket(1, nowMs + policy.windowMs));
    }
  }

  /** Counting in place moves nothing. */
  lemma CountKeepsOrder(t: Table, key: string)
    requires WellFormed(t) && ExpirySorted(t) && key in t.buckets
    ensures var b := t.buckets[key];
      var after := t.(buckets := t.buckets[key := b.(count := b.count + 1)]);
      WellFormed(after) && ExpirySorted(after)
  {
  }

  /** On a nondecreasing clock every reachable table is sound. */
  lemma {:induction false} ReachableSound(policy: Policy, trace: seq<Request>, nowMs: int)
    requires policy.windowMs > 0 && UpTo(trace, nowMs)
    ensures Sound(policy, After(policy, trace), nowMs)
  {
    if trace != [] {
      var last := trace[|trace| - 1];
      ReachableSound(policy, trace[..|trace| - 1], last.at);
      ServeKeepsSound(policy, After(policy, trace[..|trace| - 1]), last.key, last.at, last.at);
    }
  }

  // ---- Eviction ----

  /** Serving this request pushes out a window that is still open. */
  predicate EvictsLive(policy: Policy, t: Table, key: string, nowMs: int) {
    && !Live(Lookup(t, key), nowMs)
    && var evicted := Evicted(policy, t, key);
       evicted.Some? && Live(Lookup(t, evicted.value), nowMs)
  }

  /** An open window is pushed out exactly when the table is full and every other window is open. */
  lemma EvictsLiveIff(policy: Policy, t: Table, key: string, nowMs: int)
    requires WellFormed(t) && ExpirySorted(t) && !Live(Lookup(t, key), nowMs)
    ensures var others := Without(t.order, key);
      EvictsLive(policy, t, key, nowMs) <==>
      (others != [] && |others| >= policy.maxEntries
        && forall k :: k in others ==> Live(Lookup(t, k), nowMs))
  {
    var others := Without(t.order, key);
    DeleteKeepsOrder(t, key);
    WithoutMembers(t.order, key);
    if EvictsLive(policy, t, key, nowMs) {
      forall k | k in others ensures Live(Lookup(t, k), nowMs) {
        var i :| 0 <= i < |others| && others[i] == k;
        assert t.buckets[others[0]].expiresAtMs <= t.buckets[others[i]].expiresAtMs by {
          assert Delete(t, key).order == others;
        }
      }
    }
  }

  // ---- The control against the reference ----

  /** While its window is open, the control knows `key` exactly as the reference does. */
  predicate Agree(table: Option<Bucket>, reference: Option<Bucket>, nowMs: int) {
    (Live(table, nowMs) || Live(reference, nowMs)) ==> table == reference
  }

  lemma ServeElsewhere(policy: Policy, t: Table, key: string, other: string, nowMs: int)
    requires WellFormed(t) && other != key
    ensures var after := Lookup(Serve(policy, t, other, nowMs).0, key);
      || after == Lookup(t, key)
      || (after == None && !Live(Lookup(t, other), nowMs) && Evicted(policy, t, other) == Some(key))
  {
  }

  /** The key's own window survives every request of the trace while it is open. */
  ghost predicate Undisturbed(policy: Policy, trace: seq<Request>, key: string) {
    forall i :: 0 <= i < |trace| && trace[i].key != key ==> !PushesOut(policy, trace, i, key)
  }

  predicate PushesOut(policy: Policy, trace: seq<Request>, i: nat, key: string)
    requires i < |trace|
  {
    var t := After(policy, trace[..i]);
    && !Live(Lookup(t, trace[i].key), trace[i].at)
    && Evicted(policy, t, trace[i].key) == Some(key)
    && Live(Lookup(t, key), trace[i].at)
  }

  lemma UndisturbedPrefix(policy: Policy, trace: seq<Request>, key: string)
    requires trace != [] && Undisturbed(policy, trace, key)
    ensures Undisturbed(policy, trace[..|trace| - 1], key)
  {
    var prefix := trace[..|trace| - 1];
    forall i | 0 <= i < |prefix| && prefix[i].key != key ensures !PushesOut(policy, prefix, i, key) {
      assert trace[..i] == prefix[..i] && trace[i] == prefix[i];
      assert !PushesOut(policy, trace, i, key);
    }
  }

  lemma {:induction false} KeyAgreement(policy: Policy, trace: seq<Request>, key: string, nowMs: int)
    requires policy.windowMs > 0 && UpTo(trace, nowMs) && Undisturbed(policy, trace, key)
    ensures Agree(Lookup(After(policy, trace), key), Window(policy, trace, key), nowMs)
  {
    if trace != [] {
      var n := |trace| - 1;
      var last, prefix := trace[n], trace[..n];
      UndisturbedPrefix(policy, trace, key);
      KeyAgreement(policy, prefix, key, last.at);
      ReachableSound(policy, prefix, last.at);
      if last.key != key {
        ServeElsewhere(policy, After(policy, prefix), key, last.key, last.at);
        assert !PushesOut(policy, trace, n, key);
      }
    }
  }

  /** A key that is never pushed out while open gets the reference's answers. */
  lemma UndisturbedAnswers(policy: Policy, trace: seq<Request>, i: nat)
    requires policy.windowMs > 0 && Nondecreasing(trace) && i < |trace|
    requires Undisturbed(policy, trace[..i], trace[i].key)
    ensures VerdictAt(policy, trace, i) == ReferenceAt(policy, trace, i)
  {
    KeyAgreement(policy, trace[..i], trace[i].key, trace[i].at);
  }

  ghost function Keys(trace: seq<Request>): set<string> {
    set i | 0 <= i < |trace| :: trace[i].key
  }

  /** The keys other than `key` whose reference window is open. */
  ghost function LiveOthers(policy: Policy, trace: seq<Request>, key: string, nowMs: int): set<string> {
    set k | k in Keys(trace) && k != key && Live(Window(policy, trace, k), nowMs)
  }

  /** At every opening of a window fewer than `maxEntries` other windows are open. */
  ghost predicate Uncrowded(policy: Policy, trace: seq<Request>) {
    forall i :: 0 <= i < |trace| && !Live(Window(policy, trace[..i], trace[i].key), trace[i].at) ==>
      |LiveOthers(policy, trace[..i], trace[i].key, trace[i].at)| < policy.maxEntries
  }

  lemma {:induction false} WindowOfStranger(policy: Policy, trace: seq<Request>, key: string)
    requires key !in Keys(trace)
    ensures Window(policy, trace, key) == None
  {
    if trace != [] {
      var n := |trace| - 1;
      assert trace[n].key in Keys(trace);
      forall k | k in Keys(trace[..n]) ensures k in Keys(trace) {
        var i :| 0 <= i < n && trace[..n][i].key == k;
        assert trace[i].key == k;
      }
      WindowOfStranger(policy, trace[..n], key);
    }
  }

  lemma {:induction false} DistinctCardinality(order: seq<string>)
    requires Distinct(order)
    ensures |set k | k in order| == |order|
  {
    if order != [] {
      DistinctCardinality(order[1..]);
      assert (set k | k in order) == {order[0]} + set k | k in order[1..];
    }
  }

  lemma SubsetCardinality(a: set<string>, b: set<string>)
    requires a <= b
    ensures |a| <= |b|
  {
    if a != {} {
      var x :| x in a;
      SubsetCardinality(a - {x}, b - {x});
    }
  }

  /** In an uncrowded trace no open window is ever pushed out. */
  lemma {:induction false} UncrowdedKeepsLive(policy: Policy, trace: seq<Request>, i: nat)
    requires policy.windowMs > 0 && Nondecreasing(trace) && Uncrowded(policy, trace) && i < |trace|
    ensures !EvictsLive(policy, After(policy, trace[..i]), trace[i].key, trace[i].at)
    decreases i
  {
    var prefix, key, at := trace[..i], trace[i].key, trace[i].at;
    var t := After(policy, prefix);
    ReachableSound(policy, prefix, at);
    forall k ensures Agree(Lookup(t, k), Window(policy, prefix, k), at) {
      forall j | 0 <= j < i && prefix[j].key != k ensures !PushesOut(policy, prefix, j, k) {
        assert prefix[..j] == trace[..j] && prefix[j] == trace[j];
        UncrowdedKeepsLive(policy, trace, j);
      }
      KeyAgreement(policy, prefix, k, at);
    }
    if EvictsLive(policy, t, key, at) {
      EvictsLiveIff(policy, t, key, at);
      CrowdedTable(policy, prefix, t, key, at);
      assert false;
    }
  }

  lemma CrowdedTable(policy: Policy, trace: seq<Request>, t: Table, key: string, nowMs: int)
    requires WellFormed(t) && ExpirySorted(t)
    requires forall k :: Agree(Lookup(t, k), Window(policy, trace, k), nowMs)
    requires |Without(t.order, key)| >= policy.maxEntries
    requires forall k :: k in Without(t.order, key) ==> Live(Lookup(t, k), nowMs)
    ensures |LiveOthers(policy, trace, key, nowMs)| >= policy.maxEntries
  {
    var others := Without(t.order, key);
    DeleteKeepsOrder(t, key);
    WithoutMembers(t.order, key);
    DistinctCardinality(others);
    forall k | k in others ensures k in LiveOthers(policy, trace, key, nowMs) {
      assert Agree(Lookup(t, k), Window(policy, trace, k), nowMs);
      if k !in Keys(trace) {
        WindowOfStranger(policy, trace, k);
      }
    }
    SubsetCardinality((set k | k in others), LiveOthers(policy, trace, key, nowMs));
  }

  /** The bounded control answers an uncrowded trace exactly as the unbounded limiter does. */
  lemma UncrowdedAnswers(policy: Policy, trace: seq<Request>, i: nat)
    requires policy.windowMs > 0 && Nondecreasing(trace) && Uncrowded(policy, trace) && i < |trace|
    ensures VerdictAt(policy, trace, i) == ReferenceAt(policy, trace, i)
  {
    var prefix, key := trace[..i], trace[i].key;
    forall j | 0 <= j < i && prefix[j].key != key ensures !PushesOut(policy, prefix, j, key) {
      assert prefix[..j] == trace[..j] && prefix[j] == trace[j];
      UncrowdedKeepsLive(policy, trace, j);
    }
    UndisturbedAnswers(policy, trace, i);
  }

  // ---- How many keys the control can tell apart ----

  function Capacity(policy: Policy): nat {
    if policy.maxEntries < 1 then 1 else policy.maxEntries
  }

  /** Every request of every trace over these keys is answered as the unbounded limiter answers it. */
  ghost predicate AnsweredAlike(policy: Policy, keys: set<string>) {
    forall trace: seq<Request>, i: nat :: Nondecreasing(trace) && Keys(trace) <= keys && i < |trace| ==>
      VerdictAt(policy, trace, i) == ReferenceAt(policy, trace, i)
  }

  /** The table holds keys of the trace only. */
  lemma {:induction false} TableKeys(policy: Policy, trace: seq<Request>)
    ensures forall k :: k in After(policy, trace).order ==> k in Keys(trace)
  {
    if trace != [] {
      var n := |trace| - 1;
      var t, key := After(policy, trace[..n]), trace[n].key;
      TableKeys(policy, trace[..n]);
      assert forall k :: k in Keys(trace[..n]) ==> k in Keys(trace) by {
        forall k | k in Keys(trace[..n]) ensures k in Keys(trace) {
          var i :| 0 <= i < n && trace[..n][i].key == k;
          assert trace[i].key == k;
        }
      }
      assert key in Keys(trace);
      WithoutMembers(t.order, key);
      var cleared := Without(t.order, key);
      if cleared != [] {
        WithoutMembers(cleared, cleared[0]);
      }
    }
  }

  /** With no more keys than entries nothing is ever pushed out. */
  lemma FewKeysAreUndisturbed(policy: Policy, trace: seq<Request>, key: string, keys: set<string>)
    requires policy.windowMs > 0 && Nondecreasing(trace) && Keys(trace) <= keys && |keys| <= Capacity(policy)
    ensures Undisturbed(policy, trace, key)
  {
    forall i | 0 <= i < |trace| && trace[i].key != key ensures !PushesOut(policy, trace, i, key) {
      var t, other := After(policy, trace[..i]), trace[i].key;
      TableKeys(policy, trace[..i]);
      ReachableSound(policy, trace[..i], trace[i].at);
      WithoutMembers(t.order, other);
      WithoutKeepsDistinct(t.order, other);
      var rest := Without(t.order, other);
      DistinctCardinality(rest);
      assert other in keys by {
        assert other in Keys(trace);
      }
      forall k | k in rest ensures k in keys - {other} {
        var j :| 0 <= j < i && trace[..i][j].key == k;
        assert trace[j].key in Keys(trace);
      }
      SubsetCardinality((set k | k in rest), keys - {other});
      assert Evicted(policy, t, other) == None;
    }
  }

  function Repeat(r: Request, n: nat): seq<Request> {
    if n == 0 then [] else Repeat(r, n - 1) + [r]
  }

  /** One request at time 0 from each of the first `n` keys. */
  function Visits(keys: seq<string>, n: nat): seq<Request>
    requires n <= |keys|
  {
    seq(n, i requires 0 <= i < n => Request(keys[i], 0))
  }

  /** One more request. */
  lemma OneMore(policy: Policy, trace: seq<Request>, r: Request, key: string)
    ensures After(policy, trace + [r]) == Serve(policy, After(policy, trace), r.key, r.at).0
    ensures var w := Window(policy, trace, key);
      Window(policy, trace + [r], key) == if r.key == key then Some(Touch(policy, w, r.at)) else w
  {
    assert (trace + [r])[..|trace|] == trace;
  }

  lemma FirstVisit(policy: Policy, key: string)
    requires policy.windowMs > 0
    ensures Serve(policy, EMPTY, key, 0)
         == (Table([key], map[key := Bucket(1, policy.windowMs)]), Verdict(true, RetrySeconds(policy.windowMs)))
  {
    assert [] + [key] == [key];
  }

  lemma Revisit(policy: Policy, key: string, n: nat)
    requires policy.windowMs > 0
    ensures Serve(policy, Table([key], map[key := Bucket(n, policy.windowMs)]), key, 0).0
         == Table([key], map[key := Bucket(n + 1, policy.windowMs)])
  {
  }

  lemma {:induction false} RepeatedKey(policy: Policy, key: string, n: nat)
    requires policy.windowMs > 0 && n >= 1
    ensures After(policy, Repeat(Request(key, 0), n)) == Table([key], map[key := Bucket(n, policy.windowMs)])
    ensures Window(policy, Repeat(Request(key, 0), n), key) == Some(Bucket(n, policy.windowMs))
  {
    hide Serve;
    var r := Request(key, 0);
    assert Repeat(r, n) == Repeat(r, n - 1) + [r];
    OneMore(policy, Repeat(r, n - 1), r, key);
    if n > 1 {
      hide After, Window, Repeat;
      RepeatedKey(policy, key, n - 1);
      Revisit(policy, key, n - 1);
    } else {
      FirstVisit(policy, key);
    }
  }

  lemma AllAtZero(trace: seq<Request>)
    requires forall i :: 0 <= i < |trace| ==> trace[i].at == 0
    ensures UpTo(trace, 0)
  {
  }

  lemma {:induction false} RepeatLength(r: Request, n: nat)
    ensures |Repeat(r, n)| == n && forall i :: 0 <= i < n ==> Repeat(r, n)[i] == r
  {
    if n > 0 {
      RepeatLength(r, n - 1);
    }
  }

  /** A new key goes to the end, after the head has made room in a full table. */
  lemma NewKeyQueues(policy: Policy, t: Table, key: string, nowMs: int)
    requires WellFormed(t) && key !in t.order && t.order != []
    ensures Serve(policy, t, key, nowMs).0.order
         == (if |t.order| >= policy.maxEntries then t.order[1..] else t.order) + [key]
  {
    WithoutAbsent(t.order, key);
    assert t.order[0] !in t.order[1..];
    WithoutAbsent(t.order[1..], t.order[0]);
  }

  /** New keys queue up behind the first one until they fill the table; the last of them pushes it out. */
  lemma {:induction false} VisitorsPushOut(policy: Policy, key: string, count: nat, others: seq<string>, n: nat)
    requires policy.windowMs > 0 && count >= 1 && Distinct([key] + others) && n <= |others| == Capacity(policy)
    ensures var trace := Repeat(Request(key, 0), count) + Visits(others, n);
      && After(policy, trace).order == (if n < |others| then [key] + others[..n] else others[..n])
      && Window(policy, trace, key) == Some(Bucket(count, policy.windowMs))
  {
    hide Serve, After, Window, WellFormed, Nondecreasing, ExpirySorted;
    var start := Repeat(Request(key, 0), count);
    if n == 0 {
      RepeatedKey(policy, key, count);
      assert start + Visits(others, 0) == start;
    } else {
      var visitor := others[n - 1];
      var trace := start + Visits(others, n - 1);
      VisitorsPushOut(policy, key, count, others, n - 1);
      assert start + Visits(others, n) == trace + [Request(visitor, 0)];
      OneMore(policy, trace, Request(visitor, 0), key);
      DistinctParts(key, others, n);
      hide Distinct;
      RepeatLength(Request(key, 0), count);
      AllAtZero(trace);
      ReachableSound(policy, trace, 0);
      NewKeyQueues(policy, After(policy, trace), visitor, 0);
      assert ([key] + others[..n - 1])[1..] == others[..n - 1];
      assert others[..n] == others[..n - 1] + [visitor];
      assert [key] + others[..n] == [key] + others[..n - 1] + [visitor];
    }
  }

  lemma DistinctParts(key: string, others: seq<string>, n: nat)
    requires Distinct([key] + others) && 1 <= n <= |others|
    ensures others[n - 1] !in [key] + others[..n - 1] && key !in others
  {
    var all := [key] + others;
    forall i | 0 <= i < |others| ensures others[i] == all[i + 1] != all[0] {
    }
    forall i | 0 <= i < n - 1 ensures others[i] != others[n - 1] {
      assert all[i + 1] != all[n];
    }
  }

  /** One key more than the table holds: use up the first key's limit, let the others push it out, and it is admitted again. */
  lemma ForgottenKey(policy: Policy, key: string, others: seq<string>) returns (trace: seq<Request>)
    requires policy.windowMs > 0 && policy.limit >= 1 && Distinct([key] + others) && |others| == Capacity(policy)
    ensures Nondecreasing(trace) && trace != [] && forall k :: k in Keys(trace) ==> k in [key] + others
    ensures VerdictAt(policy, trace, |trace| - 1).allowed && !ReferenceAt(policy, trace, |trace| - 1).allowed
  {
    hide After, Window, WellFormed, ExpirySorted, VerdictAt, ReferenceAt, Distinct, Serve;
    var before := Repeat(Request(key, 0), policy.limit) + Visits(others, |others|);
    RepeatLength(Request(key, 0), policy.limit);
    trace := before + [Request(key, 0)];
    AllAtZero(before);
    AllAtZero(trace);
    VisitorsPushOut(policy, key, policy.limit, others, |others|);
    DistinctParts(key, others, |others|);
    assert others[..|others|] == others;
    LastRequest(policy, before, Request(key, 0));
    forall k | k in Keys(trace) ensures k in [key] + others {
      var i :| 0 <= i < |trace| && trace[i].key == k;
    }
  }

  /** A key absent from the table is admitted; the reference counts on. */
  lemma LastRequest(policy: Policy, before: seq<Request>, r: Request)
    requires policy.windowMs > 0 && UpTo(before, r.at) && r.key !in After(policy, before).order
    ensures var trace := before + [r];
      && VerdictAt(policy, trace, |before|).allowed
      && ReferenceAt(policy, trace, |before|) == Answer(policy, Window(policy, before, r.key), r.at)
  {
    ReachableSound(policy, before, r.at);
    assert (before + [r])[..|before|] == before;
    hide After, Window;
  }

  lemma {:induction false} PickKeys(keys: set<string>, n: nat) returns (picked: seq<string>)
    requires n <= |keys|
    ensures |picked| == n && Distinct(picked) && forall k :: k in picked ==> k in keys
  {
    if n == 0 {
      picked := [];
    } else {
      var k :| k in keys;
      var rest := PickKeys(keys - {k}, n - 1);
      picked := [k] + rest;
    }
  }

  /** The bounded control is the unbounded limiter on all traces over a set of keys exactly when it has an entry for each. */
  lemma AnsweredAlikeIff(policy: Policy, keys: set<string>)
    requires policy.windowMs > 0 && policy.limit >= 1
    ensures AnsweredAlike(policy, keys) <==> |keys| <= Capacity(policy)
  {
    if |keys| <= Capacity(policy) {
      forall trace: seq<Request>, i: nat | Nondecreasing(trace) && Keys(trace) <= keys && i < |trace|
        ensures VerdictAt(policy, trace, i) == ReferenceAt(policy, trace, i)
      {
        assert Keys(trace[..i]) <= keys by {
          forall k | k in Keys(trace[..i]) ensures k in keys {
            var j :| 0 <= j < i && trace[..i][j].key == k;
            assert trace[j].key in Keys(trace);
          }
        }
        FewKeysAreUndisturbed(policy, trace[..i], trace[i].key, keys);
        UndisturbedAnswers(policy, trace, i);
      }
    } else {
      var picked := PickKeys(keys, Capacity(policy) + 1);
      assert [picked[0]] + picked[1..] == picked;
      var trace := ForgottenKey(policy, picked[0], picked[1..]);
      var last: nat := |trace| - 1;
      assert Keys(trace) <= keys && VerdictAt(policy, trace, last) != ReferenceAt(policy, trace, last);
    }
  }

  // ---- How much a key can get ----

  /** Requests of `key` admitted at or after `from` and before `from + windowMs`. */
  function Admitted(policy: Policy, trace: seq<Request>, key: string, from: int): nat {
    if trace == [] then 0
    else
      var n := |trace| - 1;
      var r := trace[n];
      Admitted(policy, trace[..n], key, from)
      + if r.key == key && from <= r.at < from + policy.windowMs && VerdictAt(policy, trace, n).allowed then 1 else 0
  }

  function Min(a: int, b: int): int {
    if a < b then a else b
  }

  /** How many admissions the interval can hold, by where the key's last window was opened. */
  function Allowance(policy: Policy, w: Option<Bucket>, from: int): int {
    match w
    case None => 0
    case Some(b) =>
      var openedAt := b.expiresAtMs - policy.windowMs;
      if b.expiresAtMs <= from then 0
      else if openedAt < from then Min(b.count, policy.limit) - 1
      else if openedAt == from then Min(b.count, policy.limit)
      else if openedAt < from + policy.windowMs then policy.limit - 1 + Min(b.count, policy.limit)
      else MostAdmitted(policy)
  }

  /** The most that one interval of a window's length can admit. */
  function MostAdmitted(policy: Policy): int {
    if policy.windowMs == 1 then policy.limit else 2 * policy.limit - 1
  }

  lemma {:induction false} WindowFacts(policy: Policy, trace: seq<Request>, key: string, nowMs: int)
    requires policy.windowMs > 0 && UpTo(trace, nowMs)
    ensures var w := Window(policy, trace, key);
      w.Some? ==> w.value.count >= 1 && w.value.expiresAtMs - policy.windowMs <= nowMs
  {
    if trace != [] {
      WindowFacts(policy, trace[..|trace| - 1], key, trace[|trace| - 1].at);
    }
  }

  /** One more request adds to the allowance at least what it may add to the admissions. */
  lemma AllowanceStep(policy: Policy, w: Option<Bucket>, at: int, from: int)
    requires policy.windowMs > 0 && policy.limit >= 1
    requires w.Some? ==> w.value.count >= 1 && w.value.expiresAtMs - policy.windowMs <= at
    ensures Allowance(policy, w, from)
            + (if from <= at < from + policy.windowMs && Answer(policy, w, at).allowed then 1 else 0)
         <= Allowance(policy, Some(Touch(policy, w, at)), from)
  {
  }

  lemma {:induction false} AdmittedWithinAllowance(policy: Policy, trace: seq<Request>, key: string, from: int)
    requires policy.windowMs > 0 && policy.limit >= 1
    requires Nondecreasing(trace) && Undisturbed(policy, trace, key)
    ensures Admitted(policy, trace, key, from) <= Allowance(policy, Window(policy, trace, key), from)
  {
    if trace != [] {
      var n := |trace| - 1;
      UndisturbedPrefix(policy, trace, key);
      AdmittedWithinAllowance(policy, trace[..n], key, from);
      var earlier, at := Window(policy, trace[..n], key), trace[n].at;
      if trace[n].key == key {
        UndisturbedAnswers(policy, trace, n);
        WindowFacts(policy, trace[..n], key, at);
        AllowanceStep(policy, earlier, at, from);
      }
    }
  }

  /** Every interval of one window's length admits less than twice the limit, or the limit when a window is an instant. */
  lemma TwiceTheLimit(policy: Policy, trace: seq<Request>, key: string, from: int)
    requires policy.windowMs > 0 && policy.limit >= 1
    requires Nondecreasing(trace) && Undisturbed(policy, trace, key)
    ensures Admitted(policy, trace, key, from) <= MostAdmitted(policy) < 2 * policy.limit
  {
    AdmittedWithinAllowance(policy, trace, key, from);
  }

  /** The table that holds this key only. */
  function Alone(key: string, b: Bucket): Table {
    Table([key], map[key := b])
  }

  lemma RepeatOnce(trace: seq<Request>, r: Request, n: nat)
    ensures trace + Repeat(r, 0) == trace
    ensures n >= 1 ==> trace + Repeat(r, n) == trace + Repeat(r, n - 1) + [r]
  {
  }

  /** `n` more requests of the key at one instant, from a table that holds it alone. */
  lemma {:induction false} Burst(policy: Policy, trace: seq<Request>, key: string, at: int, n: nat, b: Bucket, from: int)
    requires After(policy, trace) == Alone(key, b) && b.expiresAtMs > at && b.count + n <= policy.limit
    requires from <= at < from + policy.windowMs
    ensures After(policy, trace + Repeat(Request(key, at), n)) == Alone(key, Bucket(b.count + n, b.expiresAtMs))
    ensures Admitted(policy, trace + Repeat(Request(key, at), n), key, from) == Admitted(policy, trace, key, from) + n
    decreases n
  {
    hide After, Admitted, Serve, Alone, Repeat;
    var r := Request(key, at);
    RepeatOnce(trace, r, n);
    if n > 0 {
      var earlier := trace + Repeat(r, n - 1);
      Burst(policy, trace, key, at, n - 1, b, from);
      OneMore(policy, earlier, r, key);
      AdmittedOneMore(policy, earlier, r, key, from);
      Counted(policy, key, Bucket(b.count + n - 1, b.expiresAtMs), at);
    }
  }

  /** An open window within its limit counts and admits. */
  lemma Counted(policy: Policy, key: string, b: Bucket, at: int)
    requires b.expiresAtMs > at && b.count < policy.limit
    ensures var (t, verdict) := Serve(policy, Alone(key, b), key, at);
      t == Alone(key, Bucket(b.count + 1, b.expiresAtMs)) && verdict.allowed
  {
  }

  lemma AdmittedOneMore(policy: Policy, trace: seq<Request>, r: Request, key: string, from: int)
    ensures Admitted(policy, trace + [r], key, from)
         == Admitted(policy, trace, key, from)
            + if r.key == key && from <= r.at < from + policy.windowMs && Serve(policy, After(policy, trace), r.key, r.at).1.allowed then 1 else 0
  {
    assert (trace + [r])[..|trace|] == trace;
  }

  /** A window that expired is replaced by a new one in place. */
  lemma Reopened(policy: Policy, key: string, b: Bucket, at: int)
    requires b.expiresAtMs <= at
    ensures Serve(policy, Alone(key, b), key, at)
         == (Alone(key, Bucket(1, at + policy.windowMs)), Verdict(true, RetrySeconds(policy.windowMs)))
  {
    assert Without([key], key) == [];
    assert [] + [key] == [key];
  }

  /** A window opened at 0, used up at its last instant. */
  function FirstBurst(policy: Policy, key: string): seq<Request>
    requires policy.limit >= 1
  {
    [Request(key, 0)] + Repeat(Request(key, policy.windowMs - 1), policy.limit - 1)
  }

  /** The next window, opened and used up when the first one expires. */
  function SecondBurst(policy: Policy, key: string): seq<Request>
    requires policy.limit >= 1
  {
    [Request(key, policy.windowMs)] + Repeat(Request(key, policy.windowMs), policy.limit - 1)
  }

  lemma FirstBurstAdmits(policy: Policy, key: string)
    requires policy.windowMs >= 2 && policy.limit >= 1
    ensures After(policy, FirstBurst(policy, key)) == Alone(key, Bucket(policy.limit, policy.windowMs))
    ensures Admitted(policy, FirstBurst(policy, key), key, policy.windowMs - 1) == policy.limit - 1
  {
    hide After, Admitted, Serve, Repeat;
    var w := policy.windowMs;
    FirstRequest(policy, key, w - 1);
    Burst(policy, [Request(key, 0)], key, w - 1, policy.limit - 1, Bucket(1, w), w - 1);
  }

  lemma SecondBurstAdmits(policy: Policy, key: string)
    requires policy.windowMs >= 2 && policy.limit >= 1
    ensures Admitted(policy, FirstBurst(policy, key) + SecondBurst(policy, key), key, policy.windowMs - 1) == 2 * policy.limit - 1
  {
    hide After, Admitted, Serve, Repeat;
    var w, r := policy.windowMs, Request(key, policy.windowMs);
    var first := FirstBurst(policy, key);
    FirstBurstAdmits(policy, key);
    hide FirstBurst;
    OneMore(policy, first, r, key);
    AdmittedOneMore(policy, first, r, key, w - 1);
    Reopened(policy, key, Bucket(policy.limit, w), w);
    Burst(policy, first + [r], key, w, policy.limit - 1, Bucket(1, 2 * w), w - 1);
    assert first + [r] + Repeat(r, policy.limit - 1) == first + ([r] + Repeat(r, policy.limit - 1));
  }

  lemma BurstsInOrder(policy: Policy, key: string)
    requires policy.windowMs >= 2 && policy.limit >= 1
    ensures var trace := FirstBurst(policy, key) + SecondBurst(policy, key);
      Nondecreasing(trace) && forall i :: 0 <= i < |trace| ==> trace[i].key == key
  {
    RepeatLength(Request(key, policy.windowMs - 1), policy.limit - 1);
    RepeatLength(Request(key, policy.windowMs), policy.limit - 1);
    hide Repeat;
  }

  /** One instant's worth: the limit. */
  lemma InstantBurst(policy: Policy, key: string)
    requires policy.windowMs > 0 && policy.limit >= 1
    ensures Admitted(policy, [Request(key, 0)] + Repeat(Request(key, 0), policy.limit - 1), key, 0) == policy.limit
  {
    hide After, Admitted, Serve, Repeat;
    FirstRequest(policy, key, 0);
    Burst(policy, [Request(key, 0)], key, 0, policy.limit - 1, Bucket(1, policy.windowMs), 0);
  }

  lemma InstantInOrder(key: string, n: nat)
    ensures var trace := [Request(key, 0)] + Repeat(Request(key, 0), n);
      Nondecreasing(trace) && forall i :: 0 <= i < |trace| ==> trace[i].key == key
  {
    RepeatLength(Request(key, 0), n);
    hide Repeat;
  }

  /**
   The bound is exact for every policy: open a window, use up its limit at its last instant, and
   the limit of the next one right after.
   */
  lemma TwiceTheLimitIsReached(policy: Policy, key: string) returns (trace: seq<Request>, from: int)
    requires policy.windowMs > 0 && policy.limit >= 1
    ensures Nondecreasing(trace) && Undisturbed(policy, trace, key)
    ensures Admitted(policy, trace, key, from) == MostAdmitted(policy)
  {
    hide FirstBurst, SecondBurst, Admitted, Repeat, Nondecreasing, Undisturbed;
    if policy.windowMs == 1 {
      trace, from := [Request(key, 0)] + Repeat(Request(key, 0), policy.limit - 1), 0;
      InstantBurst(policy, key);
      InstantInOrder(key, policy.limit - 1);
    } else {
      trace, from := FirstBurst(policy, key) + SecondBurst(policy, key), policy.windowMs - 1;
      BurstsInOrder(policy, key);
      SecondBurstAdmits(policy, key);
    }
    AloneIsUndisturbed(policy, trace, key);
  }

  lemma FirstRequest(policy: Policy, key: string, from: int)
    requires policy.windowMs > 0 && from >= 0
    ensures After(policy, [Request(key, 0)]) == Alone(key, Bucket(1, policy.windowMs))
    ensures Admitted(policy, [Request(key, 0)], key, from) == if from == 0 then 1 else 0
  {
    hide Serve;
    assert [] + [Request(key, 0)] == [Request(key, 0)];
    OneMore(policy, [], Request(key, 0), key);
    AdmittedOneMore(policy, [], Request(key, 0), key, from);
    FirstVisit(policy, key);
  }

  lemma AloneIsUndisturbed(policy: Policy, trace: seq<Request>, key: string)
    requires forall i :: 0 <= i < |trace| ==> trace[i].key == key
    ensures Undisturbed(policy, trace, key)
  {
  }

  // ---- What a refused caller is told ----

  /** Traffic on other keys leaves the key's window alone or removes it. */
  lemma {:induction false} OthersLeaveWindow(policy: Policy, trace: seq<Request>, n: nat, key: string, nowMs: int)
    requires policy.windowMs > 0 && UpTo(trace, nowMs) && n <= |trace|
    requires forall i :: n <= i < |trace| ==> trace[i].key != key
    ensures Lookup(After(policy, trace), key) in {None, Lookup(After(policy, trace[..n]), key)}
    decreases |trace| - n
  {
    if n == |trace| {
      assert trace[..n] == trace;
    } else {
      var prefix, last := trace[..|trace| - 1], trace[|trace| - 1];
      OthersLeaveWindow(policy, prefix, n, key, last.at);
      assert prefix[..n] == trace[..n];
      ReachableSound(policy, prefix, last.at);
      ServeElsewhere(policy, After(policy, prefix), key, last.key, last.at);
    }
  }

  /** The last request of the trace comes from the key refused before, with none of its own between. */
  predicate Retries(policy: Policy, trace: seq<Request>, refused: nat)
  {
    var n := |trace| - 1;
    && refused < n && trace[n].key == trace[refused].key
    && !VerdictAt(policy, trace, refused).allowed
    && forall i :: refused < i < n ==> trace[i].key != trace[refused].key
  }

  /** When it retries, its window is still the one that refused it, or gone. */
  lemma WindowAtRetry(policy: Policy, trace: seq<Request>, refused: nat)
    requires policy.windowMs > 0 && Nondecreasing(trace) && Retries(policy, trace, refused)
    ensures var n, at := |trace| - 1, trace[refused].at;
      var w := Lookup(After(policy, trace[..n]), trace[n].key);
      w == None || (w.value.count > policy.limit && w.value.expiresAtMs > at
        && VerdictAt(policy, trace, refused).retryAfterSeconds == RetrySeconds(w.value.expiresAtMs - at))
  {
    var n := |trace| - 1;
    var key, prefix := trace[n].key, trace[..n];
    hide MakeRoom;
    OthersLeaveWindow(policy, prefix, refused + 1, key, trace[n].at);
    assert prefix[..refused + 1] == trace[..refused + 1];
    assert trace[..refused + 1][..refused] == trace[..refused];
  }

  /**
   A refused caller that waits the announced number of seconds, with no other request on its
   key, is admitted whatever the other keys did meanwhile.
   */
  lemma RetryIsAdmitted(policy: Policy, trace: seq<Request>, refused: nat)
    requires policy.windowMs > 0 && Nondecreasing(trace) && Retries(policy, trace, refused)
    requires trace[|trace| - 1].at >= trace[refused].at + 1000 * VerdictAt(policy, trace, refused).retryAfterSeconds
    ensures VerdictAt(policy, trace, |trace| - 1).allowed
  {
    WindowAtRetry(policy, trace, refused);
    hide After, VerdictAt;
    VerdictOfWindow(policy, trace);
  }

  /** The announced number is the least: while the window is kept, waiting a second less is refused. */
  lemma RetryIsLeast(policy: Policy, trace: seq<Request>, refused: nat)
    requires policy.windowMs > 0 && Nondecreasing(trace) && Retries(policy, trace, refused)
    requires Lookup(After(policy, trace[..|trace| - 1]), trace[|trace| - 1].key) != None
    requires trace[|trace| - 1].at <= trace[refused].at + 1000 * (VerdictAt(policy, trace, refused).retryAfterSeconds - 1)
    ensures !VerdictAt(policy, trace, |trace| - 1).allowed
  {
    WindowAtRetry(policy, trace, refused);
    hide After, VerdictAt;
    VerdictOfWindow(policy, trace);
  }

  lemma VerdictOfWindow(policy: Policy, trace: seq<Request>)
    requires trace != []
    ensures var n := |trace| - 1;
      VerdictAt(policy, trace, n) == Answer(policy, Lookup(After(policy, trace[..n]), trace[n].key), trace[n].at)
  {
  }
}
