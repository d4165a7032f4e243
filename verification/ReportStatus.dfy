/**
 The report editor's own computation of a report's current status, which must agree with
 the server's order of updates (publishedAt, createdAt, id) without asking the server.

 Times are integers, as `Date.getTime` returns them for a valid date.
 */
module ReportStatus {
  import opened Wrappers
  import opened Sorting

  datatype Status = Investigating | Identified | Monitoring | Resolved | Scheduled | InProgress | Completed

  datatype Update = Update(id: string, status: Status, markdown: string, publishedAt: int, createdAt: Option<int>)

  /** A pending change of one update; an absent field is left as it is. */
  datatype Edit = Edit(id: string, status: Option<Status>, publishedAt: Option<int>)

  datatype Ranked = Ranked(id: string, status: Status, publishedAt: int, createdAt: Option<int>, rank: nat)

  datatype Flip = ToOngoing | ToResolved

  predicate IsResolving(status: Status) {
    status == Resolved || status == Completed
  }

  /** `left > right` on strings: the first difference decides, and a prefix is smaller. */
  predicate StringGreater(left: string, right: string) {
    if left == "" then false
    else if right == "" then true
    else if left[0] != right[0] then left[0] > right[0]
    else StringGreater(left[1..], right[1..])
  }

  function CompareNewestFirst(left: Ranked, right: Ranked): int {
    if left.publishedAt != right.publishedAt then right.publishedAt - left.publishedAt
    else if left.createdAt.Some? && right.createdAt.Some? then
      if left.createdAt != right.createdAt then right.createdAt.value - left.createdAt.value
      else if left.id != right.id then (if StringGreater(left.id, right.id) then -1 else 1)
      else 0
    else left.rank - right.rank
  }

  function Apply(update: Update, edit: Edit): Update {
    if update.id != edit.id then update
    else update.(status := if edit.status.Some? then edit.status.value else update.status,
                 publishedAt := if edit.publishedAt.Some? then edit.publishedAt.value else update.publishedAt)
  }

  function Rank(update: Update, rank: nat): Ranked {
    Ranked(update.id, update.status, update.publishedAt, update.createdAt, rank)
  }

  function ToCandidates(updates: seq<Update>, edit: Edit): seq<Ranked> {
    seq(|updates|, i requires 0 <= i < |updates| => Rank(Apply(updates[i], edit), i))
  }

  function HeadStatus(candidates: seq<Ranked>): Option<Status> {
    var sorted := Sort(CompareNewestFirst, candidates);
    if sorted == [] then None else Some(sorted[0].status)
  }

  function CurrentStatusAfterEdit(updates: seq<Update>, edit: Edit): Option<Status> {
    HeadStatus(ToCandidates(updates, edit))
  }

  function FlipBetween(before: bool, after: Option<Status>): Option<Flip> {
    var resolved := after.Some? && IsResolving(after.value);
    if before == resolved then None else if resolved then Some(ToResolved) else Some(ToOngoing)
  }

  function StateFlipDirection(updates: seq<Update>, edit: Edit): Option<Flip> {
    FlipBetween(updates != [] && IsResolving(updates[0].status), CurrentStatusAfterEdit(updates, edit))
  }

  function Without(updates: seq<Update>, id: string): seq<Update> {
    if updates == [] then []
    else if updates[0].id == id then Without(updates[1..], id)
    else [updates[0]] + Without(updates[1..], id)
  }

  const NO_EDIT := Edit("", None, None)

  function StateFlipAfterRemoval(updates: seq<Update>, removeId: string): Option<Flip> {
    var remaining := Without(updates, removeId);
    if remaining == [] then None
    else FlipBetween(updates != [] && IsResolving(updates[0].status), CurrentStatusAfterEdit(remaining, NO_EDIT))
  }

  // ---- What the comparator compares ----

  /** `a` stands behind `b` in the dictionary: they agree up to `k`, and there `b` ends or has the smaller character. */
  predicate DiffersAt(a: string, b: string, k: nat) {
    k < |a| && k <= |b| && a[..k] == b[..k] && (k == |b| || a[k] > b[k])
  }

  ghost predicate DictionaryAfter(a: string, b: string) {
    exists k: nat :: DiffersAt(a, b, k)
  }

  lemma {:induction false} StringGreaterIsDictionary(a: string, b: string)
    ensures StringGreater(a, b) <==> DictionaryAfter(a, b)
  {
    if a == "" {
    } else if b == "" {
      assert DiffersAt(a, b, 0);
    } else if a[0] != b[0] {
      if a[0] > b[0] {
        assert DiffersAt(a, b, 0);
      }
      forall k: nat | DiffersAt(a, b, k) ensures a[0] > b[0] {
        if k > 0 {
          assert a[..k][0] == b[..k][0];
        }
      }
    } else {
      StringGreaterIsDictionary(a[1..], b[1..]);
      forall k: nat | DiffersAt(a[1..], b[1..], k) ensures DiffersAt(a, b, k + 1) {
        assert a[..k + 1] == [a[0]] + a[1..][..k] && b[..k + 1] == [b[0]] + b[1..][..k];
      }
      forall k: nat | DiffersAt(a, b, k) ensures k > 0 && DiffersAt(a[1..], b[1..], k - 1) {
        assert a[1..][..k - 1] == a[..k][1..] && b[1..][..k - 1] == b[..k][1..];
      }
    }
  }

  /** Later publication wins, then later creation, then the greater id; with a creation time missing, the position. */
  ghost predicate Beats(p: int, c: Option<int>, id: string, i: int, q: int, d: Option<int>, other: string, j: int) {
    || p > q
    || (p == q && (if c.Some? && d.Some? then c.value > d.value || (c == d && DictionaryAfter(id, other)) else i < j))
  }

  lemma ComparatorMeaning(a: Ranked, b: Ranked)
    requires a.id != b.id
    ensures CompareNewestFirst(a, b) < 0
       <==> Beats(a.publishedAt, a.createdAt, a.id, a.rank, b.publishedAt, b.createdAt, b.id, b.rank)
  {
    StringGreaterIsDictionary(a.id, b.id);
  }

  function EditedTime(update: Update, edit: Edit): int {
    if update.id == edit.id && edit.publishedAt.Some? then edit.publishedAt.value else update.publishedAt
  }

  function EditedStatus(update: Update, edit: Edit): Status {
    if update.id == edit.id && edit.status.Some? then edit.status.value else update.status
  }

  /**
   The current status after an edit is that of the update whose (publishedAt, createdAt, id) is
   the greatest of all, the edited update counted with its new time and status.
   */
  lemma CurrentIsGreatest(updates: seq<Update>, edit: Edit) returns (i: nat)
    requires Reliable(ToCandidates(updates, edit)) && DistinctIds(updates) && updates != []
    ensures i < |updates| && CurrentStatusAfterEdit(updates, edit) == Some(EditedStatus(updates[i], edit))
    ensures forall j :: 0 <= j < |updates| && j != i ==>
      Beats(EditedTime(updates[i], edit), updates[i].createdAt, updates[i].id, i,
            EditedTime(updates[j], edit), updates[j].createdAt, updates[j].id, j)
  {
    var c := ToCandidates(updates, edit);
    var head := Sort(CompareNewestFirst, c)[0];
    HeadIsNewest(head, c);
    hide CompareNewestFirst, Sort, Beats;
    i :| 0 <= i < |c| && c[i] == head;
    forall j | 0 <= j < |updates| && j != i
      ensures Beats(EditedTime(updates[i], edit), updates[i].createdAt, updates[i].id, i,
                    EditedTime(updates[j], edit), updates[j].createdAt, updates[j].id, j)
    {
      assert c[j] in c && c[j].id != c[i].id;
      ComparatorMeaning(c[i], c[j]);
    }
  }

  /** Nothing is current only in an empty list. */
  lemma EmptyHasNoCurrent(updates: seq<Update>, edit: Edit)
    ensures CurrentStatusAfterEdit(updates, edit) == None <==> updates == []
  {
  }

  // ---- The comparator is a strict total order on uniform payloads ----

  lemma {:induction false} StringGreaterTotal(a: string, b: string)
    ensures a != b ==> (StringGreater(a, b) <==> !StringGreater(b, a))
    ensures !StringGreater(a, a)
  {
    if a != "" {
      StringGreaterTotal(a[1..], a[1..]);
    }
    if a != "" && b != "" && a[0] == b[0] {
      assert a == [a[0]] + a[1..] && b == [b[0]] + b[1..];
      StringGreaterTotal(a[1..], b[1..]);
    }
  }

  lemma {:induction false} StringGreaterTransitive(a: string, b: string, c: string)
    requires StringGreater(a, b) && StringGreater(b, c)
    ensures StringGreater(a, c)
  {
    if c != "" && a[0] == b[0] && b[0] == c[0] {
      StringGreaterTransitive(a[1..], b[1..], c[1..]);
    }
  }

  /** Either every creation time is known or none is. */
  predicate Uniform(updates: seq<Update>) {
    (forall i :: 0 <= i < |updates| ==> updates[i].createdAt.Some?)
    || (forall i :: 0 <= i < |updates| ==> updates[i].createdAt.None?)
  }

  predicate DistinctIds(updates: seq<Update>) {
    forall i, j :: 0 <= i < j < |updates| ==> updates[i].id != updates[j].id
  }

  predicate SameKind(a: Ranked, b: Ranked) {
    a.createdAt.Some? <==> b.createdAt.Some?
  }

  lemma CompareTotal(a: Ranked, b: Ranked)
    requires SameKind(a, b)
    ensures CompareNewestFirst(a, b) < 0 <==> CompareNewestFirst(b, a) > 0
    ensures CompareNewestFirst(a, b) == 0 ==> a.id == b.id || a.rank == b.rank
  {
    StringGreaterTotal(a.id, b.id);
  }

  lemma CompareTransitive(a: Ranked, b: Ranked, c: Ranked)
    requires SameKind(a, b) && SameKind(b, c)
    requires CompareNewestFirst(a, b) <= 0 && CompareNewestFirst(b, c) <= 0
    ensures CompareNewestFirst(a, c) <= 0
    ensures CompareNewestFirst(a, b) < 0 || CompareNewestFirst(b, c) < 0 ==> CompareNewestFirst(a, c) < 0
  {
    StringGreaterTotal(a.id, b.id);
    StringGreaterTotal(b.id, c.id);
    StringGreaterTotal(a.id, c.id);
    if StringGreater(a.id, b.id) && StringGreater(b.id, c.id) {
      StringGreaterTransitive(a.id, b.id, c.id);
    }
  }

  /** `x` comes before every other candidate. */
  ghost predicate IsNewest(x: Ranked, candidates: seq<Ranked>) {
    x in candidates && forall y :: y in candidates && y != x ==> CompareNewestFirst(x, y) < 0
  }

  predicate Comparable(candidates: seq<Ranked>) {
    && (forall i, j :: 0 <= i < |candidates| && 0 <= j < |candidates| ==> SameKind(candidates[i], candidates[j]))
    && (forall i, j :: 0 <= i < j < |candidates| ==>
          candidates[i].id != candidates[j].id && candidates[i].rank != candidates[j].rank)
  }

  lemma CandidatesComparable(updates: seq<Update>, edit: Edit)
    requires Uniform(updates) && DistinctIds(updates)
    ensures Comparable(ToCandidates(updates, edit))
  {
  }

  lemma ComparableConsistent(candidates: seq<Ranked>)
    requires Comparable(candidates)
    ensures Consistent(CompareNewestFirst, Elements(candidates))
  {
    forall a, b | a in Elements(candidates) && b in Elements(candidates)
      ensures CompareNewestFirst(a, b) <= 0 || CompareNewestFirst(b, a) <= 0
    {
      CompareTotal(a, b);
    }
    forall a, b, c | a in Elements(candidates) && b in Elements(candidates) && c in Elements(candidates)
        && CompareNewestFirst(a, b) <= 0 && CompareNewestFirst(b, c) <= 0
      ensures CompareNewestFirst(a, c) <= 0
    {
      CompareTransitive(a, b, c);
    }
  }

  predicate DistinctCandidates(candidates: seq<Ranked>) {
    forall i, j :: 0 <= i < j < |candidates| ==>
      candidates[i].id != candidates[j].id && candidates[i].rank != candidates[j].rank
  }

  /** The comparator orders these candidates, so the sort is right. */
  ghost predicate Reliable(candidates: seq<Ranked>) {
    DistinctCandidates(candidates) && Consistent(CompareNewestFirst, Elements(candidates))
  }

  lemma ComparableIsReliable(candidates: seq<Ranked>)
    requires Comparable(candidates)
    ensures Reliable(candidates)
  {
    ComparableConsistent(candidates);
  }

  lemma CompareDistinct(a: Ranked, b: Ranked)
    requires a.id != b.id && a.rank != b.rank
    ensures CompareNewestFirst(a, b) != 0
    ensures CompareNewestFirst(a, b) < 0 <==> CompareNewestFirst(b, a) > 0
  {
    StringGreaterTotal(a.id, b.id);
  }

  lemma CompareSelf(a: Ranked)
    ensures CompareNewestFirst(a, a) == 0
  {
  }

  lemma CompareStrict(a: Ranked, b: Ranked, candidates: seq<Ranked>)
    requires DistinctCandidates(candidates) && a in candidates && b in candidates
    ensures CompareNewestFirst(a, b) < 0 <==> CompareNewestFirst(b, a) > 0
    ensures CompareNewestFirst(a, b) == 0 ==> a == b
  {
    hide CompareNewestFirst;
    if a == b {
      CompareSelf(a);
    } else {
      CompareDistinct(a, b);
    }
  }

  lemma SortHeadIsNewest(candidates: seq<Ranked>)
    requires Reliable(candidates) && candidates != []
    ensures IsNewest(Sort(CompareNewestFirst, candidates)[0], candidates)
  {
    var sorted := Sort(CompareNewestFirst, candidates);
    SortSorts(CompareNewestFirst, candidates, Elements(candidates));
    SortPermutes(CompareNewestFirst, candidates);
    SameElements(sorted, candidates);
    hide Sort, CompareNewestFirst, DistinctCandidates;
    assert sorted[0] in Elements(sorted);
    forall y | y in candidates && y != sorted[0] ensures CompareNewestFirst(sorted[0], y) < 0 {
      assert y in Elements(candidates);
      var j :| 0 <= j < |sorted| && sorted[j] == y;
      CompareStrict(sorted[0], y, candidates);
    }
  }

  /** The first element of the sort is the newest candidate, and there is only one. */
  lemma HeadIsNewest(x: Ranked, candidates: seq<Ranked>)
    requires Reliable(candidates) && candidates != []
    ensures IsNewest(x, candidates) <==> x == Sort(CompareNewestFirst, candidates)[0]
  {
    SortHeadIsNewest(candidates);
    hide Sort, CompareNewestFirst, DistinctCandidates;
    var head := Sort(CompareNewestFirst, candidates)[0];
    if IsNewest(x, candidates) {
      CompareStrict(x, head, candidates);
    }
  }

  /** With creation times known the positions in the list play no part. */
  lemma RankDoesNotMatter(u: Update, v: Update, i: nat, j: nat, k: nat, l: nat)
    requires u.createdAt.Some? && v.createdAt.Some?
    ensures CompareNewestFirst(Rank(u, i), Rank(v, j)) == CompareNewestFirst(Rank(u, k), Rank(v, l))
  {
  }

  /** With all creation times known, the answer depends on the updates and not on their order. */
  lemma OrderOfInputDoesNotMatter(updates: seq<Update>, shuffled: seq<Update>, edit: Edit)
    requires forall u :: u in updates ==> u.createdAt.Some?
    requires DistinctIds(updates) && DistinctIds(shuffled)
    requires multiset(updates) == multiset(shuffled)
    ensures CurrentStatusAfterEdit(updates, edit) == CurrentStatusAfterEdit(shuffled, edit)
  {
    assert |updates| == |multiset(updates)| == |shuffled|;
    if updates != [] {
      var a, b := ToCandidates(updates, edit), ToCandidates(shuffled, edit);
      forall u ensures u in updates <==> u in shuffled {
        assert u in updates <==> u in multiset(updates);
      }
      CandidatesComparable(updates, edit);
      CandidatesComparable(shuffled, edit);
      ComparableIsReliable(a);
      ComparableIsReliable(b);
      var x := Sort(CompareNewestFirst, a)[0];
      HeadIsNewest(x, a);
      var i :| 0 <= i < |a| && a[i] == x;
      assert updates[i] in shuffled;
      var j :| 0 <= j < |shuffled| && shuffled[j] == updates[i];
      NewestAfterShuffle(updates, shuffled, edit, i, j);
      HeadIsNewest(b[j], b);
    }
  }

  lemma NewestAfterShuffle(updates: seq<Update>, shuffled: seq<Update>, edit: Edit, i: nat, j: nat)
    requires forall u :: u in updates ==> u.createdAt.Some?
    requires DistinctIds(shuffled) && forall u :: u in shuffled ==> u in updates
    requires i < |updates| && j < |shuffled| && updates[i] == shuffled[j]
    requires IsNewest(ToCandidates(updates, edit)[i], ToCandidates(updates, edit))
    ensures IsNewest(ToCandidates(shuffled, edit)[j], ToCandidates(shuffled, edit))
  {
    hide CompareNewestFirst;
    var a, b := ToCandidates(updates, edit), ToCandidates(shuffled, edit);
    forall z | z in b && z != b[j] ensures CompareNewestFirst(b[j], z) < 0 {
      var k :| 0 <= k < |b| && b[k] == z;
      assert shuffled[k] in updates;
      var l :| 0 <= l < |updates| && updates[l] == shuffled[k];
      assert a[l] in a && a[l].id != a[i].id;
      RankDoesNotMatter(Apply(updates[i], edit), Apply(updates[l], edit), i, l, j, k);
    }
  }

  // ---- Newest-first timelines ----

  /** `u` may stand before `v` in a newest-first list: with no creation times, ties go by position. */
  predicate Before(u: Update, v: Update) {
    CompareNewestFirst(Rank(u, 0), Rank(v, 1)) < 0
  }

  /** The server's order as far as the payloads show it: some creation times may be missing. */
  predicate ServerOrdered(updates: seq<Update>) {
    && DistinctIds(updates)
    && forall i, j :: 0 <= i < j < |updates| ==> Before(updates[i], updates[j])
  }

  /** No update without a creation time stands between two with one. */
  predicate Gapless(updates: seq<Update>) {
    forall i, j, k :: 0 <= i < j < k < |updates| && updates[i].createdAt.Some? && updates[k].createdAt.Some? ==>
      updates[j].createdAt.Some?
  }

  /** In the server's order, with creation times missing at most at the ends. */
  predicate NewestFirst(updates: seq<Update>) {
    Gapless(updates) && ServerOrdered(updates)
  }

  /**
   What an edit makes current, from three updates only: the two newest and the edited one.
   On a full tie without creation times the one that stood first stays first.
   */
  function StatusFromTopTwo(first: Update, second: Update, target: Update, edit: Edit): Status {
    var edited := Apply(target, edit);
    if target.id == first.id then
      if Before(edited, second) then edited.status else second.status
    else
      if Before(first, edited) then first.status else edited.status
  }

  lemma CompareByPosition(u: Update, v: Update, i: nat, j: nat)
    requires i < j
    ensures Before(u, v) <==> CompareNewestFirst(Rank(u, i), Rank(v, j)) < 0
  {
  }

  /** A newest-first list's own first update is current. */
  lemma UneditedHead(updates: seq<Update>, edit: Edit)
    requires ServerOrdered(updates) && updates != []
    requires forall i :: 0 <= i < |updates| ==> Apply(updates[i], edit) == updates[i]
    ensures CurrentStatusAfterEdit(updates, edit) == Some(updates[0].status)
  {
    var candidates := ToCandidates(updates, edit);
    forall i, j | 0 <= i < j < |candidates| ensures CompareNewestFirst(candidates[i], candidates[j]) <= 0 {
      CompareByPosition(updates[i], updates[j], i, j);
    }
    SortOfSorted(CompareNewestFirst, candidates);
  }

  /** A warning says what happens: Ongoing becomes Resolved exactly when no Resolved or Completed update is current before and one is after. */
  lemma FlipMeaning(updates: seq<Update>, edit: Edit)
    ensures var flip, after := StateFlipDirection(updates, edit), CurrentStatusAfterEdit(updates, edit);
      && (flip == Some(ToResolved) <==>
            (updates == [] || updates[0].status !in {Resolved, Completed}) && after in {Some(Resolved), Some(Completed)})
      && (flip == Some(ToOngoing) <==>
            updates != [] && updates[0].status in {Resolved, Completed} && after !in {Some(Resolved), Some(Completed)})
  {
    hide CurrentStatusAfterEdit;
  }

  /** Saving a form without changes never warns. */
  lemma NoOpEditNeverFlips(updates: seq<Update>, edit: Edit)
    requires ServerOrdered(updates)
    requires forall i :: 0 <= i < |updates| ==> Apply(updates[i], edit) == updates[i]
    ensures StateFlipDirection(updates, edit) == None
  {
    if updates != [] {
      UneditedHead(updates, edit);
    }
  }

  lemma {:induction false} WithoutMembers(updates: seq<Update>, id: string)
    ensures forall u :: u in Without(updates, id) <==> u in updates && u.id != id
  {
    if updates != [] {
      WithoutMembers(updates[1..], id);
      assert updates == [updates[0]] + updates[1..];
    }
  }

  predicate Leads(first: Update, rest: seq<Update>) {
    forall u :: u in rest ==>
      Before(first, u) && u.id != first.id
  }

  lemma OrderedTail(updates: seq<Update>)
    requires ServerOrdered(updates) && updates != []
    ensures ServerOrdered(updates[1..])
    ensures Leads(updates[0], updates[1..])
  {
    assert forall i :: 0 <= i < |updates[1..]| ==> updates[1..][i] == updates[i + 1];
  }

  lemma OrderedCons(first: Update, rest: seq<Update>)
    requires ServerOrdered(rest) && Leads(first, rest)
    ensures ServerOrdered([first] + rest)
  {
    var all := [first] + rest;
    assert forall i :: 0 < i < |all| ==> all[i] == rest[i - 1] && all[i] in rest;
  }

  /** Removing an update keeps a list in order. */
  lemma {:induction false} WithoutKeepsOrder(updates: seq<Update>, id: string)
    requires ServerOrdered(updates)
    ensures ServerOrdered(Without(updates, id))
  {
    if updates != [] {
      OrderedTail(updates);
      hide ServerOrdered, Before;
      WithoutKeepsOrder(updates[1..], id);
      WithoutMembers(updates[1..], id);
      if updates[0].id != id {
        OrderedCons(updates[0], Without(updates[1..], id));
      }
    }
  }

  lemma {:induction false} WithoutAbsent(updates: seq<Update>, id: string)
    requires forall u :: u in updates ==> u.id != id
    ensures Without(updates, id) == updates
  {
    if updates != [] {
      WithoutAbsent(updates[1..], id);
    }
  }

  /** Removing the newest update makes the second one current; removing another changes nothing. */
  lemma RemovalDecidedByTopTwo(updates: seq<Update>, t: nat)
    requires ServerOrdered(updates) && t < |updates|
    ensures var flip := StateFlipAfterRemoval(updates, updates[t].id);
      && (flip == Some(ToOngoing) <==>
            t == 0 && |updates| >= 2 && updates[0].status in {Resolved, Completed} && updates[1].status !in {Resolved, Completed})
      && (flip == Some(ToResolved) <==>
            t == 0 && |updates| >= 2 && updates[0].status !in {Resolved, Completed} && updates[1].status in {Resolved, Completed})
  {
    var id := updates[t].id;
    var remaining := Without(updates, id);
    OrderedTail(updates);
    WithoutKeepsOrder(updates, id);
    WithoutMembers(updates, id);
    if t == 0 {
      WithoutAbsent(updates[1..], id);
    } else {
      assert remaining[0] == updates[0];
    }
    if remaining != [] {
      UneditedHead(remaining, NO_EDIT);
    }
  }

  // ---- When the sort is reliable ----

  /** Unless an edit moves one of them, two updates of an ordered list compare as they stand. */
  lemma CandidatesInOrder(updates: seq<Update>, edit: Edit, i: nat, j: nat)
    requires ServerOrdered(updates) && i < j < |updates|
    requires Apply(updates[i], edit) == updates[i] && Apply(updates[j], edit) == updates[j]
    ensures CompareNewestFirst(ToCandidates(updates, edit)[i], ToCandidates(updates, edit)[j]) < 0
  {
    CompareByPosition(updates[i], updates[j], i, j);
  }

  /** An unedited list in the server's order is sorted reliably, however many creation times are missing. */
  lemma UneditedIsReliable(updates: seq<Update>, edit: Edit)
    requires ServerOrdered(updates)
    requires forall i :: 0 <= i < |updates| ==> Apply(updates[i], edit) == updates[i]
    ensures Consistent(CompareNewestFirst, Elements(ToCandidates(updates, edit)))
  {
    var candidates := ToCandidates(updates, edit);
    hide CompareNewestFirst;
    forall i, j | 0 <= i < |candidates| && 0 <= j < |candidates|
      ensures CompareNewestFirst(candidates[i], candidates[j]) <= 0 <==> i <= j
    {
      if i < j {
        CandidatesInOrder(updates, edit, i, j);
      } else if j < i {
        CandidatesInOrder(updates, edit, j, i);
        CompareDistinct(candidates[i], candidates[j]);
      } else {
        CompareSelf(candidates[i]);
      }
    }
    assert forall i, j :: TotalAt(candidates, i, j);
    assert forall i, j, k :: ComposesAt(candidates, i, j, k);
    ConsistentByIndex(candidates);
  }

  predicate TotalAt(candidates: seq<Ranked>, i: int, j: int) {
    0 <= i < |candidates| && 0 <= j < |candidates| ==>
      CompareNewestFirst(candidates[i], candidates[j]) <= 0 || CompareNewestFirst(candidates[j], candidates[i]) <= 0
  }

  predicate ComposesAt(candidates: seq<Ranked>, i: int, j: int, k: int) {
    0 <= i < |candidates| && 0 <= j < |candidates| && 0 <= k < |candidates|
    && CompareNewestFirst(candidates[i], candidates[j]) <= 0 && CompareNewestFirst(candidates[j], candidates[k]) <= 0 ==>
      CompareNewestFirst(candidates[i], candidates[k]) <= 0
  }

  lemma ConsistentByIndex(candidates: seq<Ranked>)
    requires forall i, j :: TotalAt(candidates, i, j)
    requires forall i, j, k :: ComposesAt(candidates, i, j, k)
    ensures Consistent(CompareNewestFirst, Elements(candidates))
  {
    hide CompareNewestFirst;
    forall a, b | a in candidates && b in candidates
      ensures CompareNewestFirst(a, b) <= 0 || CompareNewestFirst(b, a) <= 0
    {
      var i :| 0 <= i < |candidates| && candidates[i] == a;
      var j :| 0 <= j < |candidates| && candidates[j] == b;
      assert TotalAt(candidates, i, j);
    }
    forall a, b, c | a in candidates && b in candidates && c in candidates
        && CompareNewestFirst(a, b) <= 0 && CompareNewestFirst(b, c) <= 0
      ensures CompareNewestFirst(a, c) <= 0
    {
      var i :| 0 <= i < |candidates| && candidates[i] == a;
      var j :| 0 <= j < |candidates| && candidates[j] == b;
      var k :| 0 <= k < |candidates| && candidates[k] == c;
      assert ComposesAt(candidates, i, j, k);
    }
  }

  /** So is the list that a removal leaves. */
  lemma RemovalIsReliable(updates: seq<Update>, id: string)
    requires ServerOrdered(updates)
    ensures Consistent(CompareNewestFirst, Elements(ToCandidates(Without(updates, id), NO_EDIT)))
  {
    WithoutKeepsOrder(updates, id);
    WithoutMembers(updates, id);
    UneditedIsReliable(Without(updates, id), NO_EDIT);
  }

  /** Both creation times known, `u` was created after `v`, or with it under the greater id. */
  predicate CreatedAfter(u: Update, v: Update) {
    u.createdAt.Some? && v.createdAt.Some?
    && (u.createdAt.value > v.createdAt.value || (u.createdAt == v.createdAt && StringGreater(u.id, v.id)))
  }

  predicate TiedAcross(updates: seq<Update>, e: Update, x: int, y: int) {
    0 <= x < |updates| && 0 <= y < |updates| && updates[x].publishedAt == e.publishedAt == updates[y].publishedAt
  }

  /** Moved down: `e` stood before `x` and `y`; without a creation time `x` lets it pass, but `y` is newer. */
  predicate TrappedBelow(updates: seq<Update>, t: nat, e: Update, x: int, y: int) {
    t < x < y && TiedAcross(updates, e, x, y) && e.createdAt.Some?
    && updates[x].createdAt.None? && CreatedAfter(updates[y], e)
  }

  /** Moved up: `e` stood behind `x` and `y`; it is newer than `x`, but `y`, without a creation time, stays ahead. */
  predicate TrappedAbove(updates: seq<Update>, t: nat, e: Update, x: int, y: int) {
    x < y < t && TiedAcross(updates, e, x, y) && e.createdAt.Some?
    && CreatedAfter(e, updates[x]) && updates[y].createdAt.None?
  }

  /** The edited update `e` of position `t` lands in a tie that the comparator cannot order. */
  ghost predicate TieTrap(updates: seq<Update>, t: nat, e: Update) {
    exists x, y :: TrappedBelow(updates, t, e, x, y) || TrappedAbove(updates, t, e, x, y)
  }

  /** The edited update beats `x`, and `y` beats it, though `x` stands before `y`. */
  predicate Crosses(candidates: seq<Ranked>, t: nat, x: int, y: int) {
    && 0 <= x < y < |candidates| && t < |candidates| && x != t && y != t
    && CompareNewestFirst(candidates[t], candidates[x]) < 0 && CompareNewestFirst(candidates[y], candidates[t]) < 0
  }

  lemma CrossingIsTrap(updates: seq<Update>, edit: Edit, t: nat, x: nat, y: nat)
    requires ServerOrdered(updates) && t < |updates| && updates[t].id == edit.id
    requires Crosses(ToCandidates(updates, edit), t, x, y)
    ensures TieTrap(updates, t, Apply(updates[t], edit))
  {
    var candidates, e := ToCandidates(updates, edit), Apply(updates[t], edit);
    CandidatesInOrder(updates, edit, x, y);
    assert TiedAcross(updates, e, x, y);
    CompareDistinct(candidates[t], candidates[y]);
    if candidates[t].createdAt.Some? && candidates[x].createdAt.Some? && candidates[y].createdAt.Some? {
      CompareTransitive(candidates[t], candidates[x], candidates[y]);
    } else {
      assert TrappedBelow(updates, t, e, x, y) || TrappedAbove(updates, t, e, x, y);
    }
  }

  lemma TrapCrosses(updates: seq<Update>, edit: Edit, t: nat, x: int, y: int)
    requires DistinctIds(updates) && t < |updates| && updates[t].id == edit.id
    requires var e := Apply(updates[t], edit); TrappedBelow(updates, t, e, x, y) || TrappedAbove(updates, t, e, x, y)
    ensures Crosses(ToCandidates(updates, edit), t, x, y)
  {
    assert updates[x].id != edit.id && updates[y].id != edit.id;
  }

  lemma TrapIsCrossing(updates: seq<Update>, edit: Edit, t: nat)
    requires ServerOrdered(updates) && t < |updates| && updates[t].id == edit.id
    requires TieTrap(updates, t, Apply(updates[t], edit))
    ensures exists x, y :: Crosses(ToCandidates(updates, edit), t, x, y)
  {
    hide Crosses, TrappedBelow, TrappedAbove;
    var e := Apply(updates[t], edit);
    var x, y :| TrappedBelow(updates, t, e, x, y) || TrappedAbove(updates, t, e, x, y);
    TrapCrosses(updates, edit, t, x, y);
  }

  /** After an edit the sort is reliable exactly when the edited update lands in no such tie. */
  lemma EditIsReliableIff(updates: seq<Update>, edit: Edit, t: nat)
    requires ServerOrdered(updates) && t < |updates| && updates[t].id == edit.id
    ensures Consistent(CompareNewestFirst, Elements(ToCandidates(updates, edit)))
       <==> !TieTrap(updates, t, Apply(updates[t], edit))
  {
    var candidates := ToCandidates(updates, edit);
    hide CompareNewestFirst, TieTrap;
    if TieTrap(updates, t, Apply(updates[t], edit)) {
      TrapIsCrossing(updates, edit, t);
      var x, y :| Crosses(candidates, t, x, y);
      CandidatesInOrder(updates, edit, x, y);
      CompareDistinct(candidates[t], candidates[y]);
      assert candidates[t] in Elements(candidates) && candidates[x] in Elements(candidates) && candidates[y] in Elements(candidates);
    } else {
      forall x: nat, y: nat ensures !Crosses(candidates, t, x, y) {
        if Crosses(candidates, t, x, y) {
          CrossingIsTrap(updates, edit, t, x, y);
        }
      }
      NoCrossingIsReliable(updates, edit, t);
    }
  }

  lemma NoCrossingIsReliable(updates: seq<Update>, edit: Edit, t: nat)
    requires ServerOrdered(updates) && t < |updates| && updates[t].id == edit.id
    requires forall x: nat, y: nat :: !Crosses(ToCandidates(updates, edit), t, x, y)
    ensures Consistent(CompareNewestFirst, Elements(ToCandidates(updates, edit)))
  {
    hide CompareNewestFirst, Consistent;
    var candidates := ToCandidates(updates, edit);
    forall i, j ensures TotalAt(candidates, i, j) {
      if 0 <= i < |candidates| && 0 <= j < |candidates| {
        BeatsOrIsBeaten(updates, edit, i, j);
      }
    }
    forall i, j, k ensures ComposesAt(candidates, i, j, k) {
      if 0 <= i < |candidates| && 0 <= j < |candidates| && 0 <= k < |candidates|
          && CompareNewestFirst(candidates[i], candidates[j]) <= 0 && CompareNewestFirst(candidates[j], candidates[k]) <= 0 {
        StepsCompose(updates, edit, t, i, j, k);
      }
    }
    ConsistentByIndex(candidates);
  }

  /** Two candidates: equal, or one beats the other. */
  lemma BeatsOrIsBeaten(updates: seq<Update>, edit: Edit, i: nat, j: nat)
    requires DistinctIds(updates) && i < |updates| && j < |updates|
    ensures var c := ToCandidates(updates, edit);
      && (i == j ==> CompareNewestFirst(c[i], c[j]) == 0)
      && (i != j ==> CompareNewestFirst(c[i], c[j]) != 0)
      && (CompareNewestFirst(c[i], c[j]) < 0 <==> CompareNewestFirst(c[j], c[i]) > 0)
  {
    var c := ToCandidates(updates, edit);
    if i == j {
      CompareSelf(c[i]);
    } else {
      CompareDistinct(c[i], c[j]);
    }
  }

  lemma StepsCompose(updates: seq<Update>, edit: Edit, t: nat, i: nat, j: nat, k: nat)
    requires ServerOrdered(updates) && t < |updates| && updates[t].id == edit.id
    requires forall x: nat, y: nat :: !Crosses(ToCandidates(updates, edit), t, x, y)
    requires i < |updates| && j < |updates| && k < |updates|
    requires var c := ToCandidates(updates, edit);
      CompareNewestFirst(c[i], c[j]) <= 0 && CompareNewestFirst(c[j], c[k]) <= 0
    ensures CompareNewestFirst(ToCandidates(updates, edit)[i], ToCandidates(updates, edit)[k]) <= 0
  {
    var c := ToCandidates(updates, edit);
    hide CompareNewestFirst;
    BeatsOrIsBeaten(updates, edit, i, j);
    BeatsOrIsBeaten(updates, edit, j, k);
    BeatsOrIsBeaten(updates, edit, k, i);
    UnmovedInOrder(updates, edit, t, i, j);
    UnmovedInOrder(updates, edit, t, j, k);
    UnmovedInOrder(updates, edit, t, i, k);
    assert !Crosses(c, t, j, k) && !Crosses(c, t, i, j) && !Crosses(c, t, k, i);
  }

  lemma UnmovedInOrder(updates: seq<Update>, edit: Edit, t: nat, i: nat, j: nat)
    requires ServerOrdered(updates) && t < |updates| && updates[t].id == edit.id
    requires i < |updates| && j < |updates|
    ensures i != t && j != t && i != j ==>
      (CompareNewestFirst(ToCandidates(updates, edit)[i], ToCandidates(updates, edit)[j]) < 0 <==> i < j)
  {
    if i != t && j != t {
      if i < j {
        CandidatesInOrder(updates, edit, i, j);
      } else if j < i {
        CandidatesInOrder(updates, edit, j, i);
        BeatsOrIsBeaten(updates, edit, i, j);
      }
    }
  }

  /** A trap needs a missing creation time between two known ones; there is none when all are known, or none is. */
  lemma GaplessHasNoTrap(updates: seq<Update>, t: nat, edit: Edit)
    requires Gapless(updates) && t < |updates|
    ensures !TieTrap(updates, t, Apply(updates[t], edit))
  {
    forall x, y ensures !TrappedBelow(updates, t, Apply(updates[t], edit), x, y) && !TrappedAbove(updates, t, Apply(updates[t], edit), x, y) {
    }
  }

  lemma EditedIsReliable(updates: seq<Update>, edit: Edit, t: nat)
    requires ServerOrdered(updates) && t < |updates| && updates[t].id == edit.id
    requires !TieTrap(updates, t, Apply(updates[t], edit))
    ensures Reliable(ToCandidates(updates, edit))
  {
    EditIsReliableIff(updates, edit, t);
  }

  /** Where the sort is reliable, the whole list decides as its two newest updates and the edited one do. */
  lemma EditDecidedByTopTwo(updates: seq<Update>, edit: Edit, t: nat)
    requires ServerOrdered(updates) && |updates| >= 2 && t < |updates| && updates[t].id == edit.id
    requires !TieTrap(updates, t, Apply(updates[t], edit))
    ensures CurrentStatusAfterEdit(updates, edit)
         == Some(StatusFromTopTwo(updates[0], updates[1], updates[t], edit))
  {
    var candidates := ToCandidates(updates, edit);
    EditedIsReliable(updates, edit, t);
    var o := if t == 0 then 1 else 0;
    var edited, other := candidates[t], candidates[o];
    assert other == Rank(updates[o], o) && edited == Rank(Apply(updates[t], edit), t);
    if t == 0 {
      CompareByPosition(Apply(updates[t], edit), updates[o], t, o);
    } else {
      CompareByPosition(updates[o], Apply(updates[t], edit), o, t);
    }
    hide CompareNewestFirst, TieTrap, Consistent;
    CompareStrict(edited, other, candidates);
    assert edited.id != other.id;
    var x := if CompareNewestFirst(edited, other) < 0 then edited else other;
    BetterOfTwoIsNewest(updates, edit, t, o, x);
    HeadIsNewest(x, candidates);
  }

  /** The first update that is not edited beats all others, so the better of it and the edited one is newest. */
  lemma BetterOfTwoIsNewest(updates: seq<Update>, edit: Edit, t: nat, o: nat, x: Ranked)
    requires ServerOrdered(updates) && |updates| >= 2 && t < |updates| && updates[t].id == edit.id
    requires o == (if t == 0 then 1 else 0) && Reliable(ToCandidates(updates, edit))
    requires var c := ToCandidates(updates, edit);
      x == if CompareNewestFirst(c[t], c[o]) < 0 then c[t] else c[o]
    ensures IsNewest(x, ToCandidates(updates, edit))
  {
    var c := ToCandidates(updates, edit);
    hide CompareNewestFirst;
    CompareStrict(c[t], c[o], c);
    CompareStrict(c[o], c[t], c);
    assert x in c && c[o] in c && CompareNewestFirst(x, c[o]) <= 0 by {
      CompareSelf(c[o]);
    }
    forall y | y in c && y != x ensures CompareNewestFirst(x, y) < 0 {
      var j :| 0 <= j < |c| && c[j] == y;
      if j != t && j != o {
        CandidatesInOrder(updates, edit, o, j);
        assert x in Elements(c) && c[o] in Elements(c) && y in Elements(c);
      }
      CompareStrict(x, y, c);
    }
  }

  /** Such a tie arises: of three updates in the server's order, the last one is moved up to the time of the others. */
  lemma MixedPayloadsCycle()
    ensures exists updates: seq<Update>, edit: Edit ::
      && ServerOrdered(updates) && |updates| == 3 && updates[2].id == edit.id
      && var c := ToCandidates(updates, edit);
      CompareNewestFirst(c[0], c[1]) < 0 && CompareNewestFirst(c[1], c[2]) < 0 && CompareNewestFirst(c[2], c[0]) < 0
  {
    var a := Update("a", Monitoring, "", -5, Some(1));
    var b := Update("b", Monitoring, "", 0, Some(0));
    var c := Update("c", Monitoring, "", 0, None);
    var updates := [b, c, a];
    var edit := Edit("a", None, Some(0));
    assert ServerOrdered(updates) by {
      assert Before(b, c) && Before(b, a) && Before(c, a);
    }
    var candidates := ToCandidates(updates, edit);
    assert candidates == [Rank(b, 0), Rank(c, 1), Rank(a.(publishedAt := 0), 2)];
  }

  // ---- Partly loaded timelines ----

  /**
   For a loaded part that begins with the two newest updates, and any update in it, the warning
   for removing that update is the whole timeline's, and so is the one for an edit of it that
   both lists can sort.
   */
  lemma LoadedPartDecides(whole: seq<Update>, loaded: seq<Update>, edit: Edit, w: nat, l: nat)
    requires ServerOrdered(whole) && ServerOrdered(loaded)
    requires |whole| >= 2 && |loaded| >= 2 && whole[0] == loaded[0] && whole[1] == loaded[1]
    requires w < |whole| && l < |loaded| && whole[w] == loaded[l] && loaded[l].id == edit.id
    ensures !TieTrap(whole, w, Apply(whole[w], edit)) && !TieTrap(loaded, l, Apply(loaded[l], edit)) ==>
      StateFlipDirection(loaded, edit) == StateFlipDirection(whole, edit)
    ensures StateFlipAfterRemoval(loaded, edit.id) == StateFlipAfterRemoval(whole, edit.id)
  {
    if !TieTrap(whole, w, Apply(whole[w], edit)) && !TieTrap(loaded, l, Apply(loaded[l], edit)) {
      EditDecidedByTopTwo(whole, edit, w);
      EditDecidedByTopTwo(loaded, edit, l);
    }
    RemovalDecidedByTopTwo(whole, w);
    RemovalDecidedByTopTwo(loaded, l);
    hide CurrentStatusAfterEdit, TieTrap, Before;
    assert w == 0 <==> whole[w].id == whole[0].id;
    assert l == 0 <==> loaded[l].id == loaded[0].id;
  }

  /** A prefix has no trap that the whole has not. */
  lemma PrefixTrap(whole: seq<Update>, n: nat, t: nat, e: Update)
    requires t < n <= |whole| && TieTrap(whole[..n], t, e)
    ensures TieTrap(whole, t, e)
  {
    var x, y :| TrappedBelow(whole[..n], t, e, x, y) || TrappedAbove(whole[..n], t, e, x, y);
    assert TrappedBelow(whole, t, e, x, y) || TrappedAbove(whole, t, e, x, y);
  }

  /** In particular for any loaded prefix of at least two updates. */
  lemma PrefixDecides(whole: seq<Update>, n: nat, edit: Edit, t: nat)
    requires ServerOrdered(whole) && t < n <= |whole| && whole[t].id == edit.id
    requires n >= 2 || n == |whole|
    ensures !TieTrap(whole, t, Apply(whole[t], edit)) ==>
      StateFlipDirection(whole[..n], edit) == StateFlipDirection(whole, edit)
    ensures StateFlipAfterRemoval(whole[..n], edit.id) == StateFlipAfterRemoval(whole, edit.id)
  {
    if n >= 2 {
      if TieTrap(whole[..n], t, Apply(whole[t], edit)) {
        PrefixTrap(whole, n, t, Apply(whole[t], edit));
      }
      LoadedPartDecides(whole, whole[..n], edit, t, t);
    } else {
      assert whole[..n] == whole;
    }
  }

  /** A single update is current after any edit of it. */
  lemma SingleUpdate(update: Update, edit: Edit)
    requires update.id == edit.id
    ensures CurrentStatusAfterEdit([update], edit) == Some(Apply(update, edit).status)
  {
    var candidates := ToCandidates([update], edit);
    assert candidates == [Rank(Apply(update, edit), 0)];
    SortOfSorted(CompareNewestFirst, candidates);
  }

  /** A time before all others. */
  function Earliest(updates: seq<Update>): (p: int)
    ensures forall u :: u in updates ==> p < u.publishedAt
  {
    if updates == [] then 0
    else
      var p := Earliest(updates[1..]);
      assert updates == [updates[0]] + updates[1..];
      if p < updates[0].publishedAt then p else updates[0].publishedAt - 1
  }

  /** Moved behind all others under a status of the other kind, the only loaded update is misjudged. */
  lemma OneLoadedUpdateIsNotEnough(whole: seq<Update>) returns (edit: Edit)
    requires ServerOrdered(whole) && |whole| >= 2
    ensures edit.id == whole[0].id && !TieTrap(whole, 0, Apply(whole[0], edit))
    ensures StateFlipDirection(whole[..1], edit) != StateFlipDirection(whole, edit)
  {
    edit := Edit(whole[0].id, Some(if IsResolving(whole[1].status) then Monitoring else Resolved), Some(Earliest(whole)));
    var e := Apply(whole[0], edit);
    forall x, y ensures !TiedAcross(whole, e, x, y) {
      if 0 <= x < |whole| {
        assert whole[x] in whole;
      }
    }
    EditDecidedByTopTwo(whole, edit, 0);
    assert whole[1] in whole;
    assert whole[..1] == [whole[0]];
    SingleUpdate(whole[0], edit);
  }

  /**
   A loaded prefix judges every edit of a loaded update that can be sorted as the whole timeline
   does exactly when it has two updates or is the whole.
   */
  lemma PrefixDecidesIff(whole: seq<Update>, n: nat)
    requires ServerOrdered(whole) && 1 <= n <= |whole|
    ensures (forall edit: Edit, t: nat :: t < n && whole[t].id == edit.id && !TieTrap(whole, t, Apply(whole[t], edit)) ==>
               StateFlipDirection(whole[..n], edit) == StateFlipDirection(whole, edit))
       <==> n >= 2 || n == |whole|
  {
    hide StateFlipDirection, ServerOrdered, TieTrap;
    if n >= 2 || n == |whole| {
      forall edit: Edit, t: nat | t < n && whole[t].id == edit.id && !TieTrap(whole, t, Apply(whole[t], edit))
        ensures StateFlipDirection(whole[..n], edit) == StateFlipDirection(whole, edit)
      {
        PrefixDecides(whole, n, edit, t);
      }
    } else {
      var edit := OneLoadedUpdateIsNotEnough(whole);
      assert whole[0].id == edit.id;
    }
  }
}
