/**
 The report editor's timeline and its edit form: older pages are loaded on demand, and an
 edit that would flip the report between Ongoing and Resolved is sent only after a warning.

 The minute-precision value of a datetime-local input is the number of that minute; the
 conversion uses one fixed offset, taken as zero. A page cursor, opaque to the client, is the
 number of updates before the page.
 */
module ReportEditor {
  import opened Wrappers
  import opened ReportStatus
  import opened Text

  datatype Editing = Editing(
    id: string,
    status: Status,
    markdown: string,
    publishedAt: Option<int>,
    warning: Option<Flip>,
    error: string)

  /** The body of the PATCH request: only the fields that changed. */
  datatype Patch = Patch(id: string, status: Option<Status>, markdown: Option<string>, publishedAt: Option<int>)

  const MINUTE := 60000

  function ToLocal(ms: int): int {
    ms / MINUTE
  }

  function FromLocal(minute: int): int {
    minute * MINUTE
  }

  // ---- Assembling the timeline ----

  function Ids(updates: seq<Update>): set<string> {
    set i | 0 <= i < |updates| :: updates[i].id
  }

  function Unseen(older: seq<Update>, seen: set<string>): seq<Update> {
    if older == [] then []
    else if older[0].id in seen then Unseen(older[1..], seen)
    else [older[0]] + Unseen(older[1..], seen)
  }

  function TimelineUpdates(updates: seq<Update>, older: seq<Update>, loadedPastFirstPage: bool): seq<Update> {
    if !loadedPastFirstPage || older == [] then updates
    else updates + Unseen(older, Ids(updates))
  }

  lemma {:induction false} UnseenFresh(older: seq<Update>, seen: set<string>)
    requires forall u :: u in older ==> u.id !in seen
    ensures Unseen(older, seen) == older
  {
    if older != [] {
      UnseenFresh(older[1..], seen);
    }
  }

  lemma {:induction false} UnseenSkips(older: seq<Update>, seen: set<string>, k: nat)
    requires k <= |older| && forall i :: 0 <= i < k ==> older[i].id in seen
    ensures Unseen(older, seen) == Unseen(older[k..], seen)
  {
    if k > 0 {
      UnseenSkips(older[1..], seen, k - 1);
      assert older[1..][k - 1..] == older[k..];
    } else {
      assert older[0..] == older;
    }
  }

  /** Pages that continue or overlap the first page assemble to a prefix of the timeline. */
  lemma AssemblyIsPrefix(whole: seq<Update>, m: nat, j: nat, n: nat)
    requires DistinctIds(whole) && j <= m <= n <= |whole|
    ensures TimelineUpdates(whole[..m], whole[j..n], true) == whole[..n]
  {
    var first, older, rest := whole[..m], whole[j..n], whole[m..n];
    OverlapSeen(whole, m, j, n);
    Slices(whole, m, j, n);
    hide Ids, Unseen, DistinctIds;
    UnseenSkips(older, Ids(first), m - j);
    UnseenFresh(rest, Ids(first));
  }

  lemma Slices(whole: seq<Update>, m: nat, j: nat, n: nat)
    requires j <= m <= n <= |whole|
    ensures whole[j..n][m - j..] == whole[m..n] && whole[..m] + whole[m..n] == whole[..n]
    ensures whole[j..n] == [] ==> whole[..m] == whole[..n]
  {
  }

  lemma OverlapSeen(whole: seq<Update>, m: nat, j: nat, n: nat)
    requires DistinctIds(whole) && j <= m <= n <= |whole|
    ensures forall i :: 0 <= i < m - j ==> whole[j..n][i].id in Ids(whole[..m])
    ensures forall u :: u in whole[m..n] ==> u.id !in Ids(whole[..m])
  {
    forall i | 0 <= i < m - j ensures whole[j..n][i].id in Ids(whole[..m]) {
      assert whole[..m][i + j] == whole[j..n][i];
    }
    forall i | m <= i < n ensures whole[i].id !in Ids(whole[..m]) {
    }
  }

  // ---- Saving an edited update ----

  function Find(updates: seq<Update>, id: string): (u: Option<Update>)
    ensures u.Some? ==> u.value in updates && u.value.id == id
    ensures u.None? ==> forall v :: v in updates ==> v.id != id
  {
    if updates == [] then None
    else if updates[0].id == id then Some(updates[0])
    else
      assert updates == [updates[0]] + updates[1..];
      Find(updates[1..], id)
  }

  predicate PublishedAtChanged(e: Editing, original: Option<Update>) {
    original.None? || e.publishedAt != Some(ToLocal(original.value.publishedAt))
  }

  /** The change the flip check looks at. */
  function PendingEdit(e: Editing, original: Option<Update>): Edit {
    Edit(e.id, Some(e.status),
         if PublishedAtChanged(e, original) && e.publishedAt.Some? then Some(FromLocal(e.publishedAt.value)) else None)
  }

  function PatchOf(e: Editing, original: Option<Update>): Patch {
    Patch(e.id,
          if original.None? || e.status != original.value.status then Some(e.status) else None,
          if original.None? || e.markdown != original.value.markdown then Some(e.markdown) else None,
          PendingEdit(e, original).publishedAt)
  }

  /** The form after a click on save, and the request sent, if any. */
  function SaveOutcome(timeline: seq<Update>, e: Editing): (Option<Editing>, Option<Patch>) {
    var original := Find(timeline, e.id);
    var changed := PublishedAtChanged(e, original);
    var flip := StateFlipDirection(timeline, PendingEdit(e, original));
    var patch := PatchOf(e, original);
    if Blank(e.markdown) then (Some(e.(error := "Update body is required")), None)
    else if changed && e.publishedAt.None? then (Some(e.(error := "Enter a valid time")), None)
    else if flip.Some? && e.warning.None? then (Some(e.(warning := flip, error := "")), None)
    else if patch.status.None? && patch.markdown.None? && !changed then (None, None)
    else (Some(e), Some(patch))
  }

  // ---- What a click on save does, spelled out ----

  /** The form's minute differs from the one the update was published in, or is unusable. */
  predicate TimeDiffers(e: Editing, u: Update) {
    e.publishedAt.None? || !(60000 * e.publishedAt.value <= u.publishedAt < 60000 * (e.publishedAt.value + 1))
  }

  /** The update as the form shows it: a new time starts at its minute, an untouched one keeps its seconds. */
  function Intended(e: Editing, u: Update): Update {
    Update(u.id, e.status, e.markdown,
           if TimeDiffers(e, u) && e.publishedAt.Some? then 60000 * e.publishedAt.value else u.publishedAt, u.createdAt)
  }

  /** A field that the request does not carry stays as it is. */
  function Patched(u: Update, patch: Patch): Update {
    Update(u.id,
           if patch.status.Some? then patch.status.value else u.status,
           if patch.markdown.Some? then patch.markdown.value else u.markdown,
           if patch.publishedAt.Some? then patch.publishedAt.value else u.publishedAt,
           u.createdAt)
  }

  /**
   A blank text or an unusable time is refused in the form, and a flip is shown before it is
   sent. Otherwise the form closes if it shows the update as it is; if not, a request leaves that
   carries exactly the fields that differ and turns the update into what the form shows.
   */
  ghost predicate ClickMeans(timeline: seq<Update>, e: Editing, u: Update, form: Option<Editing>, patch: Option<Patch>) {
    var time := if TimeDiffers(e, u) && e.publishedAt.Some? then Some(60000 * e.publishedAt.value) else None;
    var flip := StateFlipDirection(timeline, Edit(e.id, Some(e.status), time));
    if AllSpace(e.markdown) then
      patch == None && form == Some(Editing(e.id, e.status, e.markdown, e.publishedAt, e.warning, "Update body is required"))
    else if e.publishedAt == None then
      patch == None && form == Some(Editing(e.id, e.status, e.markdown, e.publishedAt, e.warning, "Enter a valid time"))
    else if flip != None && e.warning == None then
      patch == None && form == Some(Editing(e.id, e.status, e.markdown, e.publishedAt, flip, ""))
    else if Intended(e, u) == u && !TimeDiffers(e, u) then
      patch == None && form == None
    else
      && form == Some(e) && patch.Some? && patch.value.id == e.id
      && (patch.value.status.Some? <==> e.status != u.status)
      && (patch.value.markdown.Some? <==> e.markdown != u.markdown)
      && (patch.value.publishedAt.Some? <==> TimeDiffers(e, u))
      && Patched(u, patch.value) == Intended(e, u)
  }

  lemma MinuteOf(ms: int, minute: int)
    ensures ToLocal(ms) == minute <==> 60000 * minute <= ms < 60000 * (minute + 1)
    ensures FromLocal(minute) == 60000 * minute && ToLocal(FromLocal(minute)) == minute
  {
  }

  lemma SaveOutcomeMeaning(timeline: seq<Update>, e: Editing, u: Update)
    requires DistinctIds(timeline) && u in timeline && u.id == e.id
    ensures var (form, patch) := SaveOutcome(timeline, e); ClickMeans(timeline, e, u, form, patch)
  {
    BlankIsAllSpace(e.markdown);
    if e.publishedAt.Some? {
      MinuteOf(u.publishedAt, e.publishedAt.value);
    }
    OnlyOneFound(timeline, u);
    hide Blank, AllSpace, StateFlipDirection, DistinctIds, Find, ToLocal, FromLocal;
    assert PublishedAtChanged(e, Some(u)) <==> TimeDiffers(e, u);
  }

  lemma EveryUpdateMeans(whole: seq<Update>, n: nat, e: Editing)
    requires NewestFirst(whole) && n <= |whole|
    ensures forall u :: u in whole[..n] && u.id == e.id ==>
      ClickMeans(whole[..n], e, u, SaveOutcome(whole[..n], e).0, SaveOutcome(whole[..n], e).1)
  {
    OrderGivesIds(whole);
    forall u | u in whole[..n] && u.id == e.id
      ensures ClickMeans(whole[..n], e, u, SaveOutcome(whole[..n], e).0, SaveOutcome(whole[..n], e).1)
    {
      SaveOutcomeMeaning(whole[..n], e, u);
    }
  }

  lemma OnlyOneFound(timeline: seq<Update>, u: Update)
    requires DistinctIds(timeline) && u in timeline
    ensures Find(timeline, u.id) == Some(u)
  {
    var i :| 0 <= i < |timeline| && timeline[i] == u;
    var found := Find(timeline, u.id);
    if found.Some? {
      var j :| 0 <= j < |timeline| && timeline[j] == found.value;
    }
  }

  function PatchEdit(patch: Patch): Edit {
    Edit(patch.id, patch.status, patch.publishedAt)
  }

  /** Sending only the changed status is as good as sending the status. */
  lemma PatchEditSameEffect(updates: seq<Update>, e: Editing, original: Update)
    requires DistinctIds(updates) && original in updates && original.id == e.id
    ensures StateFlipDirection(updates, PatchEdit(PatchOf(e, Some(original))))
         == StateFlipDirection(updates, PendingEdit(e, Some(original)))
  {
    var a, b := PatchEdit(PatchOf(e, Some(original))), PendingEdit(e, Some(original));
    forall i | 0 <= i < |updates| ensures Apply(updates[i], a) == Apply(updates[i], b) {
    }
    assert ToCandidates(updates, a) == ToCandidates(updates, b);
  }

  lemma FindInPrefix(whole: seq<Update>, n: nat, id: string)
    requires DistinctIds(whole) && n <= |whole| && Find(whole[..n], id).Some?
    ensures Find(whole[..n], id) == Find(whole, id)
  {
    var u := Find(whole[..n], id).value;
    assert u in whole;
  }

  ghost predicate EnoughLoaded(whole: seq<Update>, n: nat) {
    n <= |whole| && (n >= 2 || n == |whole|)
  }

  /** A shown warning is the whole timeline's verdict on the values in the form. */
  ghost predicate WarningIsTrue(whole: seq<Update>, e: Editing) {
    e.warning.Some? ==> e.warning == StateFlipDirection(whole, PendingEdit(e, Find(whole, e.id)))
  }

  /** The verdict on the loaded part, on the whole, and on what would be sent, are one. */
  lemma FlipOnPrefix(whole: seq<Update>, n: nat, e: Editing)
    requires NewestFirst(whole) && EnoughLoaded(whole, n) && Find(whole[..n], e.id).Some?
    ensures Find(whole[..n], e.id) == Find(whole, e.id)
    ensures var original := Find(whole, e.id);
      var flip := StateFlipDirection(whole, PendingEdit(e, original));
      && StateFlipDirection(whole[..n], PendingEdit(e, original)) == flip
      && StateFlipDirection(whole, PatchEdit(PatchOf(e, original))) == flip
  {
    OrderGivesIds(whole);
    hide StateFlipDirection, StateFlipAfterRemoval, DistinctIds, TieTrap, Before;
    FindInPrefix(whole, n, e.id);
    var original := Find(whole, e.id).value;
    hide Find;
    var t :| 0 <= t < n && whole[..n][t] == original;
    GaplessHasNoTrap(whole, t, PendingEdit(e, Some(original)));
    PrefixDecides(whole, n, PendingEdit(e, Some(original)), t);
    PatchEditSameEffect(whole, e, original);
  }

  /**
   The form keeps its warning true, and a request is sent only if the user has seen exactly
   the flip it will cause on the whole timeline, or it causes none.
   */
  lemma SaveIsConfirmed(whole: seq<Update>, n: nat, e: Editing)
    requires NewestFirst(whole) && EnoughLoaded(whole, n)
    requires Find(whole[..n], e.id).Some? && WarningIsTrue(whole, e)
    ensures var (form, patch) := SaveOutcome(whole[..n], e);
      && (form.Some? ==> form.value.id == e.id && WarningIsTrue(whole, form.value))
      && (patch.Some? ==> StateFlipDirection(whole, PatchEdit(patch.value)) == e.warning)
      && (patch.Some? ==> patch.value != Patch(e.id, None, None, None) && patch.value.id == e.id)
  {
    FlipOnPrefix(whole, n, e);
    hide StateFlipDirection, NewestFirst, Find, Blank;
    var original := Find(whole, e.id);
    forall warning, error ensures PendingEdit(e.(warning := warning, error := error), original) == PendingEdit(e, original) {
    }
  }

  /**
   The request carries no version. If others change the timeline before it arrives, the flip
   that the user confirmed is still the one it causes as long as the two newest updates and the
   edited one are as they were.
   */
  lemma ConfirmedFlipStillHolds(whole: seq<Update>, n: nat, e: Editing, current: seq<Update>, w: nat, c: nat)
    requires NewestFirst(whole) && EnoughLoaded(whole, n) && NewestFirst(current)
    requires Find(whole[..n], e.id).Some? && WarningIsTrue(whole, e)
    requires |whole| >= 2 && |current| >= 2 && whole[0] == current[0] && whole[1] == current[1]
    requires w < |whole| && c < |current| && whole[w] == current[c] && whole[w].id == e.id
    ensures var patch := SaveOutcome(whole[..n], e).1;
      patch.Some? ==> StateFlipDirection(current, PatchEdit(patch.value)) == e.warning
  {
    SaveIsConfirmed(whole, n, e);
    var patch := SaveOutcome(whole[..n], e).1;
    if patch.Some? {
      var edit := PatchEdit(patch.value);
      GaplessHasNoTrap(whole, w, edit);
      GaplessHasNoTrap(current, c, edit);
      hide StateFlipDirection, StateFlipAfterRemoval, TieTrap, SaveOutcome, Find, Gapless;
      LoadedPartDecides(current, whole, edit, c, w);
    }
  }

  lemma OrderGivesIds(whole: seq<Update>)
    requires NewestFirst(whole)
    ensures DistinctIds(whole)
  {
  }

  // ---- The component's state ----

  class Editor {
    var updates: seq<Update>
    var updatesNextCursor: Option<nat>
    var olderUpdates: seq<Update>
    var olderCursor: Option<nat>
    var loadedPastFirstPage: bool
    var editing: Option<Editing>

    function Timeline(): seq<Update>
      reads this
    {
      TimelineUpdates(updates, olderUpdates, loadedPastFirstPage)
    }

    function NextCursor(): Option<nat>
      reads this
    {
      if loadedPastFirstPage then olderCursor else updatesNextCursor
    }

    ghost function Loaded(): nat
      reads this
    {
      |updates| + |olderUpdates|
    }

    static ghost function CursorAt(whole: seq<Update>, n: nat): Option<nat> {
      if n < |whole| then Some(n) else None
    }

    /** The editor shows a beginning of the server's timeline and an honest form. */
    ghost predicate Shows(whole: seq<Update>)
      reads this
    {
      && NewestFirst(whole)
      && EnoughLoaded(whole, |updates|) && Loaded() <= |whole|
      && updates == whole[..|updates|]
      && olderUpdates == whole[|updates|..Loaded()]
      && updatesNextCursor == CursorAt(whole, |updates|)
      && (if loadedPastFirstPage then olderCursor == CursorAt(whole, Loaded()) else olderUpdates == [])
      && (editing.Some? ==>
            Find(whole[..Loaded()], editing.value.id).Some? && WarningIsTrue(whole, editing.value))
    }

    constructor (ghost whole: seq<Update>, page: seq<Update>, next: Option<nat>)
      requires NewestFirst(whole) && EnoughLoaded(whole, |page|)
      requires page == whole[..|page|] && next == CursorAt(whole, |page|)
      ensures Shows(whole) && Timeline() == page && editing == None
    {
      updates, updatesNextCursor := page, next;
      olderUpdates, olderCursor, loadedPastFirstPage := [], None, false;
      editing := None;
    }

    lemma TimelineIsPrefix(whole: seq<Update>)
      requires Shows(whole)
      ensures Timeline() == whole[..Loaded()]
    {
      AssemblyIsPrefix(whole, |updates|, |updates|, Loaded());
    }

    /** The response of the older-page request, which asked for the page at `NextCursor()`. */
    method LoadOlderUpdates(ghost whole: seq<Update>, page: seq<Update>, next: Option<nat>)
      requires Shows(whole) && NextCursor().Some?
      requires var c := NextCursor().value;
        c + |page| <= |whole| && page == whole[c..c + |page|] && next == CursorAt(whole, c + |page|)
      modifies this
      ensures Shows(whole) && Timeline() == whole[..old(Loaded()) + |page|]
      ensures editing == old(editing) && updates == old(updates)
    {
      hide NewestFirst, WarningIsTrue, Find, TimelineUpdates;
      ghost var n := Loaded();
      if editing.Some? {
        FindGrows(whole, n, n + |page|, editing.value.id);
      }
      olderUpdates := olderUpdates + page;
      olderCursor := next;
      loadedPastFirstPage := true;
      TimelineIsPrefix(whole);
    }

    method StartEditUpdate(ghost whole: seq<Update>, updateId: string)
      requires Shows(whole)
      modifies this`editing
      ensures Shows(whole)
      ensures var u := Find(Timeline(), updateId);
        editing == if u.None? then old(editing)
                   else Some(Editing(updateId, u.value.status, u.value.markdown,
                                     Some(ToLocal(u.value.publishedAt)), None, ""))
    {
      TimelineIsPrefix(whole);
      var update := Find(Timeline(), updateId);
      if update.None? {
        return;
      }
      var u := update.value;
      editing := Some(Editing(u.id, u.status, u.markdown, Some(ToLocal(u.publishedAt)), None, ""));
    }

    /** Any change of the form withdraws the warning. */
    method SetEditingField(ghost whole: seq<Update>, status: Status, markdown: string, publishedAt: Option<int>)
      requires Shows(whole)
      modifies this`editing
      ensures Shows(whole)
      ensures editing == if old(editing).None? then None
                         else Some(Editing(old(editing).value.id, status, markdown, publishedAt, None, ""))
    {
      if editing.Some? {
        editing := Some(Editing(editing.value.id, status, markdown, publishedAt, None, ""));
      }
    }

    /** A click on save: at most one request, and never an unconfirmed flip. */
    method SaveEditedUpdate(ghost whole: seq<Update>) returns (patch: Option<Patch>)
      requires Shows(whole)
      modifies this`editing
      ensures Shows(whole)
      ensures old(editing).None? ==> patch.None? && editing.None?
      ensures old(editing).Some? ==> (editing, patch) == SaveOutcome(Timeline(), old(editing).value)
      ensures old(editing).Some? ==>
        forall u :: u in old(Timeline()) && u.id == old(editing).value.id ==>
          ClickMeans(old(Timeline()), old(editing).value, u, editing, patch)
      ensures patch.Some? ==>
        old(editing).Some? && StateFlipDirection(whole, PatchEdit(patch.value)) == old(editing).value.warning
    {
      hide StateFlipDirection, Blank, TimelineUpdates, Find, WarningIsTrue, Gapless, ServerOrdered, ClickMeans;
      if editing.None? {
        return None;
      }
      TimelineIsPrefix(whole);
      EveryUpdateMeans(whole, Loaded(), editing.value);
      SaveIsConfirmed(whole, Loaded(), editing.value);
      var e := editing.value;
      var timeline := Timeline();
      if Blank(e.markdown) {
        editing := Some(e.(error := "Update body is required"));
        return None;
      }
      var original := Find(timeline, e.id);
      var publishedAtChanged := original.None? || e.publishedAt != Some(ToLocal(original.value.publishedAt));
      var publishedAt := if publishedAtChanged && e.publishedAt.Some?
                         then Some(FromLocal(e.publishedAt.value)) else None;
      if publishedAtChanged && publishedAt.None? {
        editing := Some(e.(error := "Enter a valid time"));
        return None;
      }
      var statusChanged := original.None? || e.status != original.value.status;
      var markdownChanged := original.None? || e.markdown != original.value.markdown;
      var flip := StateFlipDirection(timeline, Edit(e.id, Some(e.status), publishedAt));
      if flip.Some? && e.warning == None {
        editing := Some(e.(warning := flip, error := ""));
        return None;
      }
      if !(statusChanged || markdownChanged || publishedAtChanged) {
        editing := None;
        return None;
      }
      return Some(Patch(e.id,
                        if statusChanged then Some(e.status) else None,
                        if markdownChanged then Some(e.markdown) else None,
                        publishedAt));
    }

    /** The request succeeded: the form closes and the older pages are dropped until the refresh. */
    method UpdateSaved(ghost whole: seq<Update>)
      requires Shows(whole)
      modifies this
      ensures Shows(whole) && editing == None && Timeline() == updates == old(updates)
    {
      editing := None;
      olderUpdates, olderCursor, loadedPastFirstPage := [], None, false;
    }
  }

  lemma FindGrows(whole: seq<Update>, n: nat, m: nat, id: string)
    requires n <= m <= |whole| && Find(whole[..n], id).Some?
    ensures Find(whole[..m], id).Some?
  {
    var u := Find(whole[..n], id).value;
    var i :| 0 <= i < n && whole[..n][i] == u;
    assert whole[..m][i] == u;
  }
}
