/**
 Saving the status page under optimistic concurrency: one server with a version counter, and
 any number of settings forms and other writers.

 A save carries the version its form was read at (If-Match, section 13.1.1 of RFC 9110); the
 server refuses it with 412 (section 15.5.13) unless that version is current. A version stands
 for its ETag, which the route sends with every success. Every request is split into the
 server's step and the form's receipt, so responses arrive late and in any order.

 A form makes no edits of its own between its save click and the response: the handlers
 use the saved document and draft they captured at the click.
 */
module StatusPageProtocol {
  import opened Wrappers
  import opened Text
  import opened StatusPageDocument

  // ---- The form ----

  datatype Form = Form(saved: Document, draft: Document, etag: nat)

  predicate Dirty(form: Form) {
    !DocumentsEqual(form.draft, form.saved)
  }

  /** A form is dirty exactly when some field is edited. */
  lemma DirtyIff(saved: Document, draft: Document)
    ensures DocumentsEqual(draft, saved) <==> Edited(saved, draft) == {}
  {
    hide FIELDS, FieldEqual;
    if Edited(saved, draft) == {} {
      forall f | f in FIELDS ensures FieldEqual(Read(draft, f), Read(saved, f)) {
        assert f !in Edited(saved, draft);
      }
    }
  }

  /** Only a pristine form adopts what the mount revalidation fetched. */
  function Revalidated(form: Form, payload: Document, etag: nat): Form {
    if etag == form.etag || Dirty(form) then form
    else Form(DocumentOf(payload), DocumentOf(payload), etag)
  }

  function AcceptedForm(document: Document, etag: nat): Form {
    Form(document, document, etag)
  }

  function RecoveredForm(saved: Document, draft: Document, payload: Document, etag: nat): Form {
    Form(DocumentOf(payload), Merged(saved, draft, DocumentOf(payload)), etag)
  }

  /** A form can be saved when its name is not white space only, and likewise caption and address of each row that is kept. */
  lemma CanSaveIff(draft: Document)
    requires Read(draft, "name").Str? && HasLinks(draft)
    ensures CanSave(draft) <==>
      && !AllSpace(Read(draft, "name").text)
      && forall row :: row in Read(draft, "navLinks").rows ==> (AllSpace(row.caption) <==> AllSpace(row.url))
  {
    var rows := Read(draft, "navLinks").rows;
    BlankIsAllSpace(Read(draft, "name").text);
    forall row: Link ensures (Blank(row.caption) <==> AllSpace(row.caption)) && (Blank(row.url) <==> AllSpace(row.url)) {
      BlankIsAllSpace(row.caption);
      BlankIsAllSpace(row.url);
    }
    WithoutBlankRowsMembers(rows);
    hide Blank, AllSpace, WithoutBlankRows;
    if Filled(WithoutBlankRows(rows)) {
      forall row | row in rows ensures AllSpace(row.caption) <==> AllSpace(row.url) {
        if !BlankRow(row) {
          var i :| 0 <= i < |WithoutBlankRows(rows)| && WithoutBlankRows(rows)[i] == row;
        }
      }
    }
    if forall row :: row in rows ==> (AllSpace(row.caption) <==> AllSpace(row.url)) {
      var kept := WithoutBlankRows(rows);
      forall i | 0 <= i < |kept| ensures !Blank(kept[i].caption) && !Blank(kept[i].url) {
        assert kept[i] in kept;
      }
    }
  }

  /** The name is filled in and no link row is half filled. */
  predicate CanSave(draft: Document) {
    && Read(draft, "name").Str? && !Blank(Read(draft, "name").text)
    && HasLinks(draft) && Filled(WithoutBlankRows(Read(draft, "navLinks").rows))
  }

  class SettingsForm {
    var saved: Document
    var draft: Document
    var etag: nat
    var busy: bool

    function State(): Form
      reads this
    {
      Form(saved, draft, etag)
    }

    constructor (payload: Document, etag: nat)
      ensures State() == Form(DocumentOf(payload), DocumentOf(payload), etag) && !busy
    {
      saved, draft, this.etag, busy := DocumentOf(payload), DocumentOf(payload), etag, false;
    }

    method Update(patch: Document)
      modifies this`draft
      ensures State() == old(State()).(draft := old(draft) + patch)
    {
      draft := draft + patch;
    }

    method Discard()
      modifies this`draft
      ensures State() == old(State()).(draft := saved) && !Dirty(State())
    {
      draft := saved;
    }

    /** The save click up to the request: its body, or nothing when the form is busy or invalid. */
    method BeginSave(customHeadError: bool) returns (document: Option<Document>)
      modifies this`busy
      ensures State() == old(State())
      ensures document == if !old(busy) && !customHeadError && CanSave(draft) then Some(Outgoing(draft)) else None
      ensures busy == (old(busy) || document.Some?)
    {
      if busy || customHeadError || !CanSave(draft) {
        return None;
      }
      busy := true;
      var sent := ToDocument(draft["navLinks" := Links(WithoutBlankRows(Read(draft, "navLinks").rows))]);
      return Some(sent);
    }

    method SaveAccepted(document: Document, nextEtag: nat)
      modifies this
      ensures State() == AcceptedForm(document, nextEtag) && !busy && !Dirty(State())
    {
      saved, draft, etag, busy := document, document, nextEtag, false;
    }

    method Idle()
      modifies this`busy
      ensures !busy
    {
      busy := false;
    }

    method RecoverFromConflict(savedAtClick: Document, draftAtClick: Document, payload: Document, nextEtag: nat)
      modifies this
      ensures State() == RecoveredForm(savedAtClick, draftAtClick, payload, nextEtag) && !busy
    {
      var server := ToDocument(payload);
      draft := MergeStatusPageDrafts(savedAtClick, draftAtClick, server);
      saved := server;
      etag := nextEtag;
      busy := false;
    }

    /** A form with edits is left alone; a pristine one adopts what was fetched. */
    method Revalidate(payload: Document, nextEtag: nat)
      modifies this
      ensures State() == Revalidated(old(State()), payload, nextEtag) && busy == old(busy)
      ensures Edited(old(saved), old(draft)) != {} || nextEtag == old(etag) ==> State() == old(State())
      ensures Edited(old(saved), old(draft)) == {} && nextEtag != old(etag) ==>
        && etag == nextEtag && draft == saved
        && saved.Keys == SCHEMA_KEYS && forall f :: f in SCHEMA_KEYS ==> saved[f] == Read(payload, f)
    {
      DirtyIff(saved, draft);
      PayloadFitsSchema(payload);
      hide FIELDS, SCHEMA_KEYS, Edited, DocumentsEqual, DocumentOf;
      if nextEtag == etag || !DocumentsEqual(draft, saved) {
        return;
      }
      var server := ToDocument(payload);
      etag, saved, draft := nextEtag, server, server;
    }
  }

  // ---- One save, from click to result ----

  datatype PutResult = Accepted(etag: nat) | StaleVersion | Unacceptable

  datatype SaveStatus = NotSent | Saved | Conflict | RequestFailed

  class ConfigServer {
    var history: seq<Document>

    ghost predicate Valid()
      reads this
    {
      history != [] && ServerDocument(history[|history| - 1])
    }

    method Get() returns (payload: Document, etag: nat)
      requires history != []
      ensures etag == |history| - 1 && payload == Payload(history[etag], etag)
    {
      etag := |history| - 1;
      payload := Payload(history[etag], etag);
    }

    /** The document is judged first, then the version. */
    method Put(document: Document, ifMatch: nat, valid: bool) returns (result: PutResult)
      requires history != []
      modifies this
      ensures result == if !valid || !Complete(document) then Unacceptable else if ifMatch != old(|history|) - 1 then StaleVersion
                        else Accepted(old(|history|))
      ensures history == if result.Accepted? then old(history) + [Normalize(document)] else old(history)
    {
      if !valid || !Complete(document) {
        return Unacceptable;
      }
      if ifMatch != |history| - 1 {
        return StaleVersion;
      }
      history := history + [Normalize(document)];
      result := Accepted(|history| - 1);
    }
  }

  /**
   A save with nothing in between. Accepted, it stores the draft and leaves nothing unsaved;
   refused as stale, it stores nothing and leaves exactly the edits that the current document
   does not carry, on top of that document; otherwise form and server are as before.
   */
  method SaveSettings(form: SettingsForm, server: ConfigServer, customHeadError: bool, valid: bool) returns (status: SaveStatus)
    requires server.Valid() && !form.busy
    modifies form, server
    ensures server.Valid() && !form.busy
    ensures status == NotSent <==> customHeadError || !CanSave(old(form.draft))
    ensures status == Saved <==>
      && !customHeadError && CanSave(old(form.draft)) && valid && Complete(Outgoing(old(form.draft)))
      && old(form.etag) == old(|server.history|) - 1
    ensures status == Saved ==>
      && server.history == old(server.history) + [Normalize(Outgoing(old(form.draft)))]
      && form.etag == |server.history| - 1 && !Dirty(form.State())
    ensures status != Saved ==> server.history == old(server.history)
    ensures status == Conflict ==>
      && form.etag == |server.history| - 1 && form.saved == server.history[form.etag]
      && Edited(form.saved, form.draft)
         == set f | f in Edited(old(form.saved), old(form.draft)) && !FieldEqual(Read(old(form.draft), f), Read(form.saved, f))
    ensures status == NotSent || status == RequestFailed ==> form.State() == old(form.State())
  {
    hide FIELDS, Normalize, Complete, Outgoing, CanSave, Merged, Edited, DocumentsEqual, Payload, DocumentOf;
    var saved, draft := form.saved, form.draft;
    var document := form.BeginSave(customHeadError);
    if document.None? {
      return NotSent;
    }
    var result := server.Put(document.value, form.etag, valid);
    match result {
      case Accepted(etag) =>
        StoredIsServerDocument(document.value);
        form.SaveAccepted(document.value, etag);
        return Saved;
      case StaleVersion =>
        var payload, etag := server.Get();
        CurrentPayload(server.history[etag], etag);
        EditedAfterMerge(saved, draft, server.history[etag]);
        form.RecoverFromConflict(saved, draft, payload, etag);
        return Conflict;
      case Unacceptable =>
        form.Idle();
        return RequestFailed;
    }
  }

  lemma StoredIsServerDocument(document: Document)
    requires Complete(document)
    ensures ServerDocument(Normalize(document))
  {
    NormalizeIdempotent(document);
  }

  lemma CurrentPayload(d: Document, version: nat)
    requires ServerDocument(d)
    ensures DocumentOf(Payload(d, version)) == d
  {
    PayloadIsDocument(d, version);
  }

  // ---- The system ----

  /** Where a form's own save stands; the captured values are those of the click. */
  datatype Call =
    | NoCall
    | Sent(saved: Document, draft: Document, ifMatch: nat)
    | Answered(document: Document, etag: nat)
    | Refused(saved: Document, draft: Document)
    | Refetched(saved: Document, draft: Document, payload: Document, etag: nat)

  datatype Client = Client(form: Form, call: Call, revalidation: Option<(Document, nat)>)

  /** One accepted write: the base and the draft of its writer. */
  datatype Save = Save(base: Document, draft: Document)

  /**
   `history[v]` is the document of version `v`, the last one current; `saves[v]` led from `v`
   to `v + 1`. `late` holds the requests whose senders gave up but which may still arrive.
   */
  datatype System = System(history: seq<Document>, saves: seq<Save>, clients: map<nat, Client>, late: set<Call>)

  datatype Event =
    | Mount(c: nat, version: nat)
    | Edit(c: nat, patch: Document)
    | Discard(c: nat)
    | ClickSave(c: nat)
    | Put(c: nat, valid: bool)
    | ReceiveSaved(c: nat)
    | Refetch(c: nat)
    | ReceiveRefetch(c: nat)
    | GiveUp(c: nat)
    | LatePut(call: Call, valid: bool)
    | FetchRevalidation(c: nat)
    | ReceiveRevalidation(c: nat)
    | OtherWriter(document: Document)

  function Version(s: System): int {
    |s.history| - 1
  }

  /** A response body: the document with the read-only fields beside it. */
  function Payload(d: Document, version: nat): Document {
    d["version" := Json("")]["updatedAt" := Json("")]
  }

  ghost predicate Enabled(s: System, e: Event) {
    s.history != [] &&
    match e
    case Mount(c, version) => version < |s.history|
    case OtherWriter(document) => Complete(document)
    case Edit(c, patch) => c in s.clients && s.clients[c].call == NoCall && patch.Keys <= (set f | f in FIELDS)
    case Discard(c) => c in s.clients && s.clients[c].call == NoCall
    case ClickSave(c) => c in s.clients && s.clients[c].call == NoCall && CanSave(s.clients[c].form.draft)
    case Put(c, valid) => c in s.clients && s.clients[c].call.Sent? && HasLinks(s.clients[c].call.draft)
    case ReceiveSaved(c) => c in s.clients && s.clients[c].call.Answered?
    case Refetch(c) => c in s.clients && s.clients[c].call.Refused?
    case ReceiveRefetch(c) => c in s.clients && s.clients[c].call.Refetched?
    case GiveUp(c) => c in s.clients
    case LatePut(call, valid) => call in s.late && call.Sent? && HasLinks(call.draft)
    case FetchRevalidation(c) => c in s.clients
    case ReceiveRevalidation(c) => c in s.clients && s.clients[c].revalidation.Some?
  }

  /** The server's PUT: an unacceptable body is refused first, then a stale version. */
  predicate PutAccepted(s: System, call: Call, valid: bool)
    requires call.Sent? && HasLinks(call.draft)
  {
    valid && Complete(Outgoing(call.draft)) && call.ifMatch == Version(s)
  }

  function Written(s: System, document: Document, save: Save): System {
    s.(history := s.history + [Normalize(document)], saves := s.saves + [save])
  }

  function WithClient(s: System, c: nat, client: Client): System {
    s.(clients := s.clients[c := client])
  }

  ghost function Step(s: System, e: Event): System
    requires Enabled(s, e)
  {
    match e
    case Mount(c, version) =>
      var d := DocumentOf(Payload(s.history[version], version));
      WithClient(s, c, Client(Form(d, d, version), NoCall, None))
    case OtherWriter(document) => Written(s, document, Save(s.history[Version(s)], document))
    case LatePut(call, valid) =>
      var rest := s.(late := s.late - {call});
      if PutAccepted(s, call, valid) then Written(rest, Outgoing(call.draft), Save(call.saved, call.draft)) else rest
    case _ => ClientStep(s, e)
  }

  ghost function ClientStep(s: System, e: Event): System
    requires Enabled(s, e) && !e.Mount? && !e.OtherWriter? && !e.LatePut?
  {
    var client := s.clients[e.c];
    var form, call := client.form, client.call;
    match e
    case Edit(c, patch) => WithClient(s, c, client.(form := form.(draft := form.draft + patch)))
    case Discard(c) => WithClient(s, c, client.(form := form.(draft := form.saved)))
    case ClickSave(c) => WithClient(s, c, client.(call := Sent(form.saved, form.draft, form.etag)))
    case Put(c, valid) =>
      if PutAccepted(s, call, valid) then
        var document := Outgoing(call.draft);
        WithClient(Written(s, document, Save(call.saved, call.draft)), c,
                   client.(call := Answered(document, |s.history|)))
      else if valid && Complete(Outgoing(call.draft)) then
        WithClient(s, c, client.(call := Refused(call.saved, call.draft)))
      else
        WithClient(s, c, client.(call := NoCall))
    case ReceiveSaved(c) =>
      WithClient(s, c, client.(form := AcceptedForm(call.document, call.etag), call := NoCall))
    case Refetch(c) =>
      WithClient(s, c, client.(call := Refetched(call.saved, call.draft,
                                                 Payload(s.history[Version(s)], Version(s)), Version(s))))
    case ReceiveRefetch(c) =>
      WithClient(s, c, client.(form := RecoveredForm(call.saved, call.draft, call.payload, call.etag),
                               call := NoCall))
    case GiveUp(c) =>
      WithClient(s.(late := if call.Sent? then s.late + {call} else s.late), c, client.(call := NoCall))
    case FetchRevalidation(c) =>
      WithClient(s, c, client.(revalidation := Some((Payload(s.history[Version(s)], Version(s)), Version(s)))))
    case ReceiveRevalidation(c) =>
      var (payload, etag) := client.revalidation.value;
      WithClient(s, c, client.(form := Revalidated(form, payload, etag), revalidation := None))
  }

  ghost predicate Runs(start: System, events: seq<Event>, end: System)
    decreases |events|
  {
    if events == [] then start == end
    else Enabled(start, events[0]) && Runs(Step(start, events[0]), events[1..], end)
  }

  function Start(d: Document): System {
    System([d], [], map[], {})
  }

  // ---- Invariants of every run ----

  predicate ServerDocument(d: Document) {
    Complete(d) && Normalize(d) == d
  }

  /** `(d, etag)` is a version the server once had, up to the trimming the server does. */
  predicate IsVersion(history: seq<Document>, d: Document, etag: nat) {
    Complete(d) && etag < |history| && Normalize(d) == history[etag]
  }

  predicate IsPayload(history: seq<Document>, payload: Document, etag: nat) {
    etag < |history| && payload == Payload(history[etag], etag)
  }

  predicate CallSound(history: seq<Document>, call: Call) {
    match call
    case NoCall => true
    case Sent(saved, draft, ifMatch) => IsVersion(history, saved, ifMatch) && HasLinks(draft)
    case Answered(document, etag) => IsVersion(history, document, etag)
    case Refused(_, _) => true
    case Refetched(_, _, payload, etag) => IsPayload(history, payload, etag)
  }

  predicate ClientSound(history: seq<Document>, client: Client) {
    && IsVersion(history, client.form.saved, client.form.etag)
    && CallSound(history, client.call)
    && (client.revalidation.Some? ==> IsPayload(history, client.revalidation.value.0, client.revalidation.value.1))
  }

  /** Version `k + 1` differs from version `k` only in fields its writer had edited, and carries those edits. */
  ghost predicate SaveSound(before: Document, after: Document, save: Save) {
    && HasLinks(save.draft) && Complete(Outgoing(save.draft))
    && after == Normalize(Outgoing(save.draft))
    && forall f :: f in FIELDS && f !in Edited(save.base, save.draft) ==> Read(after, f) == Read(before, f)
  }

  ghost predicate Invariant(s: System) {
    && s.history != [] && |s.saves| == |s.history| - 1
    && (forall v :: 0 <= v < |s.history| ==> ServerDocument(s.history[v]))
    && (forall k :: 0 <= k < |s.saves| ==> SaveSound(s.history[k], s.history[k + 1], s.saves[k]))
    && (forall c :: c in s.clients ==> ClientSound(s.history, s.clients[c]))
    && (forall call :: call in s.late ==> CallSound(s.history, call))
  }

  lemma PayloadIsDocument(d: Document, version: nat)
    requires Complete(d)
    ensures DocumentOf(Payload(d, version)) == d
  {
    ExtrasAreNoFields();
    hide FIELDS, Filled;
    assert DocumentOf(Payload(d, version)).Keys == d.Keys;
  }

  lemma ExtrasAreNoFields()
    ensures "version" !in FIELDS && "updatedAt" !in FIELDS
  {
  }

  lemma CallStaysSound(history: seq<Document>, d: Document, call: Call)
    requires CallSound(history, call)
    ensures CallSound(history + [d], call)
  {
    hide Complete, Normalize, Payload;
  }

  lemma ClientStaysSound(history: seq<Document>, d: Document, client: Client)
    requires ClientSound(history, client)
    ensures ClientSound(history + [d], client)
  {
    hide Complete, Normalize, Payload;
    CallStaysSound(history, d, client.call);
  }

  /** An accepted write keeps the server's part of the invariant. */
  lemma WriteKeepsInvariant(s: System, document: Document, save: Save)
    requires Invariant(s) && Complete(document)
    requires SaveSound(s.history[Version(s)], Normalize(document), save)
    ensures Invariant(Written(s, document, save))
  {
    hide FIELDS, Complete, Normalize, SaveSound, ClientSound, CallSound;
    NormalizeIdempotent(document);
    var d := Normalize(document);
    assert ServerDocument(d);
    hide ServerDocument;
    forall c | c in s.clients ensures ClientSound(s.history + [d], s.clients[c]) {
      ClientStaysSound(s.history, d, s.clients[c]);
    }
    forall call | call in s.late ensures CallSound(s.history + [d], call) {
      CallStaysSound(s.history, d, call);
    }
  }

  /** A save whose version is current changes only what its draft changed. */
  lemma CurrentSaveIsSound(history: seq<Document>, base: Document, draft: Document)
    requires history != [] && IsVersion(history, base, |history| - 1)
    requires HasLinks(draft) && Complete(Outgoing(draft))
    ensures SaveSound(history[|history| - 1], Normalize(Outgoing(draft)), Save(base, draft))
  {
    var document, before := Outgoing(draft), history[|history| - 1];
    forall f | f in FIELDS && f !in Edited(base, draft) 
      ensures Read(Normalize(document), f) == Read(before, f)
    {
      OutgoingKeepsUnedited(base, draft, f);
      assert f in document && f in base;
    }
  }

  lemma OutgoingOfComplete(d: Document)
    requires Complete(d)
    ensures HasLinks(d) && Outgoing(d) == d
  {
    FilledHasNoBlankRows(d["navLinks"].rows);
  }

  /** Another writer's document is a draft on top of the current version. */
  lemma OtherWriterIsSound(before: Document, document: Document)
    requires ServerDocument(before) && Complete(document)
    ensures SaveSound(before, Normalize(document), Save(before, document))
  {
    OutgoingOfComplete(document);
    CurrentSaveIsSound([before], before, document);
  }

  lemma ReplaceClient(s: System, c: nat, client: Client)
    requires Invariant(s) && ClientSound(s.history, client)
    ensures Invariant(WithClient(s, c, client))
  {
    hide FIELDS, Complete, Normalize, SaveSound, ClientSound, CallSound, ServerDocument;
  }

  predicate IsWrite(e: Event) {
    e.OtherWriter? || e.Put? || e.LatePut?
  }

  lemma WriteStepKeepsInvariant(s: System, e: Event)
    requires Invariant(s) && Enabled(s, e) && IsWrite(e)
    ensures Invariant(Step(s, e))
  {
    hide FIELDS, Complete, Normalize, SaveSound, Outgoing, Payload, DocumentOf, Blank, Filled;
    match e {
      case OtherWriter(document) =>
        OtherWriterIsSound(s.history[Version(s)], document);
        WriteKeepsInvariant(s, document, Save(s.history[Version(s)], document));
      case Put(c, valid) =>
        var client := s.clients[c];
        var call := client.call;
        if PutAccepted(s, call, valid) {
          CurrentSaveIsSound(s.history, call.saved, call.draft);
          WriteKeepsInvariant(s, Outgoing(call.draft), Save(call.saved, call.draft));
          var next := Written(s, Outgoing(call.draft), Save(call.saved, call.draft));
          assert ClientSound(next.history, next.clients[c]);
          ReplaceClient(next, c, client.(call := Answered(Outgoing(call.draft), |s.history|)));
        } else {
          ReplaceClient(s, c, client.(call := Refused(call.saved, call.draft)));
          ReplaceClient(s, c, client.(call := NoCall));
        }
      case LatePut(call, valid) =>
        if PutAccepted(s, call, valid) {
          CurrentSaveIsSound(s.history, call.saved, call.draft);
          WriteKeepsInvariant(s.(late := s.late - {call}), Outgoing(call.draft), Save(call.saved, call.draft));
        }
    }
  }

  lemma FormStepKeepsInvariant(s: System, e: Event)
    requires Invariant(s) && Enabled(s, e) && !IsWrite(e)
    ensures Invariant(Step(s, e))
  {
    hide FIELDS, Complete, Normalize, SaveSound, Outgoing, Payload, DocumentOf, Blank, Filled, Merged, DocumentsEqual;
    if e.Mount? {
      PayloadIsDocument(s.history[e.version], e.version);
    } else {
      var client := s.clients[e.c];
      if e.ReceiveRefetch? {
        PayloadIsDocument(s.history[client.call.etag], client.call.etag);
      } else if e.ReceiveRevalidation? {
        PayloadIsDocument(s.history[client.revalidation.value.1], client.revalidation.value.1);
      }
    }
    assert ClientSound(s.history, Step(s, e).clients[e.c]);
    ReplaceClient(s, e.c, Step(s, e).clients[e.c]);
    hide ClientSound;
  }

  lemma StepKeepsInvariant(s: System, e: Event)
    requires Invariant(s) && Enabled(s, e)
    ensures Invariant(Step(s, e))
  {
    hide Invariant, Enabled, Step;
    if IsWrite(e) {
      WriteStepKeepsInvariant(s, e);
    } else {
      FormStepKeepsInvariant(s, e);
    }
  }

  lemma StepGrowsHistory(s: System, e: Event)
    requires Enabled(s, e)
    ensures s.history <= Step(s, e).history && s.saves <= Step(s, e).saves
  {
    hide FIELDS, Complete, Normalize, Outgoing, Payload, DocumentOf, CanSave;
  }

  lemma {:induction false} RunKeepsInvariant(start: System, events: seq<Event>, end: System)
    requires Invariant(start) && Runs(start, events, end)
    ensures Invariant(end)
    ensures start.history <= end.history && start.saves <= end.saves
    decreases |events|
  {
    if events != [] {
      hide Enabled, Invariant;
      StepGrowsHistory(start, events[0]);
      hide Step;
      StepKeepsInvariant(start, events[0]);
      RunKeepsInvariant(Step(start, events[0]), events[1..], end);
    }
  }

  /** In every run, each accepted save changes only the fields its writer had edited. */
  lemma SavesChangeOnlyEdits(d: Document, events: seq<Event>, end: System, k: nat)
    requires ServerDocument(d) && Runs(Start(d), events, end) && k < |end.saves|
    ensures |end.history| == |end.saves| + 1 && SaveSound(end.history[k], end.history[k + 1], end.saves[k])
  {
    RunKeepsInvariant(Start(d), events, end);
  }

  /** Walking back from version `j` meets the save that changed the field. */
  lemma {:induction false} ChangeHasEditor(s: System, i: nat, j: nat, f: string)
    requires Invariant(s) && i <= j < |s.history| && f in FIELDS
    requires Read(s.history[i], f) != Read(s.history[j], f)
    ensures exists k :: i <= k < j && f in Edited(s.saves[k].base, s.saves[k].draft)
    decreases j
  {
    hide FIELDS, Edited, Complete, Normalize, Outgoing, ClientSound, CallSound, ServerDocument;
    if i < j {
      assert SaveSound(s.history[j - 1], s.history[j], s.saves[j - 1]);
      if f !in Edited(s.saves[j - 1].base, s.saves[j - 1].draft) {
        ChangeHasEditor(s, i, j - 1, f);
      }
    }
  }

  /**
   No lost update over whole runs: a field's value stands from one version to any later one
   unless a save in between came from a draft that had edited that very field.
   */
  lemma NoLostUpdate(d: Document, events: seq<Event>, end: System, i: nat, j: nat, f: string)
    requires ServerDocument(d) && Runs(Start(d), events, end)
    requires i <= j < |end.history| && f in FIELDS
    requires Read(end.history[i], f) != Read(end.history[j], f)
    ensures |end.saves| == |end.history| - 1
    ensures exists k :: i <= k < j && f in Edited(end.saves[k].base, end.saves[k].draft)
  {
    RunKeepsInvariant(Start(d), events, end);
    ChangeHasEditor(end, i, j, f);
  }

  /** Every form in every run holds a version the server once had, however late its responses. */
  lemma FormsHoldVersions(d: Document, events: seq<Event>, end: System, c: nat)
    requires ServerDocument(d) && Runs(Start(d), events, end) && c in end.clients
    ensures IsVersion(end.history, end.clients[c].form.saved, end.clients[c].form.etag)
  {
    RunKeepsInvariant(Start(d), events, end);
  }

  // ---- What the form calls saved ----

  /** An answered save is one of the accepted ones: the document sent is that save's payload. */
  ghost predicate AnswersAreSaves(s: System) {
    |s.saves| == |s.history| - 1 &&
    forall c :: c in s.clients && s.clients[c].call.Answered? ==> AnswerIsSave(s.saves, s.clients[c].call)
  }

  predicate AnswerIsSave(saves: seq<Save>, call: Call)
    requires call.Answered?
  {
    && 1 <= call.etag <= |saves|
    && HasLinks(saves[call.etag - 1].draft)
    && call.document == Outgoing(saves[call.etag - 1].draft)
  }

  lemma StepKeepsAnswers(s: System, e: Event)
    requires Enabled(s, e) && AnswersAreSaves(s)
    ensures AnswersAreSaves(Step(s, e))
  {
    hide FIELDS, Complete, Normalize, Outgoing, Payload, DocumentOf, CanSave, HasLinks, Merged;
    var t := Step(s, e);
    StepGrowsHistory(s, e);
    forall c | c in t.clients && t.clients[c].call.Answered? ensures AnswerIsSave(t.saves, t.clients[c].call) {
      if c in s.clients && s.clients[c].call == t.clients[c].call {
        assert AnswerIsSave(s.saves, s.clients[c].call);
      }
    }
  }

  lemma {:induction false} RunKeepsAnswers(start: System, events: seq<Event>, end: System)
    requires AnswersAreSaves(start) && Runs(start, events, end)
    ensures AnswersAreSaves(end)
    decreases |events|
  {
    if events != [] {
      hide Enabled, Step, AnswersAreSaves;
      StepKeepsAnswers(start, events[0]);
      RunKeepsAnswers(Step(start, events[0]), events[1..], end);
    }
  }

  /** What the server stored for the answered save. */
  lemma StoredVersion(s: System, c: nat)
    requires Invariant(s) && AnswersAreSaves(s) && c in s.clients && s.clients[c].call.Answered?
    ensures var call := s.clients[c].call;
      AnswerIsSave(s.saves, call) && call.etag < |s.history| && s.history[call.etag] == Normalize(call.document)
  {
    hide ClientSound, CallSound, Normalize, Outgoing, ServerDocument, Complete, FIELDS;
    var call := s.clients[c].call;
    assert AnswerIsSave(s.saves, call);
    assert SaveSound(s.history[call.etag - 1], s.history[call.etag], s.saves[call.etag - 1]);
  }

  /** The document sent is the one stored exactly when the draft of that save had nothing to trim. */
  ghost predicate StoredAsSentIffTight(s: System, call: Call) {
    && call.Answered? && AnswerIsSave(s.saves, call) && call.etag < |s.history|
    && (call.document == s.history[call.etag] <==> TrimFree(s.saves[call.etag - 1].draft))
  }

  /**
   After a save the form keeps the document it sent, not the one the server stored. In every
   run the two are the same exactly when the draft at the click had no white space at the ends
   of its page name and of the captions it kept.
   */
  lemma SavedIsStoredIff(d: Document, events: seq<Event>, end: System, c: nat)
    requires ServerDocument(d) && Runs(Start(d), events, end)
    requires c in end.clients && end.clients[c].call.Answered?
    ensures StoredAsSentIffTight(end, end.clients[c].call)
  {
    hide Runs, Invariant, Normalize, Outgoing, TrimFree, ServerDocument, AnswersAreSaves, HasLinks;
    StartInvariant(d);
    RunKeepsInvariant(Start(d), events, end);
    RunKeepsAnswers(Start(d), events, end);
    VersionCount(end);
    StoredVersion(end, c);
    StoredAsSentIff(end.saves[end.clients[c].call.etag - 1].draft);
  }

  lemma VersionCount(s: System)
    requires Invariant(s)
    ensures |s.saves| == |s.history| - 1
  {
  }

  lemma StartInvariant(d: Document)
    requires ServerDocument(d)
    ensures Invariant(Start(d)) && AnswersAreSaves(Start(d))
  {
  }

  lemma SpacedName()
    ensures !Blank(" x") && !Tight(" x") && "name" in FIELDS && "navLinks" in FIELDS
  {
    assert TrimEnd(" x") == " x" && TrimStart(" x") == "x" by {
      assert " x"[1..] == "x";
    }
  }

  /** The renamed draft can be saved and is complete. */
  lemma RenamedCanBeSaved(d: Document, draft: Document)
    requires Complete(d) && draft == d["name" := Str(" x")]
    ensures CanSave(draft) && HasLinks(draft) && Complete(Outgoing(draft)) && Outgoing(draft)["name"] == Str(" x")
  {
    SpacedName();
    hide FIELDS, Blank, BlankRow, Filled;
    FilledHasNoBlankRows(d["navLinks"].rows);
  }

  /** It is neither stored already nor stored as it is. */
  lemma RenamedDraft(d: Document, draft: Document)
    requires ServerDocument(d) && draft == d["name" := Str(" x")]
    ensures CanSave(draft) && HasLinks(draft) && Complete(Outgoing(draft))
    ensures map["name" := Str(" x")].Keys <= set f | f in FIELDS
    ensures Outgoing(draft) != d && Outgoing(draft) != Normalize(Outgoing(draft))
  {
    SpacedName();
    RenamedCanBeSaved(d, draft);
    StoredAsSentIff(draft);
    TrimFixedPoints(" x");
    assert map["name" := Str(" x")].Keys == {"name"};
    assert Normalize(d)["name"] == NormalizeValue("name", d["name"]);
    hide FIELDS, Blank, Tight, Trim, Outgoing, CanSave, HasLinks, Normalize, Complete;
  }

  lemma {:induction false} Extend(start: System, events: seq<Event>, mid: System, e: Event)
    requires Runs(start, events, mid) && Enabled(mid, e)
    ensures Runs(start, events + [e], Step(mid, e))
    decreases |events|
  {
    hide Step, Enabled;
    if events == [] {
      assert ([] + [e])[1..] == [];
      assert Runs(Step(mid, e), [], Step(mid, e));
    } else {
      Extend(Step(start, events[0]), events[1..], mid, e);
      assert (events + [e])[1..] == events[1..] + [e];
    }
  }

  /** The only client, with `draft` on top of the only version. */
  function Editing(d: Document, draft: Document, call: Call): System {
    Start(d).(clients := map[1 := Client(Form(d, draft, 0), call, None)])
  }

  lemma MountStep(d: Document)
    requires ServerDocument(d)
    ensures Enabled(Start(d), Mount(1, 0)) && Step(Start(d), Mount(1, 0)) == Editing(d, d, NoCall)
  {
    PayloadIsDocument(d, 0);
    hide Complete, DocumentOf, Payload, FIELDS;
  }

  lemma EditStep(d: Document, patch: Document)
    requires patch.Keys <= set f | f in FIELDS
    ensures Enabled(Editing(d, d, NoCall), Edit(1, patch))
    ensures Step(Editing(d, d, NoCall), Edit(1, patch)) == Editing(d, d + patch, NoCall)
  {
    hide FIELDS;
  }

  lemma ClickStep(d: Document, draft: Document)
    requires CanSave(draft)
    ensures Enabled(Editing(d, draft, NoCall), ClickSave(1))
    ensures Step(Editing(d, draft, NoCall), ClickSave(1)) == Editing(d, draft, Sent(d, draft, 0))
  {
    hide CanSave;
  }

  lemma PutStep(d: Document, draft: Document)
    requires HasLinks(draft) && Complete(Outgoing(draft))
    ensures var s := Editing(d, draft, Sent(d, draft, 0));
      && Enabled(s, Put(1, true))
      && Step(s, Put(1, true)).history == [d, Normalize(Outgoing(draft))]
      && 1 in Step(s, Put(1, true)).clients
      && Step(s, Put(1, true)).clients[1].call == Answered(Outgoing(draft), 1)
  {
    hide HasLinks, Complete, Outgoing, Normalize;
  }

  /** A run in which a page renamed to " x" is saved: the form then calls saved what the server never had. */
  lemma SavedMayDiffer(d: Document) returns (events: seq<Event>, end: System)
    requires ServerDocument(d)
    ensures Runs(Start(d), events, end)
    ensures 1 in end.clients && end.clients[1].call.Answered? && end.clients[1].call.document !in end.history
  {
    var patch := map["name" := Str(" x")];
    var draft := d + patch;
    hide Step, Enabled, ServerDocument, Normalize, Outgoing, CanSave, HasLinks, Complete, Editing, FIELDS;
    RenamedDraft(d, draft);
    MountStep(d);
    EditStep(d, patch);
    ClickStep(d, draft);
    PutStep(d, draft);
    assert Runs(Start(d), [], Start(d));
    hide Runs;
    Extend(Start(d), [], Start(d), Mount(1, 0));
    events := [] + [Mount(1, 0)];
    Extend(Start(d), events, Editing(d, d, NoCall), Edit(1, patch));
    events := events + [Edit(1, patch)];
    Extend(Start(d), events, Editing(d, draft, NoCall), ClickSave(1));
    events := events + [ClickSave(1)];
    Extend(Start(d), events, Editing(d, draft, Sent(d, draft, 0)), Put(1, true));
    events := events + [Put(1, true)];
    end := Step(Editing(d, draft, Sent(d, draft, 0)), Put(1, true));
  }

  // ---- What happens to a draft ----

  /** The events by which a client itself changes its form. */
  predicate OwnEvent(e: Event, c: nat) {
    e in {Discard(c), ReceiveSaved(c), ReceiveRefetch(c)} || (e.Mount? && e.c == c) || (e.Edit? && e.c == c)
  }

  /** Anything else leaves a form with edits alone, a late revalidation included. */
  lemma StepSparesEdits(s: System, e: Event, c: nat)
    requires Enabled(s, e) && c in s.clients && !OwnEvent(e, c)
    requires Edited(s.clients[c].form.saved, s.clients[c].form.draft) != {}
    ensures c in Step(s, e).clients && Step(s, e).clients[c].form == s.clients[c].form
  {
    DirtyIff(s.clients[c].form.saved, s.clients[c].form.draft);
    hide FIELDS, Edited, DocumentsEqual, Complete, Normalize, Outgoing, Payload, DocumentOf, CanSave, HasLinks, Merged;
  }

  /**
   In every run the edited values of a draft stay, with the version they were made on, until the
   client itself edits, discards, has saved, recovers from a conflict, or mounts the form anew.
   */
  lemma {:induction false} EditsStand(s: System, events: seq<Event>, end: System, c: nat)
    requires Runs(s, events, end) && c in s.clients
    requires Edited(s.clients[c].form.saved, s.clients[c].form.draft) != {}
    requires forall i :: 0 <= i < |events| ==> !OwnEvent(events[i], c)
    ensures c in end.clients && end.clients[c].form == s.clients[c].form
    decreases |events|
  {
    hide Step, Enabled, Edited, OwnEvent;
    if events != [] {
      StepSparesEdits(s, events[0], c);
      assert forall i :: 0 <= i < |events[1..]| ==> events[1..][i] == events[i + 1];
      EditsStand(Step(s, events[0]), events[1..], end, c);
    }
  }

  ghost predicate AdoptsVersion(s: System, t: System, c: nat) {
    c in s.clients && s.clients[c].revalidation.Some? &&
    var before, etag := s.clients[c].form, s.clients[c].revalidation.value.1;
    Edited(before.saved, before.draft) == {} && etag != before.etag ==>
      etag < |s.history| && c in t.clients && t.clients[c].form == Form(s.history[etag], s.history[etag], etag)
  }

  /** In every run a late revalidation that a pristine form adopts brings a version the server once had. */
  lemma PristineFormAdopts(d: Document, events: seq<Event>, s: System, c: nat)
    requires ServerDocument(d) && Runs(Start(d), events, s) && Enabled(s, ReceiveRevalidation(c))
    ensures AdoptsVersion(s, Step(s, ReceiveRevalidation(c)), c)
  {
    hide Runs, Step, Enabled, Invariant, ServerDocument, Edited, DocumentOf, Payload;
    StartInvariant(d);
    RunKeepsInvariant(Start(d), events, s);
    FetchedVersion(s, c);
    var (payload, etag) := s.clients[c].revalidation.value;
    FetchedDocument(s, payload, etag);
    RevalidationStep(s, c);
  }

  lemma FetchedVersion(s: System, c: nat)
    requires Invariant(s) && Enabled(s, ReceiveRevalidation(c))
    ensures c in s.clients && s.clients[c].revalidation.Some?
    ensures IsPayload(s.history, s.clients[c].revalidation.value.0, s.clients[c].revalidation.value.1)
  {
    hide Complete, Normalize, Payload, SaveSound, CallSound, ServerDocument, IsVersion;
    assert ClientSound(s.history, s.clients[c]);
  }

  lemma FetchedDocument(s: System, payload: Document, etag: nat)
    requires Invariant(s) && IsPayload(s.history, payload, etag)
    ensures etag < |s.history| && DocumentOf(payload) == s.history[etag]
  {
    hide Normalize, Complete, SaveSound, ClientSound, CallSound, DocumentOf, Payload;
    assert ServerDocument(s.history[etag]);
    PayloadIsDocument(s.history[etag], etag);
  }

  lemma RevalidationStep(s: System, c: nat)
    requires Enabled(s, ReceiveRevalidation(c))
    ensures c in s.clients && s.clients[c].revalidation.Some? && c in Step(s, ReceiveRevalidation(c)).clients
    ensures var before, fetched := s.clients[c].form, s.clients[c].revalidation.value;
      Edited(before.saved, before.draft) == {} && fetched.1 != before.etag ==>
        Step(s, ReceiveRevalidation(c)).clients[c].form == Form(DocumentOf(fetched.0), DocumentOf(fetched.0), fetched.1)
  {
    DirtyIff(s.clients[c].form.saved, s.clients[c].form.draft);
    hide FIELDS, Edited, DocumentsEqual, DocumentOf, CanSave, HasLinks, Complete;
  }

  /** What the client's own events do to its form, value by value. */
  lemma OwnEventsMean(s: System, c: nat, patch: Document, version: nat)
    ensures Enabled(s, Edit(c, patch)) ==>
      var before, after := s.clients[c].form, Step(s, Edit(c, patch)).clients[c].form;
      && after.saved == before.saved && after.etag == before.etag
      && forall f :: Read(after.draft, f) == if f in patch then patch[f] else Read(before.draft, f)
    ensures Enabled(s, Discard(c)) ==>
      var before := s.clients[c].form;
      Step(s, Discard(c)).clients[c].form == Form(before.saved, before.saved, before.etag)
    ensures Enabled(s, ReceiveSaved(c)) ==>
      var call := s.clients[c].call;
      Step(s, ReceiveSaved(c)).clients[c].form == Form(call.document, call.document, call.etag)
    ensures Enabled(s, ClickSave(c)) ==>
      var form := s.clients[c].form;
      Step(s, ClickSave(c)).clients[c] == s.clients[c].(call := Sent(form.saved, form.draft, form.etag))
  {
    hide FIELDS, CanSave, HasLinks, Complete;
  }

  /** A recovery takes the fetched version as its base and keeps the values edited at the click. */
  lemma RecoveryMeans(s: System, c: nat)
    requires Enabled(s, ReceiveRefetch(c))
    ensures c in Step(s, ReceiveRefetch(c)).clients
    ensures var call, after := s.clients[c].call, Step(s, ReceiveRefetch(c)).clients[c].form;
      && after.etag == call.etag && after.saved.Keys == after.draft.Keys == SCHEMA_KEYS
      && forall f :: f in SCHEMA_KEYS ==>
           && after.saved[f] == Read(call.payload, f)
           && after.draft[f] == if f in Edited(call.saved, call.draft) then Read(call.draft, f) else Read(call.payload, f)
  {
    PayloadFitsSchema(s.clients[c].call.payload);
    FieldsAreKeys();
    hide FIELDS, SCHEMA_KEYS, FieldEqual;
  }

  /** What a PUT does: an unacceptable body or a stale version stores nothing, and only the latter asks for a recovery. */
  lemma PutMeans(s: System, c: nat, valid: bool)
    requires Enabled(s, Put(c, valid))
    ensures c in Step(s, Put(c, valid)).clients
    ensures var call, after := s.clients[c].call, Step(s, Put(c, valid));
      var document := Outgoing(call.draft);
      var acceptable, current := valid && Complete(document), call.ifMatch == |s.history| - 1;
      && after.history == (if acceptable && current then s.history + [Normalize(document)] else s.history)
      && after.clients[c].form == s.clients[c].form
      && after.clients[c].call == (if !acceptable then NoCall
                                   else if current then Answered(document, |s.history|)
                                   else Refused(call.saved, call.draft))
  {
    hide FIELDS, Complete, Normalize, Outgoing, HasLinks;
  }

  /** Fetches bring the version that is current when the server answers; what is lost or late changes no form. */
  lemma FetchesMean(s: System, c: nat, call: Call, valid: bool)
    ensures Enabled(s, Refetch(c)) ==>
      var before, v := s.clients[c], |s.history| - 1;
      Step(s, Refetch(c)).clients[c]
      == before.(call := Refetched(before.call.saved, before.call.draft, Payload(s.history[v], v), v))
    ensures Enabled(s, FetchRevalidation(c)) ==>
      var v := |s.history| - 1;
      Step(s, FetchRevalidation(c)).clients[c] == s.clients[c].(revalidation := Some((Payload(s.history[v], v), v)))
    ensures Enabled(s, GiveUp(c)) ==>
      && Step(s, GiveUp(c)).clients[c] == s.clients[c].(call := NoCall)
      && Step(s, GiveUp(c)).late == if s.clients[c].call.Sent? then s.late + {s.clients[c].call} else s.late
    ensures Enabled(s, LatePut(call, valid)) ==>
      var document, after := Outgoing(call.draft), Step(s, LatePut(call, valid));
      && after.clients == s.clients && after.late == s.late - {call}
      && after.history == if valid && Complete(document) && call.ifMatch == |s.history| - 1
                          then s.history + [Normalize(document)] else s.history
  {
    hide FIELDS, Complete, Normalize, Outgoing, HasLinks, Payload, CanSave;
  }
}
