/**
 The status page document as the settings form handles it: comparison field by field, the
 exact PUT payload, and the three-way merge used when a save meets a newer version.
 */
module StatusPageDocument {
  import opened Text

  datatype Link = Link(caption: string, url: string)

  /**
   A field's value. Two values are the same JSON exactly when they are the same here;
   `Json` holds the text of a value the form treats as a whole.
   */
  datatype Value = Undefined | Null | Str(text: string) | Links(rows: seq<Link>) | Json(json: string)

  type Document = map<string, Value>

  const FIELDS: seq<string> := [
    "name", "layout", "theme", "logoLightImageId", "logoDarkImageId", "faviconImageId",
    "homepageUrl", "contactUrl", "navLinks", "googleTagId", "customCss", "customHead",
    "announcementEnabled", "announcementMarkdown", "historyDays", "uptimeDecimals",
    "unknownAsOperational", "minIncidentSeconds", "timezone"]

  /** Reading a property that is not there gives undefined. */
  function Read(d: Document, f: string): Value {
    if f in d then d[f] else Undefined
  }

  function OrNull(v: Value): Value {
    if v == Undefined then Null else v
  }

  predicate FieldEqual(left: Value, right: Value) {
    OrNull(left) == OrNull(right)
  }

  predicate DocumentsEqual(left: Document, right: Document) {
    forall f :: f in FIELDS ==> FieldEqual(Read(left, f), Read(right, f))
  }

  /** Exactly the document's fields, each as the draft has it. */
  function DocumentOf(draft: Document): Document {
    map f | f in FIELDS :: Read(draft, f)
  }

  /** A field the local draft changed keeps the local value, any other takes the server's. */
  function Merged(base: Document, local: Document, server: Document): Document {
    map f | f in FIELDS ::
      if FieldEqual(Read(local, f), Read(base, f)) then Read(server, f) else Read(local, f)
  }

  method ToDocument(draft: Document) returns (document: Document)
    ensures document == DocumentOf(draft)
  {
    hide FIELDS;
    document := map[];
    for i := 0 to |FIELDS|
      invariant document == map f | f in FIELDS[..i] :: Read(draft, f)
    {
      document := document[FIELDS[i] := Read(draft, FIELDS[i])];
    }
  }

  method MergeStatusPageDrafts(base: Document, local: Document, server: Document) returns (merged: Document)
    ensures merged == Merged(base, local, server)
  {
    hide FIELDS;
    merged := ToDocument(server);
    for i := 0 to |FIELDS|
      invariant merged.Keys == DocumentOf(server).Keys
      invariant forall f :: f in FIELDS ==>
        merged[f] == if f in FIELDS[..i] then Merged(base, local, server)[f] else Read(server, f)
    {
      var field := FIELDS[i];
      if !FieldEqual(Read(local, field), Read(base, field)) {
        merged := merged[field := Read(local, field)];
      }
    }
  }

  /** The fields a draft changed relative to its base. */
  function Edited(base: Document, draft: Document): set<string> {
    set f | f in FIELDS && !FieldEqual(Read(draft, f), Read(base, f))
  }

  /** Values are compared as JSON text, in which a missing value and null are the same. */
  lemma FieldEqualIff(left: Value, right: Value)
    ensures FieldEqual(left, right) <==> left == right || (left in {Undefined, Null} && right in {Undefined, Null})
  {
  }

  /** The keys of the document schema, which admits these keys and no others. */
  const SCHEMA_KEYS: set<string> := {
    "name", "layout", "theme", "logoLightImageId", "logoDarkImageId", "faviconImageId",
    "homepageUrl", "contactUrl", "navLinks", "googleTagId", "customCss", "customHead",
    "announcementEnabled", "announcementMarkdown", "historyDays", "uptimeDecimals",
    "unknownAsOperational", "minIncidentSeconds", "timezone"}

  /** Whatever the draft holds, the payload has exactly the keys of the schema, with the draft's values. */
  lemma PayloadFitsSchema(draft: Document)
    ensures DocumentOf(draft).Keys == SCHEMA_KEYS
    ensures forall f :: f in SCHEMA_KEYS ==> DocumentOf(draft)[f] == Read(draft, f)
  {
    FieldsAreKeys();
    hide FIELDS, SCHEMA_KEYS;
  }

  lemma FieldsAreKeys()
    ensures forall f :: f in FIELDS <==> f in SCHEMA_KEYS
  {
  }

  /** Merging without local edits, without a newer server, and twice. */
  lemma MergeLaws(base: Document, local: Document, server: Document)
    ensures Merged(base, base, server) == DocumentOf(server)
    ensures DocumentsEqual(Merged(base, local, base), local)
    ensures var m := Merged(base, local, server); DocumentsEqual(Merged(server, m, server), m)
  {
  }

  /** What is still edited after a recovery: the edits the server does not already carry. */
  lemma EditedAfterMerge(base: Document, local: Document, server: Document)
    ensures Edited(server, Merged(base, local, server))
         == set f | f in Edited(base, local) && !FieldEqual(Read(local, f), Read(server, f))
  {
  }

  // ---- Conflict after conflict ----

  /** The draft after recovering from the documents fetched one after the other. */
  function Recovered(base: Document, draft: Document, servers: seq<Document>): Document
    decreases |servers|
  {
    if servers == [] then draft
    else Recovered(servers[0], Merged(base, draft, servers[0]), servers[1..])
  }

  ghost predicate Carried(servers: seq<Document>, f: string, value: Value) {
    exists i :: 0 <= i < |servers| && FieldEqual(Read(servers[i], f), value)
  }

  lemma CarriedByRest(servers: seq<Document>, f: string, value: Value)
    requires servers != []
    ensures Carried(servers, f, value) <==> FieldEqual(Read(servers[0], f), value) || Carried(servers[1..], f, value)
  {
    if Carried(servers[1..], f, value) {
      var i :| 0 <= i < |servers[1..]| && FieldEqual(Read(servers[1..][i], f), value);
      assert servers[i + 1] == servers[1..][i];
    }
    if Carried(servers, f, value) {
      var i :| 0 <= i < |servers| && FieldEqual(Read(servers[i], f), value);
      assert i > 0 ==> servers[1..][i - 1] == servers[i];
    }
  }

  /** An edited field keeps its value in the merge, and stays edited unless the server has it too. */
  lemma EditedFieldMerged(base: Document, draft: Document, server: Document, f: string)
    requires f in Edited(base, draft)
    ensures f in FIELDS && Read(Merged(base, draft, server), f) == Read(draft, f)
    ensures f in Edited(server, Merged(base, draft, server)) <==> !FieldEqual(Read(draft, f), Read(server, f))
  {
    hide FIELDS;
  }

  /**
   A locally edited value survives any number of recoveries; only once a fetched document
   carries that value itself does the field follow the server from then on.
   */
  lemma {:induction false} EditSurvivesRecoveries(base: Document, draft: Document, servers: seq<Document>, f: string)
    requires f in Edited(base, draft)
    ensures var value := Read(draft, f);
      FieldEqual(Read(Recovered(base, draft, servers), f),
                 if Carried(servers, f, value) then Read(servers[|servers| - 1], f) else value)
    decreases |servers|
  {
    hide FIELDS, Edited, Merged, Carried;
    if servers == [] {
      NothingCarried(f, Read(draft, f));
    } else {
      var value, first, rest := Read(draft, f), servers[0], servers[1..];
      var merged := Merged(base, draft, first);
      EditedFieldMerged(base, draft, first, f);
      CarriedByRest(servers, f, value);
      assert rest != [] ==> rest[|rest| - 1] == servers[|servers| - 1];
      if FieldEqual(Read(first, f), value) {
        UneditedFollowsServer(first, merged, rest, f);
      } else {
        EditSurvivesRecoveries(first, merged, rest, f);
        if rest == [] {
          NothingCarried(f, value);
        }
      }
    }
  }

  lemma NothingCarried(f: string, value: Value)
    ensures !Carried([], f, value)
  {
  }

  /** A field that is not edited takes the latest fetched value. */
  lemma {:induction false} UneditedFollowsServer(base: Document, draft: Document, servers: seq<Document>, f: string)
    requires f in FIELDS && f !in Edited(base, draft)
    ensures FieldEqual(Read(Recovered(base, draft, servers), f),
                       if servers == [] then Read(draft, f) else Read(servers[|servers| - 1], f))
    decreases |servers|
  {
    if servers != [] {
      UneditedFollowsServer(servers[0], Merged(base, draft, servers[0]), servers[1..], f);
    }
  }

  // ---- What a save sends, and what the server makes of it ----

  predicate BlankRow(row: Link) {
    Blank(row.caption) && Blank(row.url)
  }

  /** Fully empty link rows are dropped before a save. */
  function WithoutBlankRows(rows: seq<Link>): seq<Link> {
    if rows == [] then []
    else if BlankRow(rows[0]) then WithoutBlankRows(rows[1..])
    else [rows[0]] + WithoutBlankRows(rows[1..])
  }

  /** A row is dropped when caption and address are white space only. */
  lemma OneRow(row: Link)
    ensures WithoutBlankRows([row]) == if AllSpace(row.caption) && AllSpace(row.url) then [] else [row]
  {
    BlankIsAllSpace(row.caption);
    BlankIsAllSpace(row.url);
    hide Blank;
    assert [row][1..] == [];
  }

  /** Row by row: the kept rows stand in the draft's order, as often as there. */
  lemma {:induction false} RowsKeptInOrder(a: seq<Link>, b: seq<Link>)
    ensures WithoutBlankRows(a + b) == WithoutBlankRows(a) + WithoutBlankRows(b)
  {
    hide BlankRow;
    if a == [] {
      assert a + b == b;
    } else {
      assert (a + b)[1..] == a[1..] + b;
      RowsKeptInOrder(a[1..], b);
    }
  }

  /** Every row has both a caption and an address. */
  predicate Filled(rows: seq<Link>) {
    forall i :: 0 <= i < |rows| ==> !Blank(rows[i].caption) && !Blank(rows[i].url)
  }

  lemma {:induction false} FilledHasNoBlankRows(rows: seq<Link>)
    requires Filled(rows)
    ensures WithoutBlankRows(rows) == rows
  {
    hide Blank;
    if rows != [] {
      assert forall i :: 0 <= i < |rows[1..]| ==> rows[1..][i] == rows[i + 1];
      FilledHasNoBlankRows(rows[1..]);
    }
  }

  predicate HasLinks(d: Document) {
    Read(d, "navLinks").Links?
  }

  /** The payload of a save. */
  function Outgoing(draft: Document): Document
    requires HasLinks(draft)
  {
    DocumentOf(draft["navLinks" := Links(WithoutBlankRows(Read(draft, "navLinks").rows))])
  }

  /** Every field present, and every link row filled in. */
  predicate Complete(d: Document) {
    && d.Keys == (set f | f in FIELDS)
    && (forall f :: f in FIELDS ==> d[f] != Undefined)
    && HasLinks(d) && Filled(d["navLinks"].rows)
  }

  function TrimCaptions(rows: seq<Link>): seq<Link> {
    seq(|rows|, i requires 0 <= i < |rows| => Link(Trim(rows[i].caption), rows[i].url))
  }

  function NormalizeValue(f: string, v: Value): Value {
    if f == "name" && v.Str? then Str(Trim(v.text))
    else if f == "navLinks" && v.Links? then Links(TrimCaptions(v.rows))
    else v
  }

  /** The server's parse trims the page name and the link captions and keeps the rest. */
  function Normalize(d: Document): Document {
    map f | f in d :: NormalizeValue(f, d[f])
  }

  /** What the server stores: the name and the captions trimmed, and every other value as it was sent. */
  lemma StoredValues(d: Document, f: string)
    requires f in d
    ensures Normalize(d).Keys == d.Keys
    ensures f == "name" && d[f].Str? ==> Normalize(d)[f] == Str(Trim(d[f].text))
    ensures f == "navLinks" && d[f].Links? ==>
      && Normalize(d)[f].Links? && |Normalize(d)[f].rows| == |d[f].rows|
      && forall i :: 0 <= i < |d[f].rows| ==> Normalize(d)[f].rows[i] == Link(Trim(d[f].rows[i].caption), d[f].rows[i].url)
    ensures f != "name" && f != "navLinks" ==> Normalize(d)[f] == d[f]
  {
    hide Trim;
  }

  lemma NormalizeIdempotent(d: Document)
    requires Complete(d)
    ensures Complete(Normalize(d)) && Normalize(Normalize(d)) == Normalize(d)
  {
    hide FIELDS, Trim, Blank;
    forall f | f in d ensures NormalizeValue(f, NormalizeValue(f, d[f])) == NormalizeValue(f, d[f]) {
      NormalizeValueIdempotent(f, d[f]);
    }
    NormalizeValueIdempotent("navLinks", d["navLinks"]);
  }

  lemma NormalizeValueIdempotent(f: string, v: Value)
    ensures NormalizeValue(f, NormalizeValue(f, v)) == NormalizeValue(f, v)
    ensures v.Links? && Filled(v.rows) && f == "navLinks" ==> Filled(NormalizeValue(f, v).rows)
  {
    hide Trim, Blank;
    if v.Str? {
      TrimIdempotent(v.text);
    } else if v.Links? {
      forall i | 0 <= i < |v.rows|
        ensures Trim(Trim(v.rows[i].caption)) == Trim(v.rows[i].caption)
        ensures Blank(Trim(v.rows[i].caption)) <==> Blank(v.rows[i].caption)
      {
        TrimIdempotent(v.rows[i].caption);
      }
      assert TrimCaptions(TrimCaptions(v.rows)) == TrimCaptions(v.rows);
    }
  }

  /** The page name and the captions of the rows that are sent have no white space at their ends. */
  predicate TrimFree(draft: Document)
    requires HasLinks(draft)
  {
    && (Read(draft, "name").Str? ==> Tight(Read(draft, "name").text))
    && forall row :: row in Read(draft, "navLinks").rows && !BlankRow(row) ==> Tight(row.caption)
  }

  lemma {:induction false} WithoutBlankRowsMembers(rows: seq<Link>)
    ensures forall row :: row in WithoutBlankRows(rows) <==> row in rows && !BlankRow(row)
  {
    hide Blank;
    if rows != [] {
      WithoutBlankRowsMembers(rows[1..]);
      assert rows == [rows[0]] + rows[1..];
    }
  }

  lemma TrimCaptionsFixedPoints(rows: seq<Link>)
    ensures TrimCaptions(rows) == rows <==> forall row :: row in rows ==> Tight(row.caption)
  {
    hide Trim, Tight;
    forall i | 0 <= i < |rows| ensures TrimCaptions(rows)[i] == rows[i] <==> Tight(rows[i].caption) {
      TrimFixedPoints(rows[i].caption);
    }
    if TrimCaptions(rows) == rows {
      forall row | row in rows ensures Tight(row.caption) {
        var i :| 0 <= i < |rows| && rows[i] == row;
      }
    }
  }

  /** Parsing keeps a document exactly when it keeps the two fields it may trim. */
  lemma NormalizedByTwoFields(d: Document)
    requires "name" in d && "navLinks" in d
    ensures Normalize(d) == d <==>
      NormalizeValue("name", d["name"]) == d["name"] && NormalizeValue("navLinks", d["navLinks"]) == d["navLinks"]
  {
    hide Trim, TrimCaptions;
    var n := Normalize(d);
    assert n.Keys == d.Keys;
    assert forall f :: f in d ==> n[f] == NormalizeValue(f, d[f]);
  }

  /** The rows that are sent are kept exactly when their captions have nothing to trim. */
  lemma SentRowsKept(rows: seq<Link>)
    ensures NormalizeValue("navLinks", Links(WithoutBlankRows(rows))) == Links(WithoutBlankRows(rows)) <==>
            forall row :: row in rows && !BlankRow(row) ==> Tight(row.caption)
  {
    hide Tight, BlankRow, TrimCaptions, WithoutBlankRows;
    TrimCaptionsFixedPoints(WithoutBlankRows(rows));
    WithoutBlankRowsMembers(rows);
  }

  /** The server stores a save as it was sent exactly when its draft leaves nothing to trim. */
  lemma StoredAsSentIff(draft: Document)
    requires HasLinks(draft)
    ensures Normalize(Outgoing(draft)) == Outgoing(draft) <==> TrimFree(draft)
  {
    FieldNames(draft);
    hide FIELDS, Trim, Tight, BlankRow, TrimCaptions, WithoutBlankRows, Outgoing, Normalize;
    if Read(draft, "name").Str? {
      TrimFixedPoints(Read(draft, "name").text);
    }
    SentRowsKept(Read(draft, "navLinks").rows);
    NormalizedByTwoFields(Outgoing(draft));
  }

  lemma FieldNames(draft: Document)
    requires HasLinks(draft)
    ensures "name" in FIELDS && "navLinks" in FIELDS
    ensures "name" in Outgoing(draft) && "navLinks" in Outgoing(draft)
    ensures Outgoing(draft)["name"] == Read(draft, "name")
    ensures Outgoing(draft)["navLinks"] == Links(WithoutBlankRows(Read(draft, "navLinks").rows))
  {
  }

  /** Of a field the draft left alone, a save sends the base's value. */
  lemma OutgoingKeepsUnedited(base: Document, draft: Document, f: string)
    requires Complete(base) && HasLinks(draft) && Complete(Outgoing(draft))
    requires f in FIELDS && f !in Edited(base, draft)
    ensures Outgoing(draft)[f] == base[f]
  {
    if f == "navLinks" {
      FilledHasNoBlankRows(base["navLinks"].rows);
    }
  }
}
