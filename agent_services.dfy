/** The deterministic part of app/services/agent_services.py: the rule-based
    discrepancy comparator that runs when the agent's reply does not decode,
    the assembly of one discrepancy table per supporting document, the
    compliance projection of the LC, the discrepancy summary, the UCP context
    lookup and the decode-or-keep-raw step after every agent call.
    The agents themselves are not modelled: every reply is a parameter. */
module AgentServices {
  import opened PyText
  import opened PyJson

  // ---------------------------------------------------------------------------
  // Agent replies

  /** The `{"raw_output": text}` object an extractor returns when its reply does not decode. */
  function RawOutput(reply: string): Json {
    JObj([("raw_output", JStr(reply))])
  }

  /** `json.loads(str(result).strip())`, or `{"raw_output": str(result)}` when that
      raises.  The fallback keeps the reply unstripped. */
  function DecodeOrRaw(reply: string, parse: Parser): (r: Json)
    ensures parse(Strip(reply)).Parsed? ==> r == parse(Strip(reply)).value
    ensures parse(Strip(reply)).Failed? ==> Get(r, "raw_output", JStr("")) == Ok(JStr(reply))
    ensures parse(Strip(reply)).Failed? ==> r.JObj? && |r.members| == 1
  {
    match parse(Strip(reply))
    case Parsed(v) => v
    case Failed(_) => RawOutput(reply)
  }

  // ---------------------------------------------------------------------------
  // Rule-based comparison

  /** The three verdicts of the rule-based comparator; `StatusText` gives the
      strings the service stores. */
  datatype Status = Match | Mismatch | Missing

  function StatusText(st: Status): string {
    match st
    case Match => "\U{2705} Match"
    case Mismatch => "\U{274c} Mismatch"
    case Missing => "\U{26a0}\U{fe0f} Missing"
  }

  /** Classification of one LC value against one document value: missing when
      either side is falsy (tested first), otherwise a match exactly when the two
      values agree after `str`, `strip` and `lower`. */
  function Classify(lcValue: Json, docValue: Json): (st: Status)
    ensures st == Missing <==> !Truthy(lcValue) || !Truthy(docValue)
    ensures st == Match ==> Truthy(lcValue) && Truthy(docValue) && Normalize(Str(lcValue)) == Normalize(Str(docValue))
    ensures st == Mismatch ==> Normalize(Str(lcValue)) != Normalize(Str(docValue))
  {
    if !Truthy(lcValue) || !Truthy(docValue) then Missing
    else if Normalize(Str(lcValue)) == Normalize(Str(docValue)) then Match
    else Mismatch
  }

  lemma ClassifySymmetric(a: Json, b: Json)
    ensures Classify(a, b) == Classify(b, a)
  {
  }

  /** An LC text matches a document text that differs from it only in letter
      case and surrounding white space. */
  lemma MatchIgnoresCaseAndPadding(lc: string, doc: string, p: string, q: string)
    requires lc != ""
    requires AllSpace(p) && AllSpace(q)
    requires Lower(lc) == Lower(doc)
    ensures Classify(JStr(lc), JStr(p + doc + q)) == Match
  {
    var padded := p + doc + q;
    assert |doc| == |Lower(doc)| == |lc|;
    assert Truthy(JStr(lc)) && Truthy(JStr(padded));
    NormalizeIgnoresCaseAndPadding(lc, doc, p, q);
    assert Normalize(Str(JStr(lc))) == Normalize(Str(JStr(padded)));
  }

  /** One row of a discrepancy table. */
  datatype Row = Row(field: string, lcValue: Json, documentValue: Json, status: Status)

  /** `doc_data.get(field, "")` on a document's fields. */
  function DocValue(docData: Json, field: string): Json
    requires docData.JObj?
  {
    Lookup(docData.members, field).GetOr(JStr(""))
  }

  function FieldRow(field: string, lcValue: Json, docData: Json): Row
    requires docData.JObj?
  {
    var docValue := DocValue(docData, field);
    Row(field, lcValue, docValue, Classify(lcValue, docValue))
  }

  /** A field the document does not have is always reported missing. */
  lemma AbsentFieldIsMissing(field: string, lcValue: Json, docData: Json)
    requires docData.JObj? && !HasKey(docData, field)
    ensures FieldRow(field, lcValue, docData).documentValue == JStr("")
    ensures FieldRow(field, lcValue, docData).status == Missing
  {
  }

  /** The rule-based rows for one document: one per LC field, in the LC's key
      order.  Looking a field up in document data that is not a dict raises
      `AttributeError`; with no LC field there is no lookup. */
  function RuleBasedRows(lcFields: seq<(string, Json)>, docData: Json): (r: Result<seq<Row>>)
    ensures r.Err? <==> lcFields != [] && !docData.JObj?
    ensures r.Err? ==> r.fault == AttributeError
    ensures r.Ok? ==> |r.value| == |lcFields|
    ensures r.Ok? ==> forall i :: 0 <= i < |lcFields| ==>
      docData.JObj? && r.value[i] == FieldRow(lcFields[i].0, lcFields[i].1, docData)
  {
    if lcFields == [] then Ok([])
    else if !docData.JObj? then Err(AttributeError)
    else
      var rest := RuleBasedRows(lcFields[1..], docData).value;
      Ok([FieldRow(lcFields[0].0, lcFields[0].1, docData)] + rest)
  }

  /** The fallback loop of `run_discrepancy_check`. */
  method CompareFields(lcFields: seq<(string, Json)>, docData: Json) returns (r: Result<seq<Row>>)
    ensures r == RuleBasedRows(lcFields, docData)
  {
    var rows: seq<Row> := [];
    var i := 0;
    while i < |lcFields|
      invariant 0 <= i <= |lcFields|
      invariant i > 0 ==> docData.JObj?
      invariant |rows| == i
      invariant forall k :: 0 <= k < i ==> rows[k] == FieldRow(lcFields[k].0, lcFields[k].1, docData)
    {
      var (field, lcValue) := lcFields[i];
      var got := Get(docData, field, JStr(""));
      if got.Err? {
        return Err(got.fault);
      }
      var docValue := got.value;
      var status := Mismatch;
      if !Truthy(lcValue) || !Truthy(docValue) {
        status := Missing;
      } else if Normalize(Str(lcValue)) == Normalize(Str(docValue)) {
        status := Match;
      }
      assert docValue == DocValue(docData, field) && status == Classify(lcValue, docValue);
      rows := rows + [FieldRow(field, lcValue, docData)];
      i := i + 1;
    }
    assert lcFields != [] ==> docData.JObj?;
    var expected := RuleBasedRows(lcFields, docData);
    assert expected.Ok? && rows == expected.value;
    return Ok(rows);
  }

  // ---------------------------------------------------------------------------
  // Discrepancy tables

  /** A table holds either whatever the agent's reply decoded to, or the rule-based rows. */
  datatype TableBody = AgentRows(reply: Json) | RuleRows(rows: seq<Row>)

  datatype Table = Table(file: Json, body: TableBody)

  function RowJson(row: Row): Json {
    JObj([("Field", JStr(row.field)), ("LC Value", row.lcValue),
          ("Document Value", row.documentValue), ("Status", JStr(StatusText(row.status)))])
  }

  function BodyJson(body: TableBody): Json {
    match body
    case AgentRows(reply) => reply
    case RuleRows(rows) => JArr(seq(|rows|, i requires 0 <= i < |rows| => RowJson(rows[i])))
  }

  /** `{"file": ..., "table": rows}` as the service returns it. */
  function TableJson(t: Table): Json {
    JObj([("file", t.file), ("table", BodyJson(t.body))])
  }

  function TablesJson(tables: seq<Table>): (r: seq<Json>)
    ensures |r| == |tables|
    ensures forall i :: 0 <= i < |tables| ==> r[i] == TableJson(tables[i])
  {
    seq(|tables|, i requires 0 <= i < |tables| => TableJson(tables[i]))
  }

  /** `doc.get("file_name", "Document")` */
  function FileName(doc: Json): Json
    requires doc.JObj?
  {
    Lookup(doc.members, "file_name").GetOr(JStr("Document"))
  }

  /** `doc.get("data", {})` */
  function DocData(doc: Json): Json
    requires doc.JObj?
  {
    Lookup(doc.members, "data").GetOr(JObj([]))
  }

  /** The table for one supporting document, given the agent's reply for it.
      A document that is not a dict raises when the prompt reads its name; the
      fallback raises when the LC data is not a dict. */
  function TableFor(lcData: Json, doc: Json, reply: string, parse: Parser): (r: Result<Table>)
    ensures r.Err? ==> r.fault == AttributeError
    ensures r.Ok? ==> doc.JObj? && r.value.file == FileName(doc)
    ensures doc.JObj? && parse(Strip(reply)).Parsed? ==> r == Ok(Table(FileName(doc), AgentRows(parse(Strip(reply)).value)))
    ensures doc.JObj? && parse(Strip(reply)).Failed? ==>
      (r.Ok? <==> lcData.JObj? && (lcData.members == [] || DocData(doc).JObj?))
    ensures r.Ok? && parse(Strip(reply)).Failed? ==>
      r.value.body.RuleRows? && |r.value.body.rows| == |lcData.members|
      && forall i :: 0 <= i < |lcData.members| ==>
           r.value.body.rows[i] == FieldRow(lcData.members[i].0, lcData.members[i].1, DocData(doc))
  {
    if !doc.JObj? then Err(AttributeError)
    else
      match parse(Strip(reply))
      case Parsed(rows) => Ok(Table(FileName(doc), AgentRows(rows)))
      case Failed(_) =>
        if !lcData.JObj? then Err(AttributeError)
        else
          var rows :- RuleBasedRows(lcData.members, DocData(doc));
          Ok(Table(FileName(doc), RuleRows(rows)))
  }

  /** When the reply does not decode, the table is named after the document
      (or "Document") and has one row per LC field, in the LC's key order,
      each carrying the field name, the LC value and the classification. */
  lemma FallbackTable(lcData: Json, doc: Json, reply: string, parse: Parser)
    requires parse(Strip(reply)).Failed?
    requires lcData.JObj? && doc.JObj? && DocData(doc).JObj?
    ensures var t := TableFor(lcData, doc, reply, parse);
      && t.Ok? && t.value.body.RuleRows?
      && t.value.file == (if HasKey(doc, "file_name") then Lookup(doc.members, "file_name").value else JStr("Document"))
      && |t.value.body.rows| == |lcData.members|
      && forall i :: 0 <= i < |lcData.members| ==>
           var row := t.value.body.rows[i];
           && row.field == lcData.members[i].0
           && row.lcValue == lcData.members[i].1
           && row.status == Classify(row.lcValue, row.documentValue)
  {
  }

  /** `run_discrepancy_check`: one table per supporting document, in input order;
      `replies(i)` is the agent's reply for the i-th document. */
  method RunDiscrepancyCheck(lcData: Json, docs: seq<Json>, replies: nat -> string, parse: Parser)
    returns (r: Result<seq<Table>>)
    ensures r.Ok? <==> forall i :: 0 <= i < |docs| ==> TableFor(lcData, docs[i], replies(i), parse).Ok?
    ensures r.Ok? ==> |r.value| == |docs|
    ensures r.Ok? ==> forall i :: 0 <= i < |docs| ==> r.value[i] == TableFor(lcData, docs[i], replies(i), parse).value
    ensures r.Err? ==> r.fault == AttributeError
  {
    var tables: seq<Table> := [];
    var i := 0;
    while i < |docs|
      invariant 0 <= i <= |docs|
      invariant |tables| == i
      invariant forall k :: 0 <= k < i ==>
        TableFor(lcData, docs[k], replies(k), parse).Ok? && tables[k] == TableFor(lcData, docs[k], replies(k), parse).value
    {
      var doc := docs[i];
      if !doc.JObj? {
        assert TableFor(lcData, docs[i], replies(i), parse).Err?;
        return Err(AttributeError);
      }
      var body: TableBody;
      match parse(Strip(replies(i))) {
        case Parsed(rows) =>
          body := AgentRows(rows);
        case Failed(_) =>
          if !lcData.JObj? {
            assert TableFor(lcData, docs[i], replies(i), parse).Err?;
            return Err(AttributeError);
          }
          var compared := CompareFields(lcData.members, DocData(doc));
          if compared.Err? {
            assert TableFor(lcData, docs[i], replies(i), parse).Err?;
            return Err(compared.fault);
          }
          body := RuleRows(compared.value);
      }
      tables := tables + [Table(FileName(doc), body)];
      i := i + 1;
    }
    return Ok(tables);
  }

  // ---------------------------------------------------------------------------
  // Discrepancy summary

  /** At most this many discrepancies go into the compliance prompt. */
  const SummaryCap := 10

  /** `entries[:10]` */
  function Capped(entries: seq<string>): (r: seq<string>)
    ensures |r| <= SummaryCap && |r| <= |entries| && r == entries[..|r|]
    ensures |entries| >= SummaryCap ==> |r| == SummaryCap
    ensures |entries| <= SummaryCap ==> r == entries
  {
    if |entries| <= SummaryCap then entries else entries[..SummaryCap]
  }

  /** `d.get("issue") or d.get("discrepancy")` */
  function IssueOf(d: Json): Json
    requires d.JObj?
  {
    var issue := Lookup(d.members, "issue").GetOr(JNull);
    if Truthy(issue) then issue else Lookup(d.members, "discrepancy").GetOr(JNull)
  }

  /** Every element is a dict, so that `d.get` does not raise. */
  predicate AllObjects(ds: seq<Json>) {
    forall i :: 0 <= i < |ds| ==> ds[i].JObj?
  }

  /** What one element contributes: `"<document>: <issue>"` when it has a truthy
      issue, nothing otherwise. */
  function Entry(d: Json): (r: seq<string>)
    requires d.JObj?
    ensures |r| <= 1
    ensures r != [] <==> Truthy(IssueOf(d))
    ensures r != [] ==>
      r[0] == Str(Lookup(d.members, "document").GetOr(JStr("Unknown document"))) + ": " + Str(IssueOf(d))
  {
    var doc := Lookup(d.members, "document").GetOr(JStr("Unknown document"));
    var issue := IssueOf(d);
    if Truthy(issue) then [Str(doc) + ": " + Str(issue)] else []
  }

  /** All entries, before the cap, in input order. */
  function Entries(ds: seq<Json>): (r: seq<string>)
    requires AllObjects(ds)
    ensures |r| <= |ds|
  {
    if ds == [] then [] else Entry(ds[0]) + Entries(ds[1..])
  }

  /** The entries of a concatenation are the concatenated entries. */
  lemma {:induction false} EntriesAppend(a: seq<Json>, b: seq<Json>)
    requires AllObjects(a) && AllObjects(b)
    ensures AllObjects(a + b)
    ensures Entries(a + b) == Entries(a) + Entries(b)
  {
    AllObjectsAppend(a, b);
    if a == [] {
      assert a + b == b;
    } else {
      var ab := a + b;
      assert ab[0] == a[0];
      assert ab[1..] == a[1..] + b;
      EntriesAppend(a[1..], b);
      assert Entries(ab) == Entry(a[0]) + Entries(a[1..] + b);
    }
  }

  lemma AllObjectsAppend(a: seq<Json>, b: seq<Json>)
    requires AllObjects(a) && AllObjects(b)
    ensures AllObjects(a + b)
  {
    forall i | 0 <= i < |a + b|
      ensures (a + b)[i].JObj?
    {
      if i < |a| {
        assert (a + b)[i] == a[i];
      } else {
        assert (a + b)[i] == b[i - |a|];
      }
    }
  }

  lemma EntriesStep(ds: seq<Json>, i: nat)
    requires i < |ds| && AllObjects(ds[..i]) && ds[i].JObj?
    ensures AllObjects(ds[..i + 1])
    ensures Entries(ds[..i + 1]) == Entries(ds[..i]) + Entry(ds[i])
  {
    assert [ds[i]][1..] == [];
    assert Entries([ds[i]]) == Entry(ds[i]);
    EntriesAppend(ds[..i], [ds[i]]);
    assert ds[..i + 1] == ds[..i] + [ds[i]];
  }

  /** `compress_discrepancies`: the append loop, then the cap.  It reads the
      keys `document`, `issue` and `discrepancy` of each list element itself;
      an element that is not a dict raises `AttributeError`. */
  method CompressDiscrepancies(ds: seq<Json>) returns (r: Result<seq<string>>)
    ensures r.Ok? <==> AllObjects(ds)
    ensures r.Err? ==> r.fault == AttributeError
    ensures r.Ok? ==> r.value == Capped(Entries(ds))
  {
    var compressed: seq<string> := [];
    var i := 0;
    while i < |ds|
      invariant 0 <= i <= |ds|
      invariant AllObjects(ds[..i])
      invariant Entries(ds[..i]) == compressed
    {
      var d := ds[i];
      if !d.JObj? {
        return Err(AttributeError);
      }
      var doc := Lookup(d.members, "document").GetOr(JStr("Unknown document"));
      var issue := Lookup(d.members, "issue").GetOr(JNull);
      if !Truthy(issue) {
        issue := Lookup(d.members, "discrepancy").GetOr(JNull);
      }
      assert issue == IssueOf(d);
      EntriesStep(ds, i);
      if Truthy(issue) {
        compressed := compressed + [Str(doc) + ": " + Str(issue)];
      } else {
        assert Entry(d) == [];
      }
      i := i + 1;
    }
    assert ds[..|ds|] == ds;
    return Ok(Capped(compressed));
  }

  /** The summary keeps the first ten entries of the whole list: what follows
      the tenth entry never displaces it. */
  lemma CompressKeepsLeadingEntries(a: seq<Json>, b: seq<Json>)
    requires AllObjects(a) && AllObjects(b) && |Entries(a)| >= SummaryCap
    ensures AllObjects(a + b)
    ensures Capped(Entries(a + b)) == Capped(Entries(a))
  {
    EntriesAppend(a, b);
  }

  /** The tables `run_discrepancy_check` returns have only the keys `file` and
      `table`, so none of them contributes an entry. */
  lemma {:induction false} NoEntriesFromTables(tables: seq<Table>)
    ensures AllObjects(TablesJson(tables))
    ensures Entries(TablesJson(tables)) == []
    decreases |tables|
  {
    if tables != [] {
      assert TablesJson(tables)[1..] == TablesJson(tables[1..]);
      TableHasNoEntry(tables[0]);
      NoEntriesFromTables(tables[1..]);
    }
  }

  lemma TableHasNoEntry(t: Table)
    ensures Entry(TableJson(t)) == []
  {
    var m := TableJson(t).members;
    assert Lookup(m[1..], "issue") == None && Lookup(m[1..], "discrepancy") == None;
    assert Lookup(m, "issue") == None && Lookup(m, "discrepancy") == None;
  }

  /** The summary the compliance prompt is meant to carry: one entry
      `"<file>: <issue>"` for every row that is not a match, table by table and
      row by row, at most ten.  A row's issue is its own `issue` or
      `discrepancy`, or else its field and status.  A row reads as a match when
      its status, stripped and lower-cased, is "match" or the comparator's
      match text. */
  predicate IsMatchText(status: string) {
    var n := Normalize(status);
    n == "match" || n == Normalize(StatusText(Match))
  }

  /** `str(row.get("Status"))` */
  function StatusOf(row: Json): string
    requires row.JObj?
  {
    Str(Lookup(row.members, "Status").GetOr(JNull))
  }

  function RowIssue(file: Json, row: Json): (r: Option<string>)
    ensures r.Some? <==> row.JObj? && !IsMatchText(StatusOf(row))
  {
    if !row.JObj? then None
    else
      var status := StatusOf(row);
      if IsMatchText(status) then None
      else
        var explicit := IssueOf(row);
        var issue := if Truthy(explicit) then Str(explicit)
                     else Str(Lookup(row.members, "Field").GetOr(JNull)) + " " + status;
        Some(Str(file) + ": " + issue)
  }

  /** The present values, in order. */
  function Present(xs: seq<Option<string>>): seq<string> {
    if xs == [] then [] else (if xs[0].Some? then [xs[0].value] else []) + Present(xs[1..])
  }

  lemma {:induction false} PresentReportsSome(xs: seq<Option<string>>, k: nat)
    requires k < |xs| && xs[k].Some?
    ensures Present(xs) != []
    decreases k
  {
    if k > 0 {
      PresentReportsSome(xs[1..], k - 1);
    }
  }

  function RowIssues(file: Json, rows: seq<Json>): seq<string> {
    Present(seq(|rows|, i requires 0 <= i < |rows| => RowIssue(file, rows[i])))
  }

  function TableIssues(table: Json): seq<string> {
    if !table.JObj? then []
    else
      var file := Lookup(table.members, "file").GetOr(JStr("Document"));
      match Lookup(table.members, "table").GetOr(JArr([]))
      case JArr(rows) => RowIssues(file, rows)
      case _ => []
  }

  function AllIssues(tables: seq<Json>): seq<string> {
    if tables == [] then [] else TableIssues(tables[0]) + AllIssues(tables[1..])
  }

  function SummarizeDiscrepancies(tables: seq<Json>): (r: seq<string>)
    ensures |r| <= SummaryCap && |r| <= |AllIssues(tables)|
    ensures r == AllIssues(tables)[..|r|]
    ensures |AllIssues(tables)| <= SummaryCap ==> r == AllIssues(tables)
    ensures |AllIssues(tables)| >= SummaryCap ==> |r| == SummaryCap
  {
    Capped(AllIssues(tables))
  }

  /** A status text with no white space at either end only needs lowering. */
  lemma NormalizeTrimmed(t: string)
    requires Trimmed(t)
    ensures Normalize(t) == Lower(t)
  {
    assert "" + t + "" == t;
    StripUnique("", t, "");
  }

  /** Of the comparator's three texts only the match text reads as a match. */
  lemma StatusTextReadsAsMatch(st: Status)
    ensures IsMatchText(StatusText(st)) <==> st == Match
  {
    if st != Match {
      OtherTextNotMatch(st);
    }
  }

  /** The mismatch and missing texts are ten characters long and do not start
      with the check mark, so neither normalises to "match" or to the match
      text. */
  lemma OtherTextNotMatch(st: Status)
    requires st != Match
    ensures !IsMatchText(StatusText(st))
  {
    var t, m := StatusText(st), StatusText(Match);
    StatusTextShape(st);
    StatusTextShape(Match);
    NormalizeFirst(t);
    NormalizeFirst(m);
    assert Normalize(t) != "match" by {
      assert |"match"| == 5;
    }
    assert Normalize(t)[0] != Normalize(m)[0];
  }

  lemma StatusTextShape(st: Status)
    ensures Trimmed(StatusText(st))
    ensures |StatusText(st)| == (if st == Match then 7 else 10)
    ensures StatusText(st)[0] == (match st case Match => '\U{2705}' case Mismatch => '\U{274c}' case Missing => '\U{26a0}')
  {
  }

  /** The first character of a trimmed text only needs lowering. */
  lemma NormalizeFirst(t: string)
    requires Trimmed(t) && t != []
    ensures |Normalize(t)| == |t| && Normalize(t)[0] == LowerChar(t[0])
  {
    NormalizeTrimmed(t);
  }

  /** A comparator row that is not a match yields an issue. */
  lemma RuleRowIssue(file: Json, row: Row)
    requires row.status != Match
    ensures RowIssue(file, RowJson(row)).Some?
  {
    RowJsonStatus(row);
    StatusTextReadsAsMatch(row.status);
  }

  lemma RowJsonStatus(row: Row)
    ensures RowJson(row).JObj? && StatusOf(RowJson(row)) == StatusText(row.status)
  {
    var m := RowJson(row).members;
    assert m[3..] == [("Status", JStr(StatusText(row.status)))];
    assert Lookup(m[3..], "Status") == Some(JStr(StatusText(row.status)));
    assert Lookup(m, "Status") == Lookup(m[1..], "Status") == Lookup(m[2..], "Status");
    assert m[2..][1..] == m[3..];
  }

  lemma RowIssuesReportsRow(file: Json, rows: seq<Json>, k: nat)
    requires k < |rows| && RowIssue(file, rows[k]).Some?
    ensures RowIssues(file, rows) != []
  {
    PresentReportsSome(seq(|rows|, i requires 0 <= i < |rows| => RowIssue(file, rows[i])), k);
  }

  lemma {:induction false} AllIssuesReportsTable(tables: seq<Json>, i: nat)
    requires i < |tables| && TableIssues(tables[i]) != []
    ensures AllIssues(tables) != []
    decreases i
  {
    if i > 0 {
      AllIssuesReportsTable(tables[1..], i - 1);
    }
  }

  /** Unlike `compress_discrepancies`, the intended summary reports a rule-based
      row that is not a match. */
  lemma SummaryReportsRuleMismatch(tables: seq<Table>, i: nat, k: nat)
    requires i < |tables| && tables[i].body.RuleRows?
    requires k < |tables[i].body.rows| && tables[i].body.rows[k].status != Match
    ensures SummarizeDiscrepancies(TablesJson(tables)) != []
  {
    var t := tables[i];
    var js := BodyJson(t.body).items;
    assert js[k] == RowJson(t.body.rows[k]);
    RuleRowIssue(t.file, t.body.rows[k]);
    RowIssuesReportsRow(t.file, js, k);
    RuleTableIssues(t);
    AllIssuesReportsTable(TablesJson(tables), i);
  }

  lemma RuleTableIssues(t: Table)
    requires t.body.RuleRows?
    ensures TableIssues(TableJson(t)) == RowIssues(t.file, BodyJson(t.body).items)
  {
    var m := TableJson(t).members;
    assert Lookup(m, "file") == Some(t.file);
    assert Lookup(m[1..], "table") == Some(BodyJson(t.body));
  }

  // ---------------------------------------------------------------------------
  // Compliance view

  /** The fixed projection of the LC data handed to the compliance agent. */
  datatype ComplianceView = ComplianceView(
    lcNumber: Json,
    amount: string,
    expiryDate: Json,
    latestShipmentDate: Json,
    paymentTerms: Json,
    documentsRequired: seq<string>,
    partialShipments: Json,
    transshipments: Json,
    ucpApplicable: bool)

  /** The text whose presence marks the LC as subject to UCP 600. */
  const UcpMarker := "UCP 600"

  /** `f"{amount['currency']} {amount['in_figures']}"`: both keys are required. */
  function FormatAmount(amount: Json): (r: Result<string>)
    ensures r.Ok? <==> HasKey(amount, "currency") && HasKey(amount, "in_figures")
    ensures !amount.JObj? ==> r == Err(TypeError)
    ensures amount.JObj? && !(HasKey(amount, "currency") && HasKey(amount, "in_figures")) ==> r == Err(KeyError)
    ensures r.Ok? ==>
      r.value == Str(Lookup(amount.members, "currency").value) + " " + Str(Lookup(amount.members, "in_figures").value)
  {
    var currency :- Index(amount, "currency");
    var figures :- Index(amount, "in_figures");
    Ok(Str(currency) + " " + Str(figures))
  }

  /** `[doc.split(",")[0] for doc in docs]`: each entry must be a string. */
  function ShortNames(docs: seq<Json>): (r: Result<seq<string>>)
    ensures r.Ok? <==> forall i :: 0 <= i < |docs| ==> docs[i].JStr?
    ensures r.Err? ==> r.fault == AttributeError
    ensures r.Ok? ==> |r.value| == |docs|
    ensures r.Ok? ==> forall i :: 0 <= i < |docs| ==> r.value[i] == BeforeComma(docs[i].s)
  {
    if docs == [] then Ok([])
    else if !docs[0].JStr? then Err(AttributeError)
    else
      var rest :- ShortNames(docs[1..]);
      Ok([BeforeComma(docs[0].s)] + rest)
  }

  /** The strings of a list that `str.join` accepts: anything else raises `TypeError`. */
  function Texts(items: seq<Json>): (r: Result<seq<string>>)
    ensures r.Ok? <==> forall i :: 0 <= i < |items| ==> items[i].JStr?
    ensures r.Err? ==> r.fault == TypeError
    ensures r.Ok? ==> |r.value| == |items|
    ensures r.Ok? ==> forall i :: 0 <= i < |items| ==> r.value[i] == items[i].s
  {
    if items == [] then Ok([])
    else if !items[0].JStr? then Err(TypeError)
    else
      var rest :- Texts(items[1..]);
      Ok([items[0].s] + rest)
  }

  /** The `documents_required` entry: each listed document up to its first comma. */
  function RequiredDocuments(lcData: Json): (r: Result<seq<string>>)
    requires lcData.JObj?
  {
    var listed := Lookup(lcData.members, "documents_required").GetOr(JArr([]));
    var docs :- Iterate(listed);
    ShortNames(docs)
  }

  /** `lc_data.get("shipment_details", {}).get(key)` */
  function ShipmentDetail(lcData: Json, key: string): Result<Json>
    requires lcData.JObj?
  {
    Get(Lookup(lcData.members, "shipment_details").GetOr(JObj([])), key, JNull)
  }

  /** The `ucp_applicable` entry: whether "UCP 600" occurs in the additional
      conditions joined by single spaces. */
  function UcpApplicable(lcData: Json): (r: Result<bool>)
    requires lcData.JObj?
  {
    var listed := Lookup(lcData.members, "additional_conditions").GetOr(JArr([]));
    var conds :- Iterate(listed);
    var texts :- Texts(conds);
    Ok(Contains(Join(" ", texts), UcpMarker))
  }

  /** `lc_compliance_view`, evaluated key by key in the order of the dict
      display, so the first entry that raises decides the exception. */
  function LcComplianceView(lcData: Json): (r: Result<ComplianceView>)
    ensures !lcData.JObj? ==> r == Err(AttributeError)
    ensures lcData.JObj? && !HasKey(lcData, "amount") ==> r == Err(KeyError)
    ensures r.Ok? ==> HasKey(lcData, "amount")
    ensures r.Ok? ==> FormatAmount(Lookup(lcData.members, "amount").value) == Ok(r.value.amount)
    ensures r.Ok? ==> RequiredDocuments(lcData) == Ok(r.value.documentsRequired)
    ensures r.Ok? ==> UcpApplicable(lcData) == Ok(r.value.ucpApplicable)
    ensures r.Ok? ==> r.value.lcNumber == Lookup(lcData.members, "letter_of_credit_number").GetOr(JNull)
    ensures r.Ok? ==> r.value.expiryDate == Lookup(lcData.members, "expiry_date").GetOr(JNull)
    ensures r.Ok? ==> r.value.latestShipmentDate == Lookup(lcData.members, "latest_date_of_shipment").GetOr(JNull)
    ensures r.Ok? ==> r.value.paymentTerms == Lookup(lcData.members, "availability").GetOr(JNull)
    ensures r.Ok? ==> ShipmentDetail(lcData, "partial_shipments") == Ok(r.value.partialShipments)
    ensures r.Ok? ==> ShipmentDetail(lcData, "transshipments") == Ok(r.value.transshipments)
    ensures lcData.JObj? ==>
      (r.Ok? <==>
        && HasKey(lcData, "amount") && FormatAmount(Lookup(lcData.members, "amount").value).Ok?
        && RequiredDocuments(lcData).Ok? && ShipmentDetail(lcData, "partial_shipments").Ok?
        && UcpApplicable(lcData).Ok?)
    ensures lcData.JObj? && HasKey(lcData, "amount") ==>
      var amount := FormatAmount(Lookup(lcData.members, "amount").value);
      && (amount.Err? ==> r == Err(amount.fault))
      && (amount.Ok? && RequiredDocuments(lcData).Err? ==> r == Err(RequiredDocuments(lcData).fault))
      && (amount.Ok? && RequiredDocuments(lcData).Ok? && ShipmentDetail(lcData, "partial_shipments").Err? ==>
            r == Err(AttributeError))
      && ((amount.Ok? && RequiredDocuments(lcData).Ok? && ShipmentDetail(lcData, "partial_shipments").Ok?
           && UcpApplicable(lcData).Err?) ==> r == Err(UcpApplicable(lcData).fault))
  {
    if !lcData.JObj? then Err(AttributeError)
    else
      var m := lcData.members;
      var amount :- Index(lcData, "amount");
      var amountText :- FormatAmount(amount);
      var shortNames :- RequiredDocuments(lcData);
      var partial :- ShipmentDetail(lcData, "partial_shipments");
      var trans := ShipmentDetail(lcData, "transshipments").value;
      var ucp :- UcpApplicable(lcData);
      Ok(ComplianceView(Lookup(m, "letter_of_credit_number").GetOr(JNull), amountText,
                        Lookup(m, "expiry_date").GetOr(JNull),
                        Lookup(m, "latest_date_of_shipment").GetOr(JNull),
                        Lookup(m, "availability").GetOr(JNull),
                        shortNames, partial, trans, ucp))
  }

  /** An LC with no data at all has no amount, so the projection raises `KeyError`. */
  lemma EmptyLcHasNoView()
    ensures LcComplianceView(JObj([])) == Err(KeyError)
  {
  }

  /** A listed required document is shortened to its text before the first
      comma, or kept whole when it has none. */
  lemma ViewShortensDocuments(lcData: Json, i: nat)
    requires LcComplianceView(lcData).Ok?
    requires HasKey(lcData, "documents_required")
    requires var d := Lookup(lcData.members, "documents_required").value; d.JArr? && i < |d.items|
    ensures var d := Lookup(lcData.members, "documents_required").value;
      && d.items[i].JStr?
      && |LcComplianceView(lcData).value.documentsRequired| == |d.items|
      && var name := LcComplianceView(lcData).value.documentsRequired[i];
         && StartsWith(d.items[i].s, name) && ',' !in name
         && (',' !in d.items[i].s ==> name == d.items[i].s)
  {
    var d := Lookup(lcData.members, "documents_required").value;
    assert Iterate(d) == Ok(d.items);
    var names := ShortNames(d.items);
    assert names.Ok?;
    var s := d.items[i].s;
    var name := BeforeComma(s);
    assert names.value[i] == name;
  }

  /** "UCP 600" in any single additional condition makes the LC subject to UCP 600. */
  lemma ViewDetectsUcpCondition(lcData: Json, i: nat)
    requires LcComplianceView(lcData).Ok?
    requires HasKey(lcData, "additional_conditions")
    requires var c := Lookup(lcData.members, "additional_conditions").value;
      c.JArr? && i < |c.items| && c.items[i].JStr? && Contains(c.items[i].s, UcpMarker)
    ensures LcComplianceView(lcData).value.ucpApplicable
  {
    var c := Lookup(lcData.members, "additional_conditions").value;
    assert Iterate(c) == Ok(c.items);
    var texts := Texts(c.items).value;
    JoinContainsItem(" ", texts, i, UcpMarker);
  }

  /** The search runs over the conditions joined by single spaces, so the marker
      can also be split across two neighbouring conditions. */
  lemma UcpMarkerAcrossConditions()
    ensures UcpApplicable(JObj([("additional_conditions", JArr([JStr("Subject to UCP"), JStr("600 rules")]))])) == Ok(true)
  {
    var conds := [JStr("Subject to UCP"), JStr("600 rules")];
    assert Iterate(JArr(conds)) == Ok(conds);
    var texts := Texts(conds).value;
    assert texts == ["Subject to UCP", "600 rules"];
    var joined := Join(" ", texts);
    assert Join(" ", texts[1..]) == "600 rules";
    assert joined == "Subject to UCP" + " " + "600 rules";
    assert joined[11..18] == UcpMarker;
    ContainsAt(joined, UcpMarker, 11);
  }

  // ---------------------------------------------------------------------------
  // UCP context

  /** At most this many characters of UCP text go into the compliance prompt. */
  const ContextLimit := 800

  /** The query sent to the UCP index. */
  const UcpQuery := "UCP 600 rules for expiry date, shipment date, bill of lading, and document compliance"

  /** Loading the index in a directory and querying it for one passage: the
      passages found, or an exception. */
  datatype Search = SearchRaised | Passages(texts: seq<string>)

  /** `get_ucp_context`: the first passage cut to 800 characters, or "" when the
      directory is not given or does not exist, when nothing is found, or when
      loading or searching raises.  `dirExists` stands for `os.path.exists`,
      `search` for loading the index and querying it with `UcpQuery`. */
  function UcpContext(persistDir: Option<string>, dirExists: string -> bool, search: string -> Search): (r: string)
    ensures |r| <= ContextLimit
    ensures persistDir.None? || persistDir.value == "" ==> r == ""
    ensures persistDir.Some? && persistDir.value != "" && !dirExists(persistDir.value) ==> r == ""
    ensures r != "" ==>
      && persistDir.Some? && dirExists(persistDir.value)
      && search(persistDir.value).Passages? && search(persistDir.value).texts != []
      && StartsWith(search(persistDir.value).texts[0], r)
    ensures persistDir.Some? && persistDir.value != "" && dirExists(persistDir.value)
            && search(persistDir.value).Passages? && search(persistDir.value).texts != [] ==>
      r == Take(search(persistDir.value).texts[0], ContextLimit)
  {
    if persistDir.Some? && persistDir.value != "" && dirExists(persistDir.value) then
      match search(persistDir.value)
      case SearchRaised => ""
      case Passages(texts) => if texts != [] then Take(texts[0], ContextLimit) else ""
    else ""
  }

  /** The best passage of an existing index is returned whole when it fits in
      the limit and cut to exactly the limit otherwise; a search that raises
      yields no context. */
  lemma ContextIsFoundPassage(dir: string, dirExists: string -> bool, search: string -> Search)
    requires dir != "" && dirExists(dir)
    ensures search(dir).SearchRaised? ==> UcpContext(Some(dir), dirExists, search) == ""
    ensures search(dir).Passages? && search(dir).texts != [] ==>
      var passage, r := search(dir).texts[0], UcpContext(Some(dir), dirExists, search);
      && (|passage| <= ContextLimit ==> r == passage)
      && (|passage| > ContextLimit ==> |r| == ContextLimit && r == passage[..ContextLimit])
  {
    if search(dir).Passages? && search(dir).texts != [] {
      var passage := search(dir).texts[0];
      var r := UcpContext(Some(dir), dirExists, search);
      if |passage| > ContextLimit {
        assert r == Take(passage, ContextLimit);
        assert StartsWith(passage, r);
      }
    }
  }

  // ---------------------------------------------------------------------------
  // Compliance check

  /** What the compliance prompt is built from. */
  datatype ComplianceRequest = ComplianceRequest(context: string, view: ComplianceView, discrepancies: seq<string>)

  /** `run_compliance_check`: the projection (which may raise), the summary
      (which may raise), the UCP context, then the agent's reply decoded or kept
      raw.  The LC file path and supporting paths it receives are unused. */
  method RunComplianceCheck(lcData: Json, tables: seq<Json>, persistDir: Option<string>,
                            dirExists: string -> bool, search: string -> Search,
                            reply: string, parse: Parser)
    returns (r: Result<(ComplianceRequest, Json)>)
    ensures r.Ok? <==> LcComplianceView(lcData).Ok? && AllObjects(tables)
    ensures LcComplianceView(lcData).Err? ==> r == Err(LcComplianceView(lcData).fault)
    ensures r.Ok? ==> r.value.0 == ComplianceRequest(UcpContext(persistDir, dirExists, search),
                                                      LcComplianceView(lcData).value,
                                                      Capped(Entries(tables)))
    ensures r.Ok? ==> |r.value.0.context| <= ContextLimit && |r.value.0.discrepancies| <= SummaryCap
    ensures r.Ok? ==> r.value.1 == DecodeOrRaw(reply, parse)
  {
    var view :- LcComplianceView(lcData);
    var summary :- CompressDiscrepancies(tables);
    var context := UcpContext(persistDir, dirExists, search);
    var verdict := DecodeOrRaw(reply, parse);
    return Ok((ComplianceRequest(context, view, summary), verdict));
  }

  /** A reply that does not decode is kept whole under `raw_output`. */
  lemma UndecodableVerdictKeepsReply(reply: string, parse: Parser)
    requires parse(Strip(reply)).Failed?
    ensures DecodeOrRaw(reply, parse) == JObj([("raw_output", JStr(reply))])
  {
  }

  /** As written, the compliance prompt never lists a discrepancy found by the
      comparator: the summary of its tables is empty. */
  lemma ComplianceSummaryOfTablesIsEmpty(tables: seq<Table>)
    ensures AllObjects(TablesJson(tables)) && Capped(Entries(TablesJson(tables))) == []
  {
    NoEntriesFromTables(tables);
  }
}
