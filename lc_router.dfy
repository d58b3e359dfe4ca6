/** The request handlers of app/routers/lc_router.py: cleaning an agent's
    reply of its code fence, the supporting-document loop that skips the main
    LC PDF, LC extraction, and the discrepancy and compliance handlers with
    the verdict they store.  Database rows are an `LcRecord` object and
    sequences of rows; PDF reading and the agents are parameters. */
module LcRouter {
  import opened PyText
  import opened PyJson
  import opened AgentServices
  import UcpRouter

  // ---------------------------------------------------------------------------
  // Cleaning an agent's reply

  /** The opening fence of a JSON code block. */
  const JsonFence := "```json"

  /** The text `clean_ai_json` parses: every "```json" removed, then every
      "```", then surrounding white space.  No fence survives. */
  function CleanText(s: string): (r: string)
    ensures !Contains(r, Fence)
    ensures Trimmed(r)
  {
    var unfenced := ReplaceAll(ReplaceAll(s, JsonFence, ""), Fence, "");
    NoFenceAfterReplace(ReplaceAll(s, JsonFence, ""));
    StripKeepsAbsence(unfenced, Fence);
    Strip(unfenced)
  }

  /** Text without a backtick holds no fence of either kind. */
  lemma NoBacktickNoFence(s: string, p: string)
    requires p != [] && p[0] == '`' && '`' !in s
    ensures !Contains(s, p)
  {
    if Contains(s, p) {
      var i := ContainsIndex(s, p);
    }
  }

  /** Cleaning text that has no fence and no surrounding space changes nothing. */
  lemma CleanTextKeepsClean(t: string)
    requires !Contains(t, Fence) && Trimmed(t)
    ensures CleanText(t) == t
  {
    assert JsonFence == Fence + "json";
    if Contains(t, JsonFence) {
      ContainsPrefixOfPattern(t, Fence, "json");
    }
    ReplaceAbsent(t, JsonFence, "");
    ReplaceAbsent(t, Fence, "");
    assert "" + t + "" == t;
    StripUnique("", t, "");
  }

  /** Cleaning is idempotent. */
  lemma CleanTextIdempotent(s: string)
    ensures CleanText(CleanText(s)) == CleanText(s)
  {
    CleanTextKeepsClean(CleanText(s));
  }

  /** Text without backticks is only stripped. */
  lemma CleanPlainText(s: string)
    requires '`' !in s
    ensures CleanText(s) == Strip(s)
  {
    NoBacktickNoFence(s, JsonFence);
    ReplaceAbsent(s, JsonFence, "");
    NoBacktickNoFence(s, Fence);
    ReplaceAbsent(s, Fence, "");
  }

  /** A reply wrapped in a JSON code block cleans to its stripped body. */
  lemma FencedReplyUnwrapped(body: string)
    requires '`' !in body
    ensures CleanText(JsonFence + body + Fence) == Strip(body)
  {
    var s := JsonFence + body + Fence;
    assert StartsWith(s, JsonFence);
    assert s[|JsonFence|..] == body + Fence;
    var once := ReplaceAll(s, JsonFence, "");
    assert once == "" + ReplaceAll(body + Fence, JsonFence, "");
    ReplacePassesPlainPrefix(body, Fence, JsonFence, "");
    assert ReplaceAll(Fence, JsonFence, "") == Fence;
    assert once == body + Fence;
    var twice := ReplaceAll(once, Fence, "");
    ReplacePassesPlainPrefix(body, Fence, Fence, "");
    assert StartsWith(Fence, Fence) && Fence[|Fence|..] == "";
    assert ReplaceAll(Fence, Fence, "") == "" + ReplaceAll("", Fence, "");
    assert twice == body + "" == body;
    assert CleanText(s) == Strip(twice);
  }

  /** The object returned when the cleaned text does not parse. */
  function ParseError(message: string, cleaned: string, exception: string): (r: Json)
    ensures Get(r, "error", JNull) == Ok(JStr(message))
    ensures Get(r, "raw", JNull) == Ok(JStr(cleaned))
    ensures Get(r, "exception", JNull) == Ok(JStr(exception))
  {
    var m := [("error", JStr(message)), ("raw", JStr(cleaned)), ("exception", JStr(exception))];
    assert |"error"| != |"raw"| && |"error"| != |"exception"| && |"raw"| != |"exception"|;
    assert Lookup(m[2..], "exception") == Some(JStr(exception));
    assert Lookup(m[1..], "raw") == Some(JStr(cleaned));
    assert Lookup(m[1..], "exception") == Lookup(m[2..], "exception");
    JObj(m)
  }

  const CleanParseError := "Failed to parse JSON"

  /** `clean_ai_json`: `{}` for a falsy argument; otherwise the argument must be
      text, which is cleaned and parsed, or reported in an error object that
      carries the cleaned text and the parser's message. */
  function CleanAiJson(modelOutput: Json, parse: Parser): (r: Result<Json>)
    ensures !Truthy(modelOutput) ==> r == Ok(JObj([]))
    ensures Truthy(modelOutput) && !modelOutput.JStr? ==> r == Err(AttributeError)
    ensures modelOutput.JStr? ==> r.Ok?
    ensures Truthy(modelOutput) && modelOutput.JStr? ==>
      var cleaned := CleanText(modelOutput.s);
      match parse(cleaned)
      case Parsed(v) => r.value == v
      case Failed(msg) =>
        && Get(r.value, "error", JNull) == Ok(JStr(CleanParseError))
        && Get(r.value, "raw", JNull) == Ok(JStr(cleaned))
        && Get(r.value, "exception", JNull) == Ok(JStr(msg))
        && !Contains(cleaned, Fence) && Trimmed(cleaned)
  {
    if !Truthy(modelOutput) then Ok(JObj([]))
    else if !modelOutput.JStr? then Err(AttributeError)
    else
      var cleaned := CleanText(modelOutput.s);
      match parse(cleaned)
      case Parsed(v) => Ok(v)
      case Failed(msg) => Ok(ParseError(CleanParseError, cleaned, msg))
  }

  /** A fenced reply and its bare body are treated alike. */
  lemma FencedAndBareAgree(body: string, parse: Parser)
    requires '`' !in body && Strip(body) != ""
    ensures CleanAiJson(JStr(JsonFence + body + Fence), parse) == CleanAiJson(JStr(Strip(body)), parse)
  {
    var bare := Strip(body);
    FencedReplyUnwrapped(body);
    StripNoBacktick(body);
    CleanPlainText(bare);
    StripIdempotent(body);
    SameCleanTextSameResult(JsonFence + body + Fence, bare, parse);
  }

  /** `clean_ai_json` depends on non-empty text only through its cleaned form. */
  lemma SameCleanTextSameResult(a: string, b: string, parse: Parser)
    requires a != "" && b != "" && CleanText(a) == CleanText(b)
    ensures CleanAiJson(JStr(a), parse) == CleanAiJson(JStr(b), parse)
  {
  }

  lemma StripNoBacktick(s: string)
    requires '`' !in s
    ensures '`' !in Strip(s)
  {
    var k := LeadingSpace(s);
    var r := Strip(s);
    assert forall i :: 0 <= i < |r| ==> r[i] == s[k + i];
  }

  // ---------------------------------------------------------------------------
  // Supporting documents

  /** An `Attachment` row of the LC. */
  datatype Attachment = Attachment(filename: string, filepath: string)

  /** The main LC PDF, which the supporting loop skips: "lc" in the lower-cased
      file name and a path ending in ".pdf". */
  predicate IsMainLcPdf(att: Attachment) {
    Contains(Lower(att.filename), "lc") && EndsWith(att.filepath, ".pdf")
  }

  /** The attachments the loop does not skip, in order. */
  function Kept(atts: seq<Attachment>): (r: seq<Attachment>)
    ensures |r| <= |atts|
  {
    if atts == [] then []
    else
      var init := Kept(atts[..|atts| - 1]);
      var last := atts[|atts| - 1];
      if IsMainLcPdf(last) then init else init + [last]
  }

  /** An attachment is kept exactly when it is listed and is not the main LC PDF. */
  lemma {:induction false} KeptMembers(atts: seq<Attachment>)
    ensures forall a :: a in Kept(atts) <==> a in atts && !IsMainLcPdf(a)
    decreases |atts|
  {
    if atts != [] {
      var init, last := atts[..|atts| - 1], atts[|atts| - 1];
      KeptMembers(init);
      assert atts == init + [last];
    }
  }

  /** Filtering a concatenation filters each part, so the kept attachments
      keep their order and each appears once. */
  lemma {:induction false} KeptAppend(a: seq<Attachment>, b: seq<Attachment>)
    ensures Kept(a + b) == Kept(a) + Kept(b)
    decreases |b|
  {
    if b == [] {
      assert a + b == a;
    } else {
      var ab, front, x := a + b, b[..|b| - 1], b[|b| - 1];
      assert ab[..|ab| - 1] == a + front;
      assert ab[|ab| - 1] == x;
      KeptAppend(a, front);
      if IsMainLcPdf(x) {
        assert Kept(ab) == Kept(a + front);
        assert Kept(b) == Kept(front);
      } else {
        assert Kept(ab) == Kept(a + front) + [x];
        assert Kept(b) == Kept(front) + [x];
      }
    }
  }

  /** One attachment is kept exactly when it is not the main LC PDF. */
  lemma KeptSingle(x: Attachment)
    ensures Kept([x]) == if IsMainLcPdf(x) then [] else [x]
  {
    assert [x][..0] == [];
  }

  /** The positions, in increasing order, of the attachments the loop does not
      skip: the i-th kept attachment is `atts[KeptPositions(atts)[i]]`. */
  function KeptPositions(atts: seq<Attachment>): (ps: seq<nat>)
    ensures |ps| == |Kept(atts)|
    ensures forall i :: 0 <= i < |ps| ==> ps[i] < |atts|
  {
    if atts == [] then []
    else
      var n := |atts|;
      var ps := KeptPositions(atts[..n - 1]);
      if IsMainLcPdf(atts[n - 1]) then ps else ps + [n - 1]
  }

  /** The attachment at the i-th kept position is the i-th kept attachment. */
  lemma {:induction false} KeptPositionsAt(atts: seq<Attachment>, i: nat)
    requires i < |KeptPositions(atts)|
    ensures atts[KeptPositions(atts)[i]] == Kept(atts)[i]
    decreases |atts|
  {
    var n := |atts|;
    var init := atts[..n - 1];
    var ps, kept := KeptPositions(init), Kept(init);
    if IsMainLcPdf(atts[n - 1]) {
      assert KeptPositions(atts) == ps && Kept(atts) == kept;
      KeptPositionsAt(init, i);
      assert atts[ps[i]] == init[ps[i]];
    } else {
      assert KeptPositions(atts) == ps + [n - 1] && Kept(atts) == kept + [atts[n - 1]];
      if i < |ps| {
        KeptPositionsAt(init, i);
        assert atts[ps[i]] == init[ps[i]];
      }
    }
  }

  /** Kept positions increase. */
  lemma {:induction false} KeptPositionsIncrease(atts: seq<Attachment>, i: nat, j: nat)
    requires i < j < |KeptPositions(atts)|
    ensures KeptPositions(atts)[i] < KeptPositions(atts)[j]
    decreases |atts|
  {
    var n := |atts|;
    var ps := KeptPositions(atts[..n - 1]);
    if j < |ps| {
      KeptPositionsIncrease(atts[..n - 1], i, j);
    }
  }

  /** The `data` of a supporting document: the extractor's `raw_output`
      (default "") passed through `clean_ai_json`. */
  function SupportingData(extracted: Json, parse: Parser): (r: Result<Json>)
    ensures !extracted.JObj? ==> r == Err(AttributeError)
    ensures extracted.JObj? ==> r == CleanAiJson(Lookup(extracted.members, "raw_output").GetOr(JStr("")), parse)
  {
    var raw :- Get(extracted, "raw_output", JStr(""));
    CleanAiJson(raw, parse)
  }

  /** `{"file_name": ..., "data": ...}` for one attachment, given the reply of
      the document extractor for it. */
  function SupportingResult(att: Attachment, reply: string, parse: Parser): (r: Result<Json>)
    ensures r.Ok? ==> r.value.JObj? && |r.value.members| == 2
    ensures r.Ok? ==> r.value.members[0] == ("file_name", JStr(att.filename))
    ensures r.Ok? ==> r.value.members[1].0 == "data"
    ensures r.Ok? <==> SupportingData(DecodeOrRaw(reply, parse), parse).Ok?
    ensures r.Err? ==> r.fault == SupportingData(DecodeOrRaw(reply, parse), parse).fault
    ensures r.Ok? ==> r.value.members[1].1 == SupportingData(DecodeOrRaw(reply, parse), parse).value
  {
    var data :- SupportingData(DecodeOrRaw(reply, parse), parse);
    Ok(JObj([("file_name", JStr(att.filename)), ("data", data)]))
  }

  /** The supporting results for the attachments in order; `replies(i)` is the
      extractor's reply for the i-th attachment.  The first attachment that
      raises decides the exception. */
  function SupportingResults(atts: seq<Attachment>, replies: nat -> string, parse: Parser): (r: Result<seq<Json>>)
    ensures r.Ok? ==> |r.value| == |Kept(atts)|
    ensures r.Ok? ==> forall i :: 0 <= i < |r.value| ==>
      r.value[i].JObj? && |r.value[i].members| == 2 && r.value[i].members[0] == ("file_name", JStr(Kept(atts)[i].filename))
  {
    if atts == [] then Ok([])
    else
      var init :- SupportingResults(atts[..|atts| - 1], replies, parse);
      var last := atts[|atts| - 1];
      if IsMainLcPdf(last) then Ok(init)
      else
        var one :- SupportingResult(last, replies(|atts| - 1), parse);
        Ok(init + [one])
  }

  /** When the loop succeeds, every attachment it does not skip gave a result. */
  lemma {:induction false} SupportingResultsOkAt(atts: seq<Attachment>, replies: nat -> string, parse: Parser, k: nat)
    requires SupportingResults(atts, replies, parse).Ok?
    requires k < |atts| && !IsMainLcPdf(atts[k])
    ensures SupportingResult(atts[k], replies(k), parse).Ok?
    decreases |atts|
  {
    var init := atts[..|atts| - 1];
    SupportingResultsLastOk(atts, replies, parse);
    if k < |atts| - 1 {
      assert init[k] == atts[k];
      SupportingResultsOkAt(init, replies, parse, k);
    }
  }

  /** An attachment that is not skipped and raises makes the loop fail;
      `FailurePersists` says which exception it fails with. */
  lemma {:induction false} SupportingResultsFailAt(atts: seq<Attachment>, replies: nat -> string, parse: Parser, k: nat)
    requires k < |atts| && !IsMainLcPdf(atts[k])
    requires SupportingResult(atts[k], replies(k), parse).Err?
    ensures SupportingResults(atts, replies, parse).Err?
    decreases |atts|
  {
    var init := atts[..|atts| - 1];
    SupportingResultsLastOk(atts, replies, parse);
    if k < |atts| - 1 {
      assert init[k] == atts[k];
      SupportingResultsFailAt(init, replies, parse, k);
    }
  }

  /** When every attachment that is not skipped gives a result, the loop
      succeeds. */
  lemma {:induction false} SupportingResultsAllOk(atts: seq<Attachment>, replies: nat -> string, parse: Parser)
    requires forall k :: 0 <= k < |atts| && !IsMainLcPdf(atts[k]) ==> SupportingResult(atts[k], replies(k), parse).Ok?
    ensures SupportingResults(atts, replies, parse).Ok?
    decreases |atts|
  {
    if atts != [] {
      var n := |atts|;
      var init := atts[..n - 1];
      forall k | 0 <= k < n - 1 && !IsMainLcPdf(init[k])
        ensures SupportingResult(init[k], replies(k), parse).Ok?
      {
        assert init[k] == atts[k];
      }
      SupportingResultsAllOk(init, replies, parse);
      SupportingResultsLastOk(atts, replies, parse);
    }
  }

  /** The i-th supporting result is the result for the i-th kept attachment,
      with the extractor's reply for that attachment's position. */
  lemma {:induction false} SupportingResultsData(atts: seq<Attachment>, replies: nat -> string, parse: Parser, i: nat)
    requires SupportingResults(atts, replies, parse).Ok? && i < |KeptPositions(atts)|
    ensures var k := KeptPositions(atts)[i];
      SupportingResult(atts[k], replies(k), parse) == Ok(SupportingResults(atts, replies, parse).value[i])
    decreases |atts|
  {
    var n := |atts|;
    var init := atts[..n - 1];
    var ps := KeptPositions(init);
    SupportingResultsLast(atts, replies, parse);
    var r, r0 := SupportingResults(atts, replies, parse).value, SupportingResults(init, replies, parse).value;
    if IsMainLcPdf(atts[n - 1]) {
      assert KeptPositions(atts) == ps && r == r0;
      SupportingResultsData(init, replies, parse, i);
      assert atts[ps[i]] == init[ps[i]];
    } else {
      var one := SupportingResult(atts[n - 1], replies(n - 1), parse);
      assert KeptPositions(atts) == ps + [n - 1] && r == r0 + [one.value];
      if i < |ps| {
        SupportingResultsData(init, replies, parse, i);
        assert atts[ps[i]] == init[ps[i]] && r[i] == r0[i];
      }
    }
  }

  /** The loop gets past its last attachment exactly when it got past the
      others and the last one is skipped or gives a result. */
  lemma SupportingResultsLastOk(atts: seq<Attachment>, replies: nat -> string, parse: Parser)
    requires atts != []
    ensures var init, last := atts[..|atts| - 1], atts[|atts| - 1];
      SupportingResults(atts, replies, parse).Ok? <==>
        && SupportingResults(init, replies, parse).Ok?
        && (IsMainLcPdf(last) || SupportingResult(last, replies(|atts| - 1), parse).Ok?)
  {
  }

  /** One step of the loop: the results for all attachments are those for all
      but the last, followed by the last one's result unless it is skipped. */
  lemma SupportingResultsLast(atts: seq<Attachment>, replies: nat -> string, parse: Parser)
    requires atts != [] && SupportingResults(atts, replies, parse).Ok?
    ensures var init, last := atts[..|atts| - 1], atts[|atts| - 1];
      var r, r0 := SupportingResults(atts, replies, parse), SupportingResults(init, replies, parse);
      && r0.Ok?
      && (IsMainLcPdf(last) ==> r.value == r0.value)
      && (!IsMainLcPdf(last) ==>
            var one := SupportingResult(last, replies(|atts| - 1), parse);
            one.Ok? && r.value == r0.value + [one.value])
  {
  }

  /** An LC whose only attachments are main LC PDFs has no supporting results. */
  lemma OnlyMainPdfsGiveNoResults(atts: seq<Attachment>, replies: nat -> string, parse: Parser)
    requires forall i :: 0 <= i < |atts| ==> IsMainLcPdf(atts[i])
    ensures SupportingResults(atts, replies, parse) == Ok([])
    decreases |atts|
  {
    if atts != [] {
      OnlyMainPdfsGiveNoResults(atts[..|atts| - 1], replies, parse);
    }
  }

  /** Once an attachment raises, the handler fails with that exception. */
  lemma {:induction false} FailurePersists(atts: seq<Attachment>, j: nat, replies: nat -> string, parse: Parser)
    requires j <= |atts| && SupportingResults(atts[..j], replies, parse).Err?
    ensures SupportingResults(atts, replies, parse) == SupportingResults(atts[..j], replies, parse)
    decreases |atts|
  {
    if j < |atts| {
      var init := atts[..|atts| - 1];
      assert init[..j] == atts[..j];
      FailurePersists(init, j, replies, parse);
    } else {
      assert atts[..j] == atts;
    }
  }

  /** The loop of `extract_supporting_docs`, which `run_discrepancy` and
      `run_compliance` repeat. */
  method ExtractSupporting(atts: seq<Attachment>, replies: nat -> string, parse: Parser)
    returns (r: Result<seq<Json>>)
    ensures r == SupportingResults(atts, replies, parse)
  {
    var results: seq<Json> := [];
    var i := 0;
    while i < |atts|
      invariant 0 <= i <= |atts|
      invariant SupportingResults(atts[..i], replies, parse) == Ok(results)
    {
      assert atts[..i + 1][..i] == atts[..i];
      var att := atts[i];
      if IsMainLcPdf(att) {
        i := i + 1;
        continue;
      }
      var extracted := DecodeOrRaw(replies(i), parse);
      var raw := Get(extracted, "raw_output", JStr(""));
      if raw.Err? {
        FailurePersists(atts, i + 1, replies, parse);
        return Err(raw.fault);
      }
      var structured := CleanAiJson(raw.value, parse);
      if structured.Err? {
        FailurePersists(atts, i + 1, replies, parse);
        return Err(structured.fault);
      }
      results := results + [JObj([("file_name", JStr(att.filename)), ("data", structured.value)])];
      i := i + 1;
    }
    assert atts[..|atts|] == atts;
    return Ok(results);
  }

  // ---------------------------------------------------------------------------
  // LC records and extraction

  /** An `LC` row.  `extractedJson` holds the stored extraction, which the
      handlers read back unchanged. */
  class LcRecord {
    const id: int
    var lcNo: string
    var extractedJson: Option<Json>
    var status: Option<string>

    /** `create_lc`: a new LC is "created" and not yet extracted. */
    constructor(id: int, lcNo: string)
      ensures this.id == id && this.lcNo == lcNo
      ensures extractedJson.None? && status == Some("created")
    {
      this.id := id;
      this.lcNo := lcNo;
      extractedJson := None;
      status := Some("created");
    }
  }

  const LcNotFound := "LC not found"
  const NoLcFile := "No LC file attached. Upload a PDF first."
  const NotExtracted := "LC not extracted"
  const LcParseError := "Failed to parse LC JSON output"

  /** The PDF `extract_lc_endpoint` reads: the given path, or the first
      attachment's when no path (or an empty one) is given. */
  function ChosenPath(filePath: Option<string>, atts: seq<Attachment>): (r: Option<string>)
    ensures r.None? <==> (filePath.None? || filePath.value == "") && atts == []
    ensures filePath.Some? && filePath.value != "" ==> r == filePath
    ensures (filePath.None? || filePath.value == "") && atts != [] ==> r == Some(atts[0].filepath)
  {
    if filePath.Some? && filePath.value != "" then filePath
    else if atts == [] then None
    else Some(atts[0].filepath)
  }

  /** What `extract_lc_endpoint` stores for the LC extractor's output: its
      `raw_output` (default ""), which must be text, cleaned and parsed, or an
      error object with the cleaned text. */
  function LcExtraction(extracted: Json, parse: Parser): (r: Result<Json>)
    ensures r.Err? <==> !extracted.JObj? || (HasKey(extracted, "raw_output") && !Lookup(extracted.members, "raw_output").value.JStr?)
    ensures r.Err? ==> r.fault == AttributeError
  {
    var text :- Get(extracted, "raw_output", JStr(""));
    if !text.JStr? then Err(AttributeError)
    else
      var cleaned := CleanText(text.s);
      match parse(cleaned)
      case Parsed(v) => Ok(v)
      case Failed(msg) => Ok(ParseError(LcParseError, cleaned, msg))
  }

  /** What is stored: the parsed cleaned text, or else an error object that
      keeps the cleaned text, which no longer holds a code fence. */
  lemma LcExtractionStores(extracted: Json, parse: Parser)
    requires LcExtraction(extracted, parse).Ok?
    ensures
      var r := LcExtraction(extracted, parse).value;
      var cleaned := CleanText(Lookup(extracted.members, "raw_output").GetOr(JStr("")).s);
      match parse(cleaned)
      case Parsed(v) => r == v
      case Failed(msg) => r == ParseError(LcParseError, cleaned, msg) && !Contains(cleaned, Fence)
  {
  }

  /** `extract_lc_endpoint`.  `lcReply(path)` is the LC extractor's reply for
      the PDF at `path`.  Only a successful extraction changes the record. */
  method ExtractLc(lc: LcRecord?, filePath: Option<string>, atts: seq<Attachment>,
                   lcReply: string -> string, parse: Parser) returns (r: Result<Json>)
    modifies lc
    ensures lc == null ==> r == Err(HttpError(404, LcNotFound))
    ensures lc != null && ChosenPath(filePath, atts).None? ==> r == Err(HttpError(400, NoLcFile))
    ensures lc != null && ChosenPath(filePath, atts).Some? ==>
      r == LcExtraction(DecodeOrRaw(lcReply(ChosenPath(filePath, atts).value), parse), parse)
    ensures r.Ok? ==> lc != null && lc.extractedJson == Some(r.value) && lc.status == Some("extracted")
    ensures lc != null ==> lc.lcNo == old(lc.lcNo)
    ensures lc != null && r.Err? ==> unchanged(lc)
  {
    if lc == null {
      return Err(HttpError(404, LcNotFound));
    }
    var path := ChosenPath(filePath, atts);
    if path.None? {
      return Err(HttpError(400, NoLcFile));
    }
    var extracted := DecodeOrRaw(lcReply(path.value), parse);
    r := LcExtraction(extracted, parse);
    if r.Ok? {
      lc.extractedJson := Some(r.value);
      lc.status := Some("extracted");
    }
  }

  // ---------------------------------------------------------------------------
  // Discrepancy handler

  /** `run_discrepancy`: 400 unless the LC exists and has been extracted; then
      the supporting results, then one table per result.  `docReply(i)` is the
      extractor's reply for the i-th attachment, `checkReply(i)` the
      discrepancy agent's reply for the i-th supporting result. */
  method RunDiscrepancy(lc: LcRecord?, atts: seq<Attachment>, docReply: nat -> string,
                        checkReply: nat -> string, parse: Parser) returns (r: Result<seq<Table>>)
    ensures lc == null || lc.extractedJson.None? ==> r == Err(HttpError(400, NotExtracted))
    ensures lc != null && lc.extractedJson.Some? ==>
      (r.Ok? <==>
        && SupportingResults(atts, docReply, parse).Ok?
        && var docs := SupportingResults(atts, docReply, parse).value;
           forall i :: 0 <= i < |docs| ==> TableFor(lc.extractedJson.value, docs[i], checkReply(i), parse).Ok?)
    ensures r.Ok? ==> lc != null && lc.extractedJson.Some? && SupportingResults(atts, docReply, parse).Ok?
    ensures r.Ok? ==>
      var docs := SupportingResults(atts, docReply, parse).value;
      && |r.value| == |docs|
      && forall i :: 0 <= i < |docs| ==>
           TableFor(lc.extractedJson.value, docs[i], checkReply(i), parse).Ok?
           && r.value[i] == TableFor(lc.extractedJson.value, docs[i], checkReply(i), parse).value
  {
    if lc == null || lc.extractedJson.None? {
      return Err(HttpError(400, NotExtracted));
    }
    var lcData := lc.extractedJson.value;
    var docs :- ExtractSupporting(atts, docReply, parse);
    r := RunDiscrepancyCheck(lcData, docs, checkReply, parse);
  }

  // ---------------------------------------------------------------------------
  // Compliance handler

  /** The directory of a UCP document's index, `storage/ucp/<id>`. */
  function UcpDir(id: int): string {
    "storage/ucp/" + IntToString(id)
  }

  /** The position of the first active row. */
  function FirstActive(rows: seq<UcpRouter.UcpDoc>): (r: Option<nat>)
    ensures r.Some? ==> r.value < |rows| && rows[r.value].active
    ensures r.Some? ==> forall i :: 0 <= i < r.value ==> !rows[i].active
    ensures r.None? ==> forall i :: 0 <= i < |rows| ==> !rows[i].active
  {
    if rows == [] then None
    else if rows[0].active then Some(0)
    else
      match FirstActive(rows[1..])
      case Some(k) => Some(k + 1)
      case None => None
  }

  /** The UCP directory `run_compliance` passes on: for a truthy `ucp_id`, that
      document's (none if it does not exist); otherwise the first active
      document's (none if no document is active). */
  function UcpDirFor(ucpId: Option<int>, rows: seq<UcpRouter.UcpDoc>): (r: Option<string>)
    ensures ucpId.Some? && ucpId.value != 0 && UcpRouter.FindId(rows, ucpId.value).None? ==> r.None?
    ensures ucpId.Some? && ucpId.value != 0 && UcpRouter.FindId(rows, ucpId.value).Some? ==> r == Some(UcpDir(ucpId.value))
    ensures (ucpId.None? || ucpId.value == 0) ==> (r.Some? <==> exists i :: 0 <= i < |rows| && rows[i].active)
    ensures (ucpId.None? || ucpId.value == 0) && FirstActive(rows).Some? ==>
      r == Some(UcpDir(rows[FirstActive(rows).value].id))
  {
    if ucpId.Some? && ucpId.value != 0 then
      match UcpRouter.FindId(rows, ucpId.value)
      case Some(k) => Some(UcpDir(rows[k].id))
      case None => None
    else
      match FirstActive(rows)
      case Some(k) => Some(UcpDir(rows[k].id))
      case None => None
  }

  /** Without an explicit id the activated document's index is used. */
  lemma ActivatedUcpIsUsed(rows: seq<UcpRouter.UcpDoc>, k: nat, ucpId: Option<int>)
    requires k < |rows| && (ucpId.None? || ucpId == Some(0))
    ensures UcpDirFor(ucpId, UcpRouter.Activated(rows, k, true)) == Some(UcpDir(rows[k].id))
  {
    var after := UcpRouter.Activated(rows, k, true);
    var first := FirstActive(after);
    assert after[k].active;
    assert first.Some? && first.value == k;
  }

  /** `valid`: whether the verdict's `overall_status` (default ""), lower-cased,
      is "accepted".  A verdict that is not a dict, or a status that is not
      text, raises `AttributeError`. */
  function IsAccepted(verdict: Json): (r: Result<bool>)
    ensures r.Err? <==> !verdict.JObj? || (HasKey(verdict, "overall_status") && !Lookup(verdict.members, "overall_status").value.JStr?)
    ensures r.Err? ==> r.fault == AttributeError
    ensures r.Ok? && r.value <==>
      HasKey(verdict, "overall_status") && Lookup(verdict.members, "overall_status").value.JStr?
      && Lower(Lookup(verdict.members, "overall_status").value.s) == "accepted"
  {
    var status :- Get(verdict, "overall_status", JStr(""));
    if !status.JStr? then Err(AttributeError)
    else Ok(Lower(status.s) == "accepted")
  }

  /** The status stored after a compliance check: the verdict's
      `overall_status` when it has one, else the previous status. */
  function NewStatus(verdict: Json, previous: Option<string>): (r: Option<string>)
    requires IsAccepted(verdict).Ok?
    ensures !HasKey(verdict, "overall_status") ==> r == previous
    ensures HasKey(verdict, "overall_status") ==> r == Some(Lookup(verdict.members, "overall_status").value.s)
  {
    match Lookup(verdict.members, "overall_status")
    case Some(s) => Some(s.s)
    case None => previous
  }

  /** A verdict that did not decode is stored as not valid, and the LC keeps
      its status. */
  lemma RawVerdictChangesNothing(reply: string, parse: Parser, previous: Option<string>)
    requires parse(Strip(reply)).Failed?
    ensures IsAccepted(DecodeOrRaw(reply, parse)) == Ok(false)
    ensures NewStatus(DecodeOrRaw(reply, parse), previous) == previous
  {
    assert Lookup(DecodeOrRaw(reply, parse).members, "overall_status").None?;
  }

  /** A valid verdict leaves the LC with a status that reads "accepted" in any
      letter case. */
  lemma ValidVerdictStatus(verdict: Json, previous: Option<string>)
    requires IsAccepted(verdict) == Ok(true)
    ensures NewStatus(verdict, previous).Some? && Lower(NewStatus(verdict, previous).value) == "accepted"
  {
  }

  /** The status is compared without regard to letter case. */
  lemma UpperCaseAccepted()
    ensures IsAccepted(JObj([("overall_status", JStr("ACCEPTED"))])) == Ok(true)
  {
    LowerAccepted();
  }

  lemma LowerAccepted()
    ensures Lower("ACCEPTED") == "accepted"
  {
    var s := "ACCEPTED";
    assert Lower(s)[0] == 'a' && Lower(s)[1] == 'c' && Lower(s)[2] == 'c' && Lower(s)[3] == 'e';
    assert Lower(s)[4] == 'p' && Lower(s)[5] == 't' && Lower(s)[6] == 'e' && Lower(s)[7] == 'd';
  }

  /** A `ValidationResult` row. */
  datatype ValidationRecord = ValidationRecord(lcId: int, valid: bool, summary: string, raw: string)

  /** The agents, the parser and the file system `run_compliance` depends on:
      `docReply(i)` for the i-th attachment, `checkReply(i)` for the i-th
      supporting result, the compliance agent's reply, whether a directory
      exists, and the UCP index search in a directory. */
  datatype Collaborators = Collaborators(
    docReply: nat -> string,
    checkReply: nat -> string,
    complianceReply: string,
    dirExists: string -> bool,
    search: string -> Search,
    parse: Parser)

  /** What `run_compliance` produces: the compliance request, the verdict it
      returns and the validation row it stores. */
  datatype ComplianceOutcome = ComplianceOutcome(request: ComplianceRequest, verdict: Json, record: ValidationRecord)

  /** A successful compliance check of `lcData`: every supporting document was
      read, the request carries the LC's view and the context of the UCP
      directory in use, the verdict is the agent's decoded reply and `valid`
      says whether it reads as accepted. */
  predicate ComplianceChecked(lcData: Json, ucpId: Option<int>, ucpRows: seq<UcpRouter.UcpDoc>,
                              atts: seq<Attachment>, c: Collaborators,
                              request: ComplianceRequest, verdict: Json, valid: bool)
  {
    && SupportingResults(atts, c.docReply, c.parse).Ok?
    && verdict == DecodeOrRaw(c.complianceReply, c.parse)
    && LcComplianceView(lcData) == Ok(request.view)
    && request.context == UcpContext(UcpDirFor(ucpId, ucpRows), c.dirExists, c.search)
    && IsAccepted(verdict) == Ok(valid)
    && request.discrepancies == []
    && var docs := SupportingResults(atts, c.docReply, c.parse).value;
       forall i :: 0 <= i < |docs| ==> TableFor(lcData, docs[i], c.checkReply(i), c.parse).Ok?
  }

  /** Every step of the compliance check succeeds: the supporting results, one
      table per result, the LC's view and the reading of the verdict. */
  predicate ComplianceSucceeds(lcData: Json, atts: seq<Attachment>, c: Collaborators) {
    && SupportingResults(atts, c.docReply, c.parse).Ok?
    && (var docs := SupportingResults(atts, c.docReply, c.parse).value;
        forall i :: 0 <= i < |docs| ==> TableFor(lcData, docs[i], c.checkReply(i), c.parse).Ok?)
    && LcComplianceView(lcData).Ok?
    && IsAccepted(DecodeOrRaw(c.complianceReply, c.parse)).Ok?
  }

  /** The steps of `run_compliance` between loading the LC and storing the
      verdict: the UCP directory, the supporting results, the tables and the
      compliance check, then the `valid` flag.  They change no stored row. */
  method CheckCompliance(lcData: Json, ucpId: Option<int>, ucpRows: seq<UcpRouter.UcpDoc>,
                         atts: seq<Attachment>, c: Collaborators)
    returns (r: Result<(ComplianceRequest, Json, bool)>)
    ensures r.Ok? <==> ComplianceSucceeds(lcData, atts, c)
    ensures r.Ok? ==> ComplianceChecked(lcData, ucpId, ucpRows, atts, c, r.value.0, r.value.1, r.value.2)
  {
    var ucpDir := UcpDirFor(ucpId, ucpRows);
    var docs :- ExtractSupporting(atts, c.docReply, c.parse);
    var tables :- RunDiscrepancyCheck(lcData, docs, c.checkReply, c.parse);
    ComplianceSummaryOfTablesIsEmpty(tables);
    var checked :- RunComplianceCheck(lcData, TablesJson(tables), ucpDir, c.dirExists, c.search,
                                      c.complianceReply, c.parse);
    var valid :- IsAccepted(checked.1);
    return Ok((checked.0, checked.1, valid));
  }

  /** `run_compliance`: 400 unless the LC is extracted; then the checks, the
      stored validation row and the LC's new status.  The LC's status changes
      only when every step succeeds. */
  method RunCompliance(lc: LcRecord?, ucpId: Option<int>, ucpRows: seq<UcpRouter.UcpDoc>,
                       atts: seq<Attachment>, c: Collaborators) returns (r: Result<ComplianceOutcome>)
    modifies lc
    ensures lc == null || old(lc.extractedJson).None? ==> r == Err(HttpError(400, NotExtracted))
    ensures lc != null && old(lc.extractedJson).Some? ==>
      (r.Ok? <==> ComplianceSucceeds(old(lc.extractedJson).value, atts, c))
    ensures lc != null && r.Err? ==> unchanged(lc)
    ensures r.Ok? ==>
      && lc != null && lc.extractedJson == old(lc.extractedJson) && lc.extractedJson.Some?
      && ComplianceChecked(lc.extractedJson.value, ucpId, ucpRows, atts, c,
                           r.value.request, r.value.verdict, r.value.record.valid)
      && r.value.record == ValidationRecord(lc.id, r.value.record.valid, Str(r.value.verdict), Str(r.value.verdict))
      && lc.status == NewStatus(r.value.verdict, old(lc.status))
      && lc.lcNo == old(lc.lcNo)
  {
    if lc == null || lc.extractedJson.None? {
      return Err(HttpError(400, NotExtracted));
    }
    var lcData := lc.extractedJson.value;
    var checked := CheckCompliance(lcData, ucpId, ucpRows, atts, c);
    if checked.Err? {
      return Err(checked.fault);
    }
    var request, verdict, valid := checked.value.0, checked.value.1, checked.value.2;
    var record := ValidationRecord(lc.id, valid, Str(verdict), Str(verdict));
    lc.status := NewStatus(verdict, lc.status);
    r := Ok(ComplianceOutcome(request, verdict, record));
  }

  // ---------------------------------------------------------------------------
  // Extractor replies that decode directly

  /** As written, a supporting document whose extractor reply decodes to a
      dict without `raw_output` gets `{}` as its data. */
  lemma DecodedDocumentReplyIsDropped(reply: string, parse: Parser)
    requires parse(Strip(reply)).Parsed? && parse(Strip(reply)).value.JObj?
    requires !HasKey(parse(Strip(reply)).value, "raw_output")
    ensures SupportingData(DecodeOrRaw(reply, parse), parse) == Ok(JObj([]))
  {
  }

  /** As written, an LC whose extractor reply decodes to a dict without
      `raw_output` is stored as the parse error of the empty text. */
  lemma DecodedLcReplyIsDropped(reply: string, parse: Parser)
    requires parse(Strip(reply)).Parsed? && parse(Strip(reply)).value.JObj?
    requires !HasKey(parse(Strip(reply)).value, "raw_output")
    requires parse("").Failed?
    ensures LcExtraction(DecodeOrRaw(reply, parse), parse) == Ok(ParseError(LcParseError, "", parse("").message))
  {
    assert "" + "" + "" == "";
    StripUnique("", "", "");
    assert CleanText("") == "";
  }

  /** The data intended for a supporting document: its extractor's reply,
      cleaned and parsed, whether or not the reply was fenced. */
  function IntendedDocumentData(reply: string, parse: Parser): (r: Json)
    ensures reply == "" ==> r == JObj([])
    ensures reply != "" && parse(CleanText(reply)).Parsed? ==> r == parse(CleanText(reply)).value
    ensures reply != "" && parse(CleanText(reply)).Failed? ==> Get(r, "raw", JNull) == Ok(JStr(CleanText(reply)))
  {
    CleanAiJson(JStr(reply), parse).value
  }

  /** The data intended for the LC: its extractor's reply, cleaned and parsed. */
  function IntendedLcData(reply: string, parse: Parser): (r: Json)
    ensures parse(CleanText(reply)).Parsed? ==> r == parse(CleanText(reply)).value
    ensures parse(CleanText(reply)).Failed? ==>
      Get(r, "error", JNull) == Ok(JStr(LcParseError)) && Get(r, "raw", JNull) == Ok(JStr(CleanText(reply)))
  {
    var cleaned := CleanText(reply);
    match parse(cleaned)
    case Parsed(v) => v
    case Failed(msg) => ParseError(LcParseError, cleaned, msg)
  }

  /** A bare JSON reply is kept as decoded. */
  lemma IntendedDataKeepsBareReply(reply: string, parse: Parser)
    requires '`' !in reply && Strip(reply) != "" && parse(Strip(reply)).Parsed?
    ensures IntendedDocumentData(reply, parse) == parse(Strip(reply)).value
    ensures IntendedLcData(reply, parse) == parse(Strip(reply)).value
  {
    CleanPlainText(reply);
  }

  /** A fenced reply is kept as its decoded body. */
  lemma IntendedDataUnwrapsFence(body: string, parse: Parser)
    requires '`' !in body && Strip(body) != "" && parse(Strip(body)).Parsed?
    ensures IntendedDocumentData(JsonFence + body + Fence, parse) == parse(Strip(body)).value
    ensures IntendedLcData(JsonFence + body + Fence, parse) == parse(Strip(body)).value
  {
    FencedReplyUnwrapped(body);
  }

  /** Where the extractor could not decode its reply, the written code
      already produces the intended data. */
  lemma IntendedDataAgreesOnRawReplies(reply: string, parse: Parser)
    requires parse(Strip(reply)).Failed?
    ensures SupportingData(DecodeOrRaw(reply, parse), parse) == Ok(IntendedDocumentData(reply, parse))
    ensures LcExtraction(DecodeOrRaw(reply, parse), parse) == Ok(IntendedLcData(reply, parse))
  {
  }
}
