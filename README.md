# Letter-of-credit checking back end: a verified model of its deterministic core

The service stores letters of credit (LCs) and their attachments. An LLM agent extracts the LC's fields and each supporting document's fields. The service then compares them, and a compliance agent checks the LC against UCP 600 (the ICC's Uniform Customs and Practice for Documentary Credits). The agents are outside this model. What it covers is the code around them:

- **Reply decoding.** Each agent reply is decoded as JSON. An undecodable reply from an extractor or from the compliance agent is kept raw under `raw_output`. An undecodable reply from the discrepancy agent is replaced by the rule-based rows.
- **Rule-based comparator.** When the discrepancy agent's reply does not decode, the comparator classifies each LC field as Match, Mismatch or Missing against the document's value.
- **Discrepancy tables.** One table is built per supporting document.
- **Compliance inputs.** These are:
  - the compliance projection of the LC (`lc_compliance_view`);
  - the discrepancy summary (`compress_discrepancies`);
  - the UCP context lookup, cut to 800 characters.
- **Cleaning a reply.** `clean_ai_json` removes code fences from a reply, then strips and parses it.
- **Supporting-document loop.** It skips the main LC PDF.
- **LC extraction.** It answers 404 for an unknown LC and 400 when there is no file to read. An extractor result that is not a dict, or whose `raw_output` is not text, raises `AttributeError`.
- **Handlers.** The discrepancy and compliance handlers. The compliance handler stores a `valid` flag and updates the LC's status.
- **UCP table.** Uploading adds an inactive document. Activating with `active` true makes one document the only active one; with `active` false it switches that document off and leaves the others unchanged.

## Files

- `py_text.dfy` (`PyText`): the Python string operations the code relies on:
  - `isspace` and `strip`;
  - ASCII `lower`;
  - substring `in`, `startswith` and `endswith`;
  - `replace`, which replaces non-overlapping occurrences from the left;
  - `split(",")[0]`, `join` and slicing;
  - `str` of an int.
- `py_json.dfy` (`PyJson`):
  - decoded JSON values, with dicts kept in insertion order;
  - Python truthiness, `str` and `repr`;
  - `dict.get`, `d[key]` and iteration, together with the exceptions they raise;
  - a `Result` type that carries those exceptions and FastAPI's `HTTPException`.
- `agent_services.dfy` (`AgentServices`): `app/services/agent_services.py`.
- `lc_router.dfy` (`LcRouter`): `app/routers/lc_router.py`.
- `ucp_router.dfy` (`UcpRouter`): `app/routers/ucp_router.py`, as a class that holds the table of UCP documents.

## How the outside world is modelled

- **Agents.** Each agent call (`crew.kickoff()`, together with the PDF read before it) becomes a reply string passed in as a parameter. Per-document replies are functions of the document's position.
- **`json.loads`.** It is a `Parser` parameter, which yields a value or fails with a message.
- **File system and UCP index.** These are parameters too: whether a directory exists, and what a similarity search in a directory returns.
- **Exceptions.** A Python exception or HTTP error is the `Err` case of a `Result`. Its fault records the exception the code would raise: `KeyError`, `TypeError`, `AttributeError` or an HTTP status with its detail.

## Behaviour as written

- **`lc_compliance_view` is not total.** It indexes `lc_data['amount']['currency']` directly. So an LC without an amount raises `KeyError`, and `LcComplianceView` returns that error.
- **`compress_discrepancies` reads top-level keys.** It reads `document`, `issue` and `discrepancy` from each list element, not from the rows inside a table.
- **Handlers follow the code as written.** The corrected definitions under "Findings" stand beside them.
- **`ucp_id` of 0.** The compliance handler treats it like an absent one, because `if ucp_id:` is false for 0.
- **Unknown UCP id.** An explicit id that matches no document gives no UCP directory. It does not fall back to the active document.

## Model

| member | source | states |
|---|---|---|
| AgentServices.DecodeOrRaw | app/services/agent_services.py:80-83 | a reply that decodes after stripping is returned decoded; otherwise a one-key dict whose `raw_output` is the unstripped reply |
| AgentServices.UndecodableVerdictKeepsReply | app/services/agent_services.py:211-214 | a compliance reply that does not decode is kept whole under `raw_output` |
| AgentServices.Classify | app/services/agent_services.py:139-143 | Missing exactly when either value is falsy (checked first, so two empty values are Missing); Match only for truthy values whose `str().strip().lower()` agree; Mismatch only when they differ |
| AgentServices.MatchIgnoresCaseAndPadding | app/services/agent_services.py:142-143 | an LC text matches a document text that differs only in ASCII letter case and surrounding white space |
| AgentServices.ClassifySymmetric | app/services/agent_services.py:140-142 | the classification does not depend on which side is the LC |
| AgentServices.AbsentFieldIsMissing | app/services/agent_services.py:138-141 | a field absent from the document data gets document value `""` and is Missing |
| AgentServices.RuleBasedRows | app/services/agent_services.py:136-144 | one row per LC field in key order, each with that field, its LC value and the classification against `doc_data.get(field, "")`; `AttributeError` exactly when there is a field and the document data is not a dict |
| AgentServices.CompareFields | app/services/agent_services.py:135-144 | the fallback loop returns exactly the rule-based rows, or the same exception |
| AgentServices.FallbackTable | app/services/agent_services.py:131-145 | when the reply does not decode, the table is named after `file_name` (default "Document") and has one row per LC field carrying its name, LC value and classification |
| AgentServices.TableFor | app/services/agent_services.py:118-145 | named after the document's `file_name`; the decoded reply when it decodes; otherwise it succeeds exactly when the LC data is a dict and, if the LC has a field, the document data is a dict too, and then holds the rule-based row of each LC field in order; every failure is `AttributeError` |
| AgentServices.RunDiscrepancyCheck | app/services/agent_services.py:107-146 | succeeds exactly when every document's table can be built; then one table per document in input order, each the decoded reply or the rule-based rows; every failure is `AttributeError` |
| AgentServices.Capped | app/services/agent_services.py:36 | at most 10 entries, a prefix of the input, all of it when there are at most 10 |
| AgentServices.Entry | app/services/agent_services.py:32-35 | an element contributes `"<document>: <issue>"` (document defaulting to "Unknown document", issue being `issue` or else `discrepancy`) exactly when that issue is truthy |
| AgentServices.Entries | app/services/agent_services.py:30-35 | at most one entry per element |
| AgentServices.EntriesAppend | app/services/agent_services.py:30-35 | the entries of a concatenation are the concatenated entries, so order is kept |
| AgentServices.CompressDiscrepancies | app/services/agent_services.py:29-36 | `AttributeError` exactly when some element is not a dict; otherwise the first 10 entries of the filtered list in input order |
| AgentServices.CompressKeepsLeadingEntries | app/services/agent_services.py:36 | elements after the tenth entry never change the summary |
| AgentServices.NoEntriesFromTables | app/services/agent_services.py:32-34 | the tables of `run_discrepancy_check` contribute no entry |
| AgentServices.ComplianceSummaryOfTablesIsEmpty | app/services/agent_services.py:158 | the summary of those tables, as computed in `run_compliance_check`, is empty |
| AgentServices.SummarizeDiscrepancies | app/services/agent_services.py:29-36 | the intended summary: the issues of all non-matching rows in order, all of them when there are at most 10, otherwise exactly the first 10 |
| AgentServices.StatusTextReadsAsMatch | app/services/agent_services.py:139-143 | of the comparator's three status texts only the Match text reads as a match |
| AgentServices.SummaryReportsRuleMismatch | app/services/agent_services.py:139-145 | a rule-based row that is not a match makes the intended summary non-empty |
| AgentServices.FormatAmount | app/services/agent_services.py:16 | `"<currency> <in_figures>"` when both keys exist; `KeyError` when one is missing, `TypeError` when the amount is not a dict |
| AgentServices.ShortNames | app/services/agent_services.py:20-22 | each required document becomes its text before the first comma; a non-string entry raises `AttributeError` |
| AgentServices.Texts | app/services/agent_services.py:25 | `join` accepts exactly lists of strings, else `TypeError` |
| AgentServices.LcComplianceView | app/services/agent_services.py:13-26 | `AttributeError` for a non-dict, `KeyError` without `amount`; for a dict, success exactly when the amount, the document list, the shipment details and the conditions can be read, and otherwise the fault of the first step that raises; on success all nine entries are those of the projection |
| AgentServices.EmptyLcHasNoView | app/services/agent_services.py:16 | the projection of `{}` raises `KeyError` |
| AgentServices.ViewShortensDocuments | app/services/agent_services.py:20-22 | each listed document maps to a comma-free prefix of it, the whole entry when it has no comma |
| AgentServices.ViewDetectsUcpCondition | app/services/agent_services.py:25 | "UCP 600" inside any single condition makes the LC subject to UCP 600 |
| AgentServices.UcpMarkerAcrossConditions | app/services/agent_services.py:25 | "Subject to UCP" followed by "600 rules" also counts: the marker may span two conditions |
| AgentServices.UcpContext | app/services/agent_services.py:39-55 | at most 800 characters; "" when the directory is absent, empty or missing on disk; when the search finds a passage, the first 800 characters of the first passage |
| AgentServices.ContextIsFoundPassage | app/services/agent_services.py:41-55 | for an existing directory: "" when the search raises; a first passage of at most 800 characters is returned whole, a longer one cut to exactly its first 800 |
| AgentServices.RunComplianceCheck | app/services/agent_services.py:148-214 | fails exactly when the projection or the summary fails; otherwise the request holds the context, the projection and the capped summary, and the verdict is the decoded or raw reply |
| LcRouter.CleanText | app/routers/lc_router.py:23-27 | the cleaned text holds no "```" and has no surrounding white space |
| LcRouter.CleanTextKeepsClean | app/routers/lc_router.py:23-27 | text without a fence or surrounding space is left unchanged |
| LcRouter.CleanTextIdempotent | app/routers/lc_router.py:23-27 | cleaning twice is cleaning once |
| LcRouter.CleanPlainText | app/routers/lc_router.py:23-27 | text without backticks is only stripped |
| LcRouter.FencedReplyUnwrapped | app/routers/lc_router.py:23-27 | "```json" + body + "```" cleans to the stripped body |
| LcRouter.ParseError | app/routers/lc_router.py:34-38 | the error object carries the message, the cleaned text under `raw` and the exception text |
| LcRouter.CleanAiJson | app/routers/lc_router.py:15-38 | `{}` for a falsy argument, `AttributeError` for other non-text; for text, the parsed cleaned text or the error object with the cleaned text and `str` of the exception |
| LcRouter.SameCleanTextSameResult | app/routers/lc_router.py:23-31 | non-empty replies with the same cleaned text give the same result |
| LcRouter.FencedAndBareAgree | app/routers/lc_router.py:15-38 | a fenced reply and its bare body give the same result |
| LcRouter.Kept | app/routers/lc_router.py:186-190 | no more attachments are kept than listed |
| LcRouter.KeptMembers | app/routers/lc_router.py:186-190 | an attachment is kept exactly when it is listed and is not a main LC PDF ("lc" in the lower-cased name and a path ending ".pdf") |
| LcRouter.KeptAppend | app/routers/lc_router.py:186-190 | the attachments kept from a concatenation are those kept from each part, in order |
| LcRouter.KeptSingle | app/routers/lc_router.py:189-190 | one attachment is kept exactly when it is not a main LC PDF |
| LcRouter.KeptPositions | app/routers/lc_router.py:186-190 | one position per kept attachment, each within the list |
| LcRouter.KeptPositionsAt | app/routers/lc_router.py:186-190 | the i-th kept position holds the i-th kept attachment |
| LcRouter.KeptPositionsIncrease | app/routers/lc_router.py:186-190 | kept positions are strictly increasing |
| LcRouter.SupportingData | app/routers/lc_router.py:199-202 | `AttributeError` unless the extractor's result is a dict; otherwise `clean_ai_json` of its `raw_output`, default "" |
| LcRouter.SupportingResult | app/routers/lc_router.py:192-207 | `{"file_name": <filename>, "data": <data>}` where the data is the cleaned `raw_output` of the extractor's result; it fails exactly when that data cannot be computed, with the same exception |
| LcRouter.SupportingResults | app/routers/lc_router.py:184-209 | one result per kept attachment, in order, each named after that attachment |
| LcRouter.SupportingResultsData | app/routers/lc_router.py:186-207 | the i-th result is the result of the i-th kept attachment with the reply for its position |
| LcRouter.SupportingResultsOkAt | app/routers/lc_router.py:186-207 | when the loop succeeds, every attachment it does not skip gave a result |
| LcRouter.SupportingResultsFailAt | app/routers/lc_router.py:186-207 | an attachment that is not skipped and raises makes the loop fail |
| LcRouter.SupportingResultsAllOk | app/routers/lc_router.py:186-207 | when every attachment that is not skipped gives a result, the loop succeeds |
| LcRouter.OnlyMainPdfsGiveNoResults | app/routers/lc_router.py:186-190 | an LC whose attachments are all main LC PDFs has no supporting results |
| LcRouter.FailurePersists | app/routers/lc_router.py:186-207 | the first attachment that raises decides the handler's exception |
| LcRouter.ExtractSupporting | app/routers/lc_router.py:174-209 | the loop returns exactly the supporting results |
| LcRouter.LcRecord.constructor | app/routers/lc_router.py:43 | a new LC has status "created" and no extraction |
| LcRouter.ChosenPath | app/routers/lc_router.py:121-129 | the given path when non-empty, else the first attachment's path; none exactly when neither exists |
| LcRouter.LcExtraction | app/routers/lc_router.py:132-146 | fails, with `AttributeError`, exactly when the extractor's result is not a dict or its `raw_output` is not text |
| LcRouter.LcExtractionStores | app/routers/lc_router.py:132-146 | what is stored is the parsed cleaned `raw_output`, or else the LC error object carrying the cleaned text, which holds no code fence |
| LcRouter.ExtractLc | app/routers/lc_router.py:102-155 | 404 for a missing LC, 400 with no path and no attachment; otherwise the extraction of the chosen file, stored with status "extracted"; a failure changes nothing |
| LcRouter.RunDiscrepancy | app/routers/lc_router.py:238-284 | 400 "LC not extracted" for a missing or unextracted LC; for an extracted LC, succeeds exactly when the supporting results and every table can be built, and then gives one table per supporting result |
| LcRouter.UcpDirFor | app/routers/lc_router.py:362-375 | a truthy `ucp_id` selects that document's `storage/ucp/<id>` or nothing; otherwise the directory of the first active document, present exactly when one is active |
| LcRouter.FirstActive | app/routers/lc_router.py:371-373 | the first active document, none when no document is active |
| LcRouter.ActivatedUcpIsUsed | app/routers/lc_router.py:370-375 | after activating a document, a request without `ucp_id` uses its directory |
| LcRouter.IsAccepted | app/routers/lc_router.py:414 | valid exactly when `overall_status` exists, is text and lower-cases to "accepted"; `AttributeError` for a non-dict verdict or a non-text status |
| LcRouter.NewStatus | app/routers/lc_router.py:420 | the verdict's `overall_status` if present, else the previous status |
| LcRouter.RawVerdictChangesNothing | app/routers/lc_router.py:414-420 | a verdict that did not decode is not valid and leaves the status unchanged |
| LcRouter.ValidVerdictStatus | app/routers/lc_router.py:414-420 | a valid verdict leaves a status that lower-cases to "accepted" |
| LcRouter.UpperCaseAccepted | app/routers/lc_router.py:414 | "ACCEPTED" is valid |
| LcRouter.CheckCompliance | app/routers/lc_router.py:361-418 | succeeds exactly when the supporting results, every table, the LC's view and the reading of the verdict succeed; then the request holds the LC's view, the context of the UCP directory in use and an empty summary, and the verdict is the decoded or raw agent reply with `valid` whether it reads as accepted |
| LcRouter.RunCompliance | app/routers/lc_router.py:340-426 | 400 for a missing or unextracted LC; for an extracted LC, succeeds exactly when every step succeeds (`ComplianceSucceeds`); on success every table was built, and the verdict, the request built from the chosen UCP directory, the stored row's `valid` and `str` of the verdict, and the new status are as computed; any failure leaves the LC unchanged |
| LcRouter.DecodedDocumentReplyIsDropped | app/routers/lc_router.py:197-202 | a document reply that decodes to a dict without `raw_output` gets `{}` as data |
| LcRouter.DecodedLcReplyIsDropped | app/routers/lc_router.py:132-146 | an LC reply that decodes to a dict without `raw_output` is stored as the parse error of "" |
| LcRouter.IntendedDocumentData | app/routers/lc_router.py:197-202 | the intended document data: `{}` for an empty reply, else the parsed cleaned reply or the error object with the cleaned text |
| LcRouter.IntendedLcData | app/routers/lc_router.py:132-146 | the intended LC data: the parsed cleaned reply or the LC error object with the cleaned text |
| LcRouter.IntendedDataKeepsBareReply | app/routers/lc_router.py:132-146 | the intended data of a bare JSON reply is its decoded value |
| LcRouter.IntendedDataUnwrapsFence | app/routers/lc_router.py:134-138 | the intended data of a fenced reply is its decoded body |
| LcRouter.IntendedDataAgreesOnRawReplies | app/routers/lc_router.py:199-202 | where the extractor could not decode its reply, the code as written already gives the intended data |
| PyJson.LookupUnique | app/services/agent_services.py:32-33 | in a dict without repeated keys, `get` finds the member stored under the key |
| UcpRouter.FindId | app/routers/ucp_router.py:45-49 | the position of the document with the id, or none when no document has it |
| UcpRouter.Activated | app/routers/ucp_router.py:50-58 | only `active` flags change; the target takes the requested flag; with `active` all others are off, without it all others are unchanged |
| UcpRouter.ActivateLeavesOneActive | app/routers/ucp_router.py:50-58 | activating leaves exactly one active document |
| UcpRouter.ActivatePreservesAtMostOne | app/routers/ucp_router.py:50-58 | with at most one active document before, at most one after, for either flag |
| UcpRouter.CountAppendInactive | app/routers/ucp_router.py:30 | adding an inactive document keeps the number of active ones |
| UcpRouter.NextId | app/routers/ucp_router.py:30-34 | the new id is positive and larger than every id in use |
| UcpRouter.UcpTable.Upload | app/routers/ucp_router.py:14-34 | appends an inactive row with the name, the description or "", and the path; the table stays valid |
| UcpRouter.UcpTable.Activate | app/routers/ucp_router.py:43-62 | 404 "UCP not found" with no change when the id is unknown; otherwise the table becomes the activated table and the reply carries the id and the requested flag; at most one document stays active |

## Left out

- Agents: the LLM agents, their prompts and `crew.kickoff()` are not modelled; each reply is an arbitrary string parameter.
- PDF reading (`read_pdf_text`) is not modelled: it runs before an agent call, and both are folded into that call's reply parameter.
- `json.loads` is an arbitrary parser parameter. The `json.dumps`/`json.loads` round trip of `LC.extracted_json` is assumed to return the stored value.
- Numbers are integers; JSON floats and their `str` are not modelled.
- A `Json` object is a member sequence that may repeat a key, and `Lookup` returns the first member under a key, where a Python `dict` keeps the last. With `UniqueKeys`, as every decoded `dict` has, the two agree (`PyJson.LookupUnique`); the parser parameter is not required to produce unique keys.
- `lower()` is ASCII only. No non-ASCII character lower-cases to "l" or "c", so the main-PDF test is exact; elsewhere, equal-after-lowering is weaker than Python's for non-ASCII letters.
- `repr` escapes only backslash, the quote, newline, carriage return and tab; other non-printable characters are not escaped as Python would.
- Database ordering: query results arrive in the order of the given sequences. "The first active UCP" and "the first attachment" are the first in that order.
- `list_lcs`, `get_lc_detail` and `list_ucp` are not modelled: they are read-only queries ordered by timestamps.
- Sessions, commits, refreshes, timestamps and the authentication dependency on every handler are not modelled.
- UCP upload is not modelled beyond the row it adds: the file copy, the uuid directory and the vector index build (and its printed error) are left out.
- The file system is not modelled. The compliance handler looks for an index in `storage/ucp/<id>`, while upload builds it under `UCP_BASE/<uuid>/chroma`; the model takes directory existence as a parameter and does not relate the two.
- `run_compliance_check` ignores its LC-path and supporting-path arguments, so the model omits them.
- LcRouter.RunDiscrepancy: states the 400 case, when it succeeds and the successful tables, not which exception each failing step raises.
- LcRouter.RunCompliance: states the 400 case, when it succeeds, the successful outcome and that failures leave the LC unchanged, not which exception each failing step raises.
- AgentServices.MatchIgnoresCaseAndPadding: covers ASCII letter case only, as `Lower` does.

## Findings

| source | as written | input that shows it | evidently intended | confidence | as-written member | corrected member |
|---|---|---|---|---|---|---|
| app/services/agent_services.py:29-36 | reads `document`/`issue`/`discrepancy` at the top level of each element, but `run_compliance` passes the tables of `run_discrepancy_check`, whose elements have only `file` and `table` | one table from the rule-based comparator holding a "❌ Mismatch" row | the compliance prompt lists the non-matching rows, at most 10 | medium, not executed | AgentServices.ComplianceSummaryOfTablesIsEmpty | AgentServices.SummarizeDiscrepancies |
| app/routers/lc_router.py:197-202 | takes `raw_output` from the document extractor's result, but `run_doc_extractor` returns the decoded reply itself whenever the reply decodes | document extractor reply `{"invoice_no": "1"}` | the document's data is the decoded reply | medium, not executed | LcRouter.DecodedDocumentReplyIsDropped | LcRouter.IntendedDocumentData |
| app/routers/lc_router.py:132-146 | takes `raw_output` from the LC extractor's result, with the same consequence; the LC is stored as the parse error of "" | LC extractor reply `{"letter_of_credit_number": "X1"}` | the LC's extracted data is the decoded reply | medium, not executed | LcRouter.DecodedLcReplyIsDropped | LcRouter.IntendedLcData |

The intended summary and the intended extracted data are proved by `AgentServices.SummaryReportsRuleMismatch`, `LcRouter.IntendedDataKeepsBareReply`, `LcRouter.IntendedDataUnwrapsFence` and `LcRouter.IntendedDataAgreesOnRawReplies`.
