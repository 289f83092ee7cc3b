/**
  merge_handler: the request-length guard in front of the merge and the
  mapping of its outcome, and of request-parsing failures, to HTTP statuses.
 */
module Handler {
  import opened Wrappers
  import opened Pdf
  import opened MergeSpec
  import opened Merge

  /** What parsing the request body yields. */
  datatype Payload =
    | Unparsable                              // get_json raised ValueError
    | ParseCrashed                            // any other exception before the guard: get_json raised
                                              // something else (a RecursionError on a deeply nested
                                              // body), or the JSON value has no `get`
    | Object(pdfList: Option<seq<string>>)    // the `pdf_contents_base64` field; None when absent or null

  /** The response body, up to the exact wording of its messages. */
  datatype Body =
    | UsageHint                               // the list is missing or too short
    | TooFewValid(count: nat)                 // the merge's threshold error, with the count
    | InvalidJson                             // the body's own ValueError message
    | MergedJson(mergedPdfBase64: string)     // {"merged_pdf_base64": ...}
    | InternalError                           // any other exception

  datatype Response = Response(status: nat, body: Body)

  /** The list length below which a request is refused before merging. */
  const MinInputs: nat := 2

  /** The guard in front of the merge: the field is missing or falsy (null or
      the empty list), or the list is too short. The request is then refused
      before any decode or read is attempted. The emptiness test is subsumed
      by the length test. */
  function ShortList(p: Payload): (r: bool)
    ensures r <==> p.Object? && (p.pdfList.None? || |p.pdfList.value| < MinInputs)
  {
    p.Object? && (p.pdfList.None? || p.pdfList.value == [] || |p.pdfList.value| < MinInputs)
  }

  function MergeHandler(env: Env, p: Payload): (r: Response)
    ensures r.status in {200, 400, 500}
    ensures r.status == 500 <==> p.ParseCrashed?
    ensures r.status == 200 <==>
              p.Object? && p.pdfList.Some? && |p.pdfList.value| >= MinInputs
              && ValidCount(env, p.pdfList.value) >= MinValid
    ensures r.status == 200 ==>
              r.body == MergedJson(env.b64encode(env.write(AllContributions(env, p.pdfList.value))))
    ensures r.body.TooFewValid? <==>
              p.Object? && p.pdfList.Some? && |p.pdfList.value| >= MinInputs
              && ValidCount(env, p.pdfList.value) < MinValid
    ensures r.body.TooFewValid? ==> r.status == 400 && r.body.count == ValidCount(env, p.pdfList.value)
    ensures r.body == UsageHint <==> ShortList(p)
    ensures p.Unparsable? ==> r == Response(400, InvalidJson)
    ensures r.status == 500 ==> r.body == InternalError
  {
    match p
    case Unparsable => Response(400, InvalidJson)
    case ParseCrashed => Response(500, InternalError)
    case Object(field) =>
      if ShortList(p) then
        Response(400, UsageHint)
      else
        match MergePdfs(env, field.value)
        case Failure(n) => Response(400, TooFewValid(n))
        case Success(merged) => Response(200, MergedJson(merged))
  }

  /** A missing, empty or one-element list is answered with 400 whatever the
      decoder and the PDF library would have done: the merge is not reached. */
  lemma ShortListIndependentOfMerge(env1: Env, env2: Env, p: Payload)
    requires ShortList(p)
    ensures MergeHandler(env1, p) == MergeHandler(env2, p) == Response(400, UsageHint)
  {
  }

  /** A request whose list is long enough is answered from the number of
      valid documents in it: 400 with that number below the threshold, and
      otherwise 200 with the encoding of every input's pages in input order. */
  lemma LongListOutcome(env: Env, xs: seq<string>)
    requires |xs| >= MinInputs
    ensures ValidCount(env, xs) < MinValid ==>
              MergeHandler(env, Object(Some(xs))) == Response(400, TooFewValid(ValidCount(env, xs)))
    ensures ValidCount(env, xs) >= MinValid ==>
              MergeHandler(env, Object(Some(xs))) == Response(200, MergedJson(env.b64encode(env.write(AllContributions(env, xs)))))
  {
  }

  /** A malformed entry ahead of a one-page and a two-page document is
      skipped and the response carries all three pages, in order. */
  lemma BadEntryThenTwoDocuments(env: Env, bad: string, p1: string, p2: string, a: Page, b: Page, c: Page)
    requires DecodePdf(env, bad).None?
    requires IsValid(env, p1) && ValidPagesOf(env, p1) == [a]
    requires IsValid(env, p2) && ValidPagesOf(env, p2) == [b, c]
    ensures MergeHandler(env, Object(Some([bad, p1, p2])))
         == Response(200, MergedJson(env.b64encode(env.write([a, b, c]))))
  {
    DecodeFailureSkipped(env, [], bad, [p1, p2]);
    assert [] + [bad] + [p1, p2] == [bad, p1, p2];
    assert [] + [p1, p2] == [p1, p2];
    assert ValidIndices(env, [p1, p2]) == {0, 1};
    assert [p1, p2][1..] == [p2];
    assert [p2][1..] == [];
    assert Contribution(env, p1) == [a];
    assert Contribution(env, p2) == [b, c];
    assert AllContributions(env, [p2]) == [b, c] + AllContributions(env, []);
    assert AllContributions(env, [p1, p2]) == [a] + [b, c];
    assert [a] + [b, c] == [a, b, c];
    assert ValidCount(env, [p1, p2]) == 2;
    assert MergePdfs(env, [p1, p2]) == Success(env.b64encode(env.write([a, b, c])));
  }
}
