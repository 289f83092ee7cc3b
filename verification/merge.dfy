/**
  merge_pdfs: a single pass over the Base64 inputs that appends the pages
  of every readable document to one writer, counts the documents whose read
  completed, and refuses to produce output when fewer than two did.
 */
module Merge {
  import opened Wrappers
  import opened Pdf
  import opened MergeSpec

  /** The least number of valid documents the merge accepts. */
  const MinValid: nat := 2

  /** The writer's pages and the valid-document counter. */
  datatype Acc = Acc(pages: seq<Page>, valid: nat)

  const Start := Acc([], 0)

  /** One iteration of the loop: skip an input that does not decode; else
      keep whatever pages the read appended, and count the document only when
      its read finished without raising. */
  function Step(env: Env, acc: Acc, s: string): (r: Acc)
    ensures r == Acc(acc.pages + Contribution(env, s), acc.valid + (if IsValid(env, s) then 1 else 0))
  {
    match DecodePdf(env, s)
    case None => acc
    case Some(b) =>
      match env.read(b)
      case ReadOk(ps) => Acc(acc.pages + ps, acc.valid + 1)
      case ReadFailed(ps) => Acc(acc.pages + ps, acc.valid)
  }

  /** The loop over all inputs, as a left fold. */
  function Fold(env: Env, acc: Acc, xs: seq<string>): (r: Acc)
    ensures r.pages == acc.pages + AllContributions(env, xs)
    ensures acc.valid <= r.valid <= acc.valid + |xs|
    decreases |xs|
  {
    if xs == [] then acc else Fold(env, Step(env, acc, xs[0]), xs[1..])
  }

  /** Folding over a concatenation folds over the second part starting from
      the result of the first: a failure in one input never cuts the pass short. */
  lemma {:induction false} FoldAppend(env: Env, acc: Acc, xs: seq<string>, ys: seq<string>)
    ensures Fold(env, acc, xs + ys) == Fold(env, Fold(env, acc, xs), ys)
    decreases |xs|
  {
    if xs == [] {
      assert xs + ys == ys;
    } else {
      assert (xs + ys)[0] == xs[0];
      assert (xs + ys)[1..] == xs[1..] + ys;
      FoldAppend(env, Step(env, acc, xs[0]), xs[1..], ys);
    }
  }

  /** The fold appends the contributions of all inputs in order and adds the
      number of valid inputs to the counter. */
  lemma {:induction false} FoldCharacterisation(env: Env, acc: Acc, xs: seq<string>)
    ensures Fold(env, acc, xs) == Acc(acc.pages + AllContributions(env, xs), acc.valid + ValidCount(env, xs))
    decreases |xs|
  {
    if xs == [] {
      assert ValidIndices(env, xs) == {};
    } else {
      var init, last := xs[..|xs| - 1], xs[|xs| - 1];
      assert xs == init + [last];
      FoldAppend(env, acc, init, [last]);
      assert [last][1..] == [];
      FoldCharacterisation(env, acc, init);
      ContributionsSnoc(env, init, last);
      ValidCountSnoc(env, init, last);
    }
  }

  /** merge_pdfs: the Base64 text of the serialised pages, or the number of
      valid documents when it is below the threshold. */
  function MergePdfs(env: Env, xs: seq<string>): (r: Result<string, nat>)
    ensures r.Failure? <==> ValidCount(env, xs) < MinValid
    ensures r.Failure? ==> r.error == ValidCount(env, xs)
    ensures r.Success? ==> r.value == env.b64encode(env.write(AllContributions(env, xs)))
  {
    var acc := Fold(env, Start, xs);
    FoldCharacterisation(env, Start, xs);
    assert [] + AllContributions(env, xs) == AllContributions(env, xs);
    if acc.valid < MinValid then Failure(acc.valid)
    else Success(env.b64encode(env.write(acc.pages)))
  }

  /** merge_pdfs as the source writes it: an outer loop over the inputs and
      an inner loop that adds the pages of one document one at a time. */
  method MergePdfsLoop(env: Env, xs: seq<string>) returns (r: Result<string, nat>)
    ensures r == MergePdfs(env, xs)
  {
    var writer: seq<Page> := [];
    var valid: nat := 0;
    for i := 0 to |xs|
      invariant writer == AllContributions(env, xs[..i])
      invariant valid == ValidCount(env, xs[..i])
    {
      var s := xs[i];
      assert xs[..i + 1] == xs[..i] + [s];
      ContributionsSnoc(env, xs[..i], s);
      ValidCountSnoc(env, xs[..i], s);
      match DecodePdf(env, s)
      case None =>
      case Some(b) =>
        var outcome := env.read(b);
        var ps := if outcome.ReadOk? then outcome.pages else outcome.appended;
        var before := writer;
        for j := 0 to |ps|
          invariant writer == before + ps[..j]
        {
          assert ps[..j + 1] == ps[..j] + [ps[j]];
          writer := writer + [ps[j]];
        }
        assert ps[..|ps|] == ps;
        if outcome.ReadOk? {
          valid := valid + 1;
        }
    }
    assert xs[..|xs|] == xs;
    if valid < MinValid {
      r := Failure(valid);
    } else {
      r := Success(env.b64encode(env.write(writer)));
    }
  }

  /** An input that is not counted and appends no pages (a failed decode, or
      a reader that raises before any page) can be dropped without changing
      the result. */
  lemma SkipInert(env: Env, xs: seq<string>, b: string, ys: seq<string>)
    requires !IsValid(env, b) && Contribution(env, b) == []
    ensures MergePdfs(env, xs + [b] + ys) == MergePdfs(env, xs + ys)
  {
    var mid := Fold(env, Start, xs);
    FoldAppend(env, Start, xs + [b], ys);
    FoldAppend(env, Start, xs, [b]);
    FoldAppend(env, Start, xs, ys);
    assert [b][1..] == [];
    assert Step(env, mid, b) == mid;
  }

  /** An input whose Base64 decode fails is skipped and the pass continues
      with the next input. */
  lemma DecodeFailureSkipped(env: Env, xs: seq<string>, b: string, ys: seq<string>)
    requires DecodePdf(env, b).None?
    ensures MergePdfs(env, xs + [b] + ys) == MergePdfs(env, xs + ys)
  {
    SkipInert(env, xs, b, ys);
  }

  /** The pages left by input i sit between those of the inputs before it and
      those of the inputs after it. This holds for a read that raised part-way
      too: the pages it appended stay at that position (it is not counted, as
      `ValidCountSnoc` states). */
  lemma InputAt(env: Env, xs: seq<string>, i: nat)
    requires i < |xs|
    ensures Fold(env, Start, xs).pages == AllContributions(env, xs[..i]) + Contribution(env, xs[i]) + AllContributions(env, xs[i + 1..])
  {
    FoldCharacterisation(env, Start, xs);
    assert xs == xs[..i] + [xs[i]] + xs[i + 1..];
    ContributionsAppend(env, xs[..i] + [xs[i]], xs[i + 1..]);
    ContributionsSnoc(env, xs[..i], xs[i]);
  }

  /** When no read fails part-way, a successful merge serialises exactly the
      pages of the valid inputs, each document's pages in their own order and
      the documents in input order. */
  lemma MergeWithoutPartialFailure(env: Env, xs: seq<string>)
    requires NoPartialFailure(env, xs)
    requires ValidCount(env, xs) >= MinValid
    ensures MergePdfs(env, xs) == Success(env.b64encode(env.write(AllValidPages(env, xs))))
  {
    ContributionsWithoutPartialFailure(env, xs);
  }

  /** Merging a valid document with itself yields its pages twice. */
  lemma SelfMerge(env: Env, a: string)
    requires IsValid(env, a)
    ensures MergePdfs(env, [a, a]) == Success(env.b64encode(env.write(ValidPagesOf(env, a) + ValidPagesOf(env, a))))
  {
    assert ValidIndices(env, [a, a]) == {0, 1};
    assert [a, a][1..] == [a];
    assert [a][1..] == [];
    assert Contribution(env, a) == ValidPagesOf(env, a);
    assert AllContributions(env, [a]) == Contribution(env, a) + AllContributions(env, []);
    assert AllContributions(env, [a, a]) == Contribution(env, a) + Contribution(env, a);
  }
}
