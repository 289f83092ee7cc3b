/**
  Reference definitions of what the merge is meant to produce, stated per
  input and independently of the order of evaluation: which inputs count as
  valid documents, and which pages each input leaves in the output.
 */
module MergeSpec {
  import opened Wrappers
  import opened Pdf

  /** What became of one input: `None` when its decode failed, otherwise the
      outcome of reading it. Every other per-input notice is derived from this. */
  function OutcomeOf(env: Env, s: string): Option<ReadOutcome>
  {
    match DecodePdf(env, s)
    case None => None
    case Some(b) => Some(env.read(b))
  }

  /** An input counts as a valid document when it decodes and its whole
      page loop completes; the number of pages does not matter. */
  predicate IsValid(env: Env, s: string)
  {
    OutcomeOf(env, s).Some? && OutcomeOf(env, s).value.ReadOk?
  }

  /** An input whose reader raised after the decode succeeded. */
  predicate FailsPartWay(env: Env, s: string)
  {
    OutcomeOf(env, s).Some? && OutcomeOf(env, s).value.ReadFailed?
  }

  /** The pages one input leaves in the writer: none when the decode fails,
      all of its pages when the read completes, and the pages appended before
      the exception when the read fails. */
  function Contribution(env: Env, s: string): seq<Page>
  {
    match OutcomeOf(env, s)
    case None => []
    case Some(ReadOk(ps)) => ps
    case Some(ReadFailed(ps)) => ps
  }

  /** The pages of an input if it is a valid document, otherwise none. */
  function ValidPagesOf(env: Env, s: string): seq<Page>
  {
    if IsValid(env, s) then Contribution(env, s) else []
  }

  /** A failed decode leaves nothing behind: no pages, and no count. */
  lemma DecodeFailureInert(env: Env, s: string)
    requires DecodePdf(env, s).None?
    ensures !IsValid(env, s) && !FailsPartWay(env, s) && Contribution(env, s) == []
  {
  }

  /** The contributions of all inputs, concatenated in input order. */
  function AllContributions(env: Env, xs: seq<string>): seq<Page>
    decreases |xs|
  {
    if xs == [] then [] else Contribution(env, xs[0]) + AllContributions(env, xs[1..])
  }

  /** The pages of the valid inputs only, concatenated in input order. */
  function AllValidPages(env: Env, xs: seq<string>): seq<Page>
    decreases |xs|
  {
    if xs == [] then [] else ValidPagesOf(env, xs[0]) + AllValidPages(env, xs[1..])
  }

  /** The positions of the valid inputs. */
  function ValidIndices(env: Env, xs: seq<string>): set<nat>
  {
    set i: nat | i < |xs| && IsValid(env, xs[i])
  }

  /** The number of valid inputs. */
  function ValidCount(env: Env, xs: seq<string>): nat
  {
    |ValidIndices(env, xs)|
  }

  /** No input fails part-way through its page loop. */
  predicate NoPartialFailure(env: Env, xs: seq<string>)
  {
    forall i :: 0 <= i < |xs| ==> !FailsPartWay(env, xs[i])
  }

  /** The contributions of a concatenation are the concatenated contributions. */
  lemma {:induction false} ContributionsAppend(env: Env, xs: seq<string>, ys: seq<string>)
    ensures AllContributions(env, xs + ys) == AllContributions(env, xs) + AllContributions(env, ys)
    decreases |xs|
  {
    if xs == [] {
      assert xs + ys == ys;
    } else {
      assert (xs + ys)[0] == xs[0];
      assert (xs + ys)[1..] == xs[1..] + ys;
      ContributionsAppend(env, xs[1..], ys);
    }
  }

  /** Appending one input appends exactly its contribution. */
  lemma ContributionsSnoc(env: Env, xs: seq<string>, x: string)
    ensures AllContributions(env, xs + [x]) == AllContributions(env, xs) + Contribution(env, x)
  {
    ContributionsAppend(env, xs, [x]);
    assert [x][1..] == [];
  }

  /** Appending one input adds its position to the valid set exactly when it is valid. */
  lemma ValidCountSnoc(env: Env, xs: seq<string>, x: string)
    ensures ValidIndices(env, xs + [x]) == ValidIndices(env, xs) + (if IsValid(env, x) then {|xs|} else {})
    ensures ValidCount(env, xs + [x]) == ValidCount(env, xs) + (if IsValid(env, x) then 1 else 0)
  {
  }

  /** There are never more valid documents than inputs. */
  lemma {:induction false} ValidCountBound(env: Env, xs: seq<string>)
    ensures ValidCount(env, xs) <= |xs|
    decreases |xs|
  {
    if xs == [] {
      assert ValidIndices(env, xs) == {};
    } else {
      var init := xs[..|xs| - 1];
      assert xs == init + [xs[|xs| - 1]];
      ValidCountSnoc(env, init, xs[|xs| - 1]);
      ValidCountBound(env, init);
    }
  }

  /** When no read fails part-way, the contributions are exactly the pages of
      the valid inputs, in input order. */
  lemma {:induction false} ContributionsWithoutPartialFailure(env: Env, xs: seq<string>)
    requires NoPartialFailure(env, xs)
    ensures AllContributions(env, xs) == AllValidPages(env, xs)
    decreases |xs|
  {
    if xs != [] {
      assert !FailsPartWay(env, xs[0]);
      assert Contribution(env, xs[0]) == ValidPagesOf(env, xs[0]);
      assert forall i :: 0 <= i < |xs[1..]| ==> xs[1..][i] == xs[i + 1];
      ContributionsWithoutPartialFailure(env, xs[1..]);
    }
  }
}
