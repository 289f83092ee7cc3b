# pdfmerge — a Dafny model of the merge function

The repository is an HTTP function that takes a JSON list of Base64-encoded
PDF documents and returns one Base64-encoded PDF holding all of their pages in
input order. This project models its three routines in `function_app.py`:

- `decode_pdf`: Base64 decode, where a decoder exception becomes `None`
  (`Pdf.DecodePdf`);
- `merge_pdfs`: one pass over the inputs. It appends every page that a
  reader yields to one writer and counts the documents whose page loop
  completed. It fails with that count when it is below 2. Otherwise it
  serialises the writer and Base64-encodes the result. `Merge.Step` and
  `Merge.Fold` model the pass as a left fold. `Merge.MergePdfs` adds the
  threshold and the serialisation. `Merge.MergePdfsLoop` is the same
  routine written with the source's nested loops;
- `merge_handler`: the list-length guard in front of the merge, and the
  mapping of outcomes to status codes 200, 400 and 500 (`Handler.MergeHandler`).

The Base64 codec and the PDF library are foreign code. They are
uninterpreted total functions bundled in `Pdf.Env`, and every property holds
for every choice of them:

- `b64decode` returns `None` when the decoder raises;
- `read` opens one document and appends its pages. It returns
  `ReadOk(pages)`, or `ReadFailed(appended)` when it raised after appending
  `appended`. A failure in the `PdfReader` constructor is `ReadFailed([])`;
- `write` serialises the page sequence;
- `b64encode` encodes the output bytes.

Pages are opaque values. The model never inspects them.

`MergeSpec` holds reference definitions that look at each input on its own.
`Contribution` is what one input leaves in the writer, `IsValid` says
whether it is counted, and `ValidCount` is the size of the set of valid
positions. The lemmas connect the fold, the loop and the handler to these
definitions.

Two points where the code decides the behaviour:

- `if stream:` tests a `BytesIO` object, and such an object is always true.
  So a decode that yields zero bytes still reaches the reader; only a
  decoder exception skips the input.
- The handler picks its answer by the type of the exception. A body that
  is not valid JSON makes `get_json` raise `ValueError`, which the
  `except ValueError` branch answers with 400, not with the 500 of the
  generic branch. The model follows the code: `Unparsable` stands for that
  `ValueError` case and gives 400. `ParseCrashed` stands for any other
  exception raised before the list guard, and gives 500. Examples are a
  `RecursionError` from a deeply nested body, and a JSON value without
  `get`, such as a list or `null`.

## Model

| member | source | states |
|---|---|---|
| `Merge.MergePdfs` | function_app.py:18-38 | fails exactly when fewer than 2 inputs are valid, and the failure carries that count; otherwise returns the encoding of the serialised contributions of all inputs, in input order |
| `Merge.MergePdfsLoop` | function_app.py:18-38 | the source's nested loops (outer over inputs, inner adding pages one at a time) compute the same result as the fold model |
| `Merge.Step` | function_app.py:23-31 | one iteration appends exactly the input's contribution (nothing, all its pages, or the pages appended before the exception) and counts it exactly when it is valid |
| `Merge.Fold` | function_app.py:22-31 | the pass appends every input's contribution in input order and adds at most one to the counter per input |
| `Merge.FoldAppend` | function_app.py:22-31 | the pass over `xs + ys` is the pass over `ys` continued from the state after `xs`: each input is visited once, in order, and no per-document failure ends the pass |
| `Merge.FoldCharacterisation` | function_app.py:22-31 | after the pass, the writer holds the previous pages followed by every input's contribution in input order, and the counter has grown by the number of valid inputs |
| `Merge.SkipInert` | function_app.py:23-31 | removing an input that is not counted and appended no pages (failed decode, or reader failing before its first page) leaves the result unchanged |
| `Merge.DecodeFailureSkipped` | function_app.py:11-24 | an input whose Base64 decode raises contributes nothing and is not counted; the inputs around it are merged as if it were absent |
| `Merge.InputAt` | function_app.py:25-31 | the merged pages are those of the inputs before i, then input i's own contribution, then those of the inputs after i; for a read that raised part-way, the contribution is the pages appended before the exception |
| `Merge.MergeWithoutPartialFailure` | function_app.py:22-38 | when no read raises part-way and at least 2 inputs are valid, the output is the concatenation, in input order, of the pages of the valid inputs |
| `Merge.SelfMerge` | function_app.py:22-38 | merging a valid document with itself yields its pages followed by its pages again |
| `MergeSpec.DecodeFailureInert` | function_app.py:11-16 | an input whose decode raises is neither counted nor failing part-way, and leaves no pages |
| `MergeSpec.ValidCountBound` | function_app.py:26-29 | the valid counter never exceeds the number of inputs |
| `MergeSpec.ValidCountSnoc` | function_app.py:24-29 | one more input adds its position to the valid set, and 1 to the count, exactly when its decode succeeds and its read completes; a document with zero pages counts, and a read that raised part-way does not |
| `MergeSpec.ContributionsSnoc` | function_app.py:27-28 | one more input appends exactly its own pages after those already written |
| `MergeSpec.ContributionsAppend` | function_app.py:22-28 | the pages written for a concatenation of input lists are the concatenation of the pages written for each list |
| `MergeSpec.ContributionsWithoutPartialFailure` | function_app.py:25-29 | when no read raises part-way, every input contributes either all its pages (valid) or none |
| `Handler.MergeHandler` | function_app.py:42-67 | status is 200, 400 or 500; 500 exactly when an exception other than `ValueError` is raised before the guard (a body without `get`, or a parse that crashes otherwise); 200 exactly for a list of at least 2 with at least 2 valid inputs, with the merged JSON body; the threshold message exactly when at least 2 were sent but fewer than 2 were valid, with that count; the usage message exactly for a missing or short list; an unparsable body gets 400 with its own error message; a 500 always carries the internal-error message |
| `Handler.ShortListIndependentOfMerge` | function_app.py:45-51 | a missing, empty or one-element list gets 400 whatever the decoder and PDF library do, so the merge is not invoked |
| `Handler.LongListOutcome` | function_app.py:53-61 | a list of at least 2 gets 400 with the valid count when fewer than 2 inputs are valid, and otherwise 200 with the encoding of every input's pages in input order |
| `Handler.ShortList` | function_app.py:47 | the model of the guard itself: its two tests (missing or falsy field, fewer than 2 elements) amount to the field being missing or shorter than 2; the promise that such a request gets 400 without a merge is stated by `Handler.MergeHandler` and `Handler.ShortListIndependentOfMerge` |
| `Handler.BadEntryThenTwoDocuments` | function_app.py:11-58 | a bad Base64 entry followed by a one-page and a two-page document yields 200 with the three pages in order |

## Left out

- Base64 decoding and encoding are not modelled. `b64decode` runs non-validating: it raises on bad padding and on a string holding a non-ASCII character; other characters outside the alphabet are dropped. The model keeps the decode abstract, as a function that may fail.
- The PDF library (`PdfReader`, `PdfWriter.add_page`, `PdfWriter.write`) is not modelled. Reading is an abstract outcome, and serialisation is a total abstract function of the page sequence. Exceptions inside `writer.write` are not modelled. Re-reading the merged output to recover the pages depends on that library, so it is not stated.
- Payloads are limited to a missing or null field and a list of strings. Other values of `pdf_contents_base64` are not modelled: a non-empty string, a number, or a list with non-string elements. A failure of `req.get_json` is abstract: `Unparsable` when it raises `ValueError`, `ParseCrashed` when it raises any other exception.
- Function routing and decorators (lines 9 and 40-41) are not modelled, and neither are the response MIME type or the exact message texts. The response keeps only which message was sent and the count it carries.
- Logging is not modelled. It has no effect on the result.
- Concurrency and hosting are not modelled. Each call is stateless and runs on one thread.
