# MD-merge: a verified model of the upload pipeline

MD-merge takes a ZIP archive of Markdown documents and returns another ZIP
archive. With at most 50 documents it returns the documents themselves, each
under its base name. With more, it:

- merges them 49 at a time into `merged_part<k>.md` files;
- strips a leading `---` metadata block from every merged document;
- flags a merged file whose word count exceeds 50000 by renaming it to
  `merged_part<k>_OVER50000WORDS.md`.

While merging it puts one progress event per document on a per-session queue,
then a final completion event. A server-sent-events endpoint re-emits those
events to the browser.

This project models that core:

- `backend/app.py`: `upload_zip`, `count_words`, the `progress_queues`
  registry, the request checks of the upload route, and the event loop of the
  progress stream.
- `backend/test_app.py`: the situations its tests exercise, proved as lemmas.

The Dafny modules follow the program's structure:

- `Wrappers` (`wrappers.dfy`): `Option`, used for Python's `None` and for an
  archive that cannot be opened.
- `PyStr` (`pystr.dfy`): the CPython string builtins the code relies on, with
  CPython's semantics. These are `isspace`, `startswith`, `endswith`,
  `find`, `split(sep, maxsplit)`, `join`, `lstrip()`, `replace`, `str(n)`,
  `os.path.basename` and `s * k`. Its lemmas prove the facts the metadata
  rule needs, for example that joining the parts of a split gives back the
  text.
- `Documents` (`documents.dfy`): reading a file in text mode (`ReadText`),
  metadata removal (`StripMetadata`) and
  `count_words` (`CountWords`, i.e. `len(text.split())`). Both directions of
  the metadata rule are proved. `CountWords` is checked against an
  independent run-counting definition.
- `Sessions` (`sessions.dfy`): the progress event record, and
  `ProgressQueue`, a class whose `items` field is the queue; `Put` and `Get`
  change it. `Registry` is the process-wide map from session id to queue
  (`Ensure`, `Remove`). `Generate` is the progress stream's loop.
- `Merge` (`merge.dfy`): `upload_zip` itself.
  - `UploadZip` is an imperative method. Its loops write the queue
    (`MergeWindow`, `MergeBatches`) and the result list (`FindMarkdown`,
    `PackOriginals`).
  - Each method is proved against a specification function: `Markdown`,
    `SinglePass`, `Windows`, `MergeText`, `MergedName`, `MergeAll`,
    `Progress`, `ExpectedEvents`, and `Process` for the whole upload.
  - The lemmas state what the service promises about those functions.
- `Upload` (`upload.dfy`): the checks of `POST /upload/<session_id>` and the
  hand-over to `upload_zip`.
- `Scenarios` (`scenarios.dfy`): the cases of the test suite, each proved
  for all inputs of its shape. Where a test fixes a single input, the lemma
  takes that input as an instance.

In four places the model follows the code where a reader might expect
otherwise:

- The merge window holds 49 documents (`MAX_FILES_PER_MERGE`), but the
  single-pass threshold is `md_count <= 50`. Both constants are kept as
  written: `MaxFilesPerMerge` and `SinglePassMax`.
- In single-pass mode the code sets `done` on its local record but never puts
  an event, so the model's outcome carries no event for that mode
  (`Process`, `ProcessSinglePass`).
- `if not progress_queue` in the progress stream can never fire, because a
  `queue.Queue` is always truthy. `Generate` therefore has no error branch.
- The two modes read a document differently. Single-pass mode copies its
  bytes into the result archive. Batch mode opens it in text mode, where
  universal newlines turn `"\r\n"` and a lone `"\r"` into `"\n"` before the
  metadata rule runs. So `SinglePass` keeps the content as extracted, while
  `Bodies` and `MergeWindow` apply `ReadText` first.

## Model

| member | source | states |
|---|---|---|
| PyStr.IsSpace | backend/app.py:166 | the characters `str.isspace` accepts, the set that `lstrip()` and `split()` break on |
| PyStr.StartsWith | backend/app.py:161 | `s.startswith(prefix)`: the text begins with the prefix |
| PyStr.EndsWith | backend/app.py:123 | `s.endswith(suffix)`: the text ends with the suffix |
| PyStr.Find | backend/app.py:163 | a reported index is at or after the start position and the pattern occurs there |
| PyStr.FindFirst | backend/app.py:163 | `find` reports the first occurrence at or after the start, and None only when there is none |
| PyStr.Split | backend/app.py:163 | `split(sep, maxsplit)` yields between 1 and `maxsplit + 1` parts |
| PyStr.Join | backend/app.py:163 | `sep.join(parts)`, the inverse that `SplitJoin` pairs `split` with |
| PyStr.SplitJoin | backend/app.py:163 | joining the parts of a split with the separator gives back the text |
| PyStr.SplitInnerPartsFree | backend/app.py:163 | every part but the last is free of the separator |
| PyStr.SplitLastPartFree | backend/app.py:163 | when fewer than `maxsplit` cuts were made, the last part is free of the separator too |
| PyStr.PrefixBeforeFindFree | backend/app.py:163 | the text before the first occurrence holds no occurrence |
| PyStr.LStrip | backend/app.py:166 | `lstrip()` returns a suffix of the text, drops only whitespace, and the result does not start with whitespace |
| PyStr.Replace | backend/app.py:176 | `s.replace(pat, rep)`: every non-overlapping occurrence replaced, scanning from the left; its effect on merged names is stated by `ReplaceExtension` and `Merge.FlagRewritesExtension` |
| PyStr.ReplaceExtension | backend/app.py:176 | when `.md` is the only dot, `replace(".md", rep)` rewrites only the extension |
| PyStr.NatToString | backend/app.py:172 | `str(n)` is a non-empty string of decimal digits |
| PyStr.DecimalValue | backend/app.py:172 | the number a string of decimal digits denotes, the reference `NatToStringValue` checks `str(n)` against |
| PyStr.NatToStringValue | backend/app.py:172 | the digits of `str(n)` denote `n`, so different numbers get different strings |
| PyStr.LeadingDigitsOf | backend/app.py:172 | in digits followed by text that does not start with a digit, the digits are the leading digit run, so the number in a name can be read back |
| PyStr.BaseName | backend/app.py:135 | `basename` is a suffix of the path, has no `/`, and is preceded by `/` when shorter than the path |
| PyStr.Repeat | backend/test_app.py:294 | `s * k`, the tests' way of building long documents |
| Documents.ReadText | backend/app.py:152-159 | `f.read()` in text mode: every `"\r\n"` and lone `"\r"` becomes `"\n"`, so no carriage return is left, and the text never grows |
| Documents.ReadTextPlain | backend/app.py:152-159 | a text without a carriage return is read back unchanged |
| Documents.ReadTextCrLf | backend/app.py:152-159 | a `"\r\n"` line ending between texts without carriage returns is read as `"\n"` |
| Documents.ReadTextCr | backend/app.py:152-159 | a lone `"\r"` line ending is read as `"\n"` |
| Documents.ReadTextAfterPlain | backend/app.py:152-159 | a leading part without carriage returns is read unchanged, whatever follows |
| Documents.StripMetadata | backend/app.py:161-166 | the metadata rule: `split("---", 2)` under the `startswith("---")` guard, then `lstrip()` of the third part; its behaviour is stated by `StripMetadataUnchanged`, `StripMetadataCuts` and `StripMetadataChanges` |
| Documents.FindLeadingMarker | backend/app.py:161-163 | a text that starts with `---` has its first marker at index 0 |
| Documents.FindInSuffix | backend/app.py:163 | searching a suffix finds the same occurrence as searching the text from that offset |
| Documents.FindIsFirst | backend/app.py:163 | an occurrence with none before it is the one `find` reports |
| Documents.SplitAfterLeadingMarker | backend/app.py:161-164 | after a leading `---`, `split("---", 2)` gives `["", text[3..]]` with no second marker and `["", text[3..j], text[j+3..]]` with one at `j` |
| Documents.StripMetadataUnchanged | backend/app.py:161-164 | a text that does not start with `---`, or has no `---` after index 3, is returned unchanged (the empty text included) |
| Documents.StripMetadataCuts | backend/app.py:161-166 | with a second marker at `j >= 3` and none between, the result is `text[j+3..]` with leading whitespace stripped, never starting with whitespace |
| Documents.StripMetadataChanges | backend/app.py:161-166 | the converse: a changed text started with `---` and had a second marker |
| Documents.StripMetadataBlock | backend/app.py:161-166 | a `---` block without dashes inside, then whitespace, then a body, normalises to exactly the body |
| Documents.LStripSkipsSpace | backend/app.py:166 | stripping whitespace and a body that does not start with whitespace leaves the body |
| Documents.StripMetadataExample | backend/test_app.py:258 | the front matter of the test's document disappears, leaving `## Dummy_title\nfiller_content` |
| Documents.WordLength | backend/app.py:207 | the leading run of non-whitespace has no whitespace and is followed by whitespace or the end |
| Documents.Words | backend/app.py:207 | every word of `split()` is non-empty and has no whitespace |
| Documents.CountWords | backend/app.py:195-207 | `count_words(text)` as `len(text.split())`; checked against the run count by `CountWordsIsRunCount` |
| Documents.RunCountAfterRun | backend/app.py:207 | a leading maximal run counts once more than what follows it |
| Documents.CountWordsIsRunCount | backend/app.py:195-207 | `count_words` equals the number of maximal non-whitespace runs |
| Documents.CountWordsZero | backend/app.py:195-207 | the count is 0 exactly when the text is all whitespace (the empty text included) |
| Documents.WordsAroundSpace | backend/app.py:207 | a whitespace character splits the words of the two sides apart |
| Documents.WordLengthUnique | backend/app.py:207 | a non-space run ended by whitespace or the end is the leading run |
| Documents.WordLengthPrefix | backend/app.py:207 | appending text after a whitespace-terminated word leaves its length unchanged |
| Documents.WordsAfterSpace | backend/app.py:207 | a text ending in whitespace adds its words to those of what follows |
| Documents.CountWordsJoin | backend/app.py:195-207 | `count_words(a + " " + b) == count_words(a) + count_words(b)` |
| Documents.CountWordsRepeat | backend/app.py:195-207 | `k` copies of a word followed by a space have `k` words |
| Documents.WordLengthOfWord | backend/app.py:207 | a whole word is one run |
| Documents.RepeatEndsWithSpace | backend/app.py:207 | a non-empty repetition of `w + " "` ends in whitespace |
| Sessions.ProgressQueue.constructor | backend/app.py:97 | a new queue is empty |
| Sessions.ProgressQueue.Put | backend/app.py:156 | `put` appends at the back and changes nothing else |
| Sessions.ProgressQueue.Get | backend/app.py:326 | `get` removes and returns the front event, or returns None on an empty queue, which it leaves empty |
| Sessions.ProgressQueue.Drain | backend/app.py:323-332 | the events emitted are the queued ones up to the first completion event, and the rest stay queued |
| Sessions.Registry.constructor | backend/app.py:63 | the registry starts empty, with no queue shared by two sessions |
| Sessions.Registry.Ensure | backend/app.py:96-99 | a present session keeps its queue and the map is unchanged; an absent one gets exactly one fresh empty queue; no session shares a queue |
| Sessions.Registry.Remove | backend/app.py:340 | only the session's key is deleted, and nothing happens when it is absent |
| Sessions.UntilDone | backend/app.py:323-332 | the events the stream emits from a queue: up to and including the first completion event |
| Sessions.UntilDonePrefix | backend/app.py:323-332 | what the stream emits is a prefix of the queue with no completion event before its last event, and it stops early only right after a completion event |
| Sessions.UntilDoneStops | backend/app.py:329-330 | events without completion followed by a completion event are emitted in full, and nothing after them |
| Sessions.Generate | backend/app.py:305-332 | the stream gives the session a queue, emits exactly the events up to the first completion event, leaves the rest queued, and touches no other session's queue |
| Merge.IsMarkdown | backend/app.py:122-123 | the walk keeps a file whose own name ends in `.md` |
| Merge.Filter | backend/app.py:121-124 | the entries a test accepts, in their order; stated by `FilterMembers` and `FilterAppend` |
| Merge.Markdown | backend/app.py:120-124 | `md_files`: the Markdown entries in walk order, which `FindMarkdown` computes |
| Merge.SinglePass | backend/app.py:132-136 | every document under its base name with its content as extracted, which `PackOriginals` computes |
| Merge.FilterMembers | backend/app.py:121-124 | an entry is kept exactly when it is in the archive and passes the test |
| Merge.FilterAppend | backend/app.py:121-124 | filtering keeps discovery order: the filter of `a + b` is the filter of `a` then that of `b` |
| Merge.FindMarkdown | backend/app.py:120-124 | the discovery loop collects exactly the entries whose base name ends in `.md`, in order |
| Merge.PackOriginals | backend/app.py:132-136 | the single-pass loop writes every document under its base name with its raw content |
| Merge.Windows | backend/app.py:146-147 | `md_files[i:i+49]` for `i` in `range(0, n, 49)`; stated by `WindowsPartition`, `WindowsCount` and `WindowsAt` |
| Merge.WindowsPartition | backend/app.py:146-147 | the windows concatenate back to the document list; each holds 1 to 49 documents, and all but the last hold 49 |
| Merge.WindowsCount | backend/app.py:146 | there are `ceil(n / 49)` windows, and window `b` exists exactly when `49 * b < n` |
| Merge.WindowsAt | backend/app.py:147 | window `k` is `md_files[49k : 49k + 49]` |
| Merge.Bodies | backend/app.py:151-166 | each document of a window read in text mode and stripped of its metadata, in order |
| Merge.Concat | backend/app.py:168 | each text followed by `"\n\n"`, one after the other |
| Merge.MergeText | backend/app.py:148-168 | `merged_content` after a window, which `MergeWindow` computes |
| Merge.BodiesAppend | backend/app.py:151-166 | documents are normalised one by one, in order |
| Merge.ConcatAppend | backend/app.py:168 | the merged text of `a + b` is that of `a` followed by that of `b` |
| Merge.MergeTextAppend | backend/app.py:148-168 | a window's merged text is built in document order |
| Merge.WordTotal | backend/app.py:171 | the sum of the word counts of some texts, the reference `ConcatWords` checks the merged count against |
| Merge.ConcatWords | backend/app.py:168-171 | the blank line after each text keeps neighbouring words apart: the merged text has as many words as its texts together |
| Merge.MergeTextWords | backend/app.py:168-171 | the merged text's word count is the sum of its normalised documents' counts |
| Merge.MergedName | backend/app.py:171-176 | `merged_part<k>.md`, with `_OVER50000WORDS.md` above 50000 words; stated by `MergedNameMarked` and `MergedNameInjective` |
| Merge.FlagRewritesExtension | backend/app.py:172-176 | `replace(".md", "_OVER50000WORDS.md")` on `merged_part<k>.md` yields `merged_part<k>_OVER50000WORDS.md` |
| Merge.MergedNameMarked | backend/app.py:172-176 | every merged name starts with `merged_part` and ends with `.md`, and ends with `_OVER50000WORDS.md` exactly when the word count exceeds 50000 |
| Merge.NameMerged | backend/app.py:171-176 | the naming code yields `merged_part<k>.md`, flagged exactly when `count_words` exceeds 50000 |
| Merge.MergedOutput | backend/app.py:146-178 | the `(filename, merged_content)` pair appended for a window |
| Merge.MergeFrom | backend/app.py:146-178 | the merged files of the windows from a given number on; stated by `MergeFromWindows` |
| Merge.MergeAll | backend/app.py:144-178 | `merged_files`, numbered from 1, which `MergeBatches` computes |
| Merge.MergeAllByWindows | backend/app.py:146-178 | a list whose `k`-th file is the merged output of window `k`, for every window, is the batch-mode result |
| Merge.MergeFromWindows | backend/app.py:146-178 | file `k` of the result is the merged output of window `k`, and there is one file per window |
| Merge.Progress | backend/app.py:155-156 | the per-document events put so far; stated by `ProgressAt` |
| Merge.ExpectedEvents | backend/app.py:155-156 | batch mode's events, the per-document ones and then the completion event (188-189); stated by `ExpectedEventsOrder` |
| Merge.ProgressAt | backend/app.py:155-156 | the per-document events are `(n, j + 1, false)` for `j = 0 … m-1` |
| Merge.ExpectedEventsOrder | backend/app.py:155-156 | batch mode queues `n + 1` events: indices `1 … n` with `done = false`, then `(n, n, true)`; the total is `n` throughout, indices increase strictly until the last, and `done` holds only on the last |
| Merge.SubscriberSeesAllEvents | backend/app.py:188-189 | a subscriber emits all of a batch run's events and stops at its completion event, whatever is queued after |
| Merge.Process | backend/app.py:70-190 | the answer and queued events of `upload_zip`, which `UploadZip` computes; stated by `ProcessSinglePass` and `ProcessBatch` |
| Merge.ProcessSinglePass | backend/app.py:131-140 | at most 50 documents give the uploaded name's archive, with each document under its base name and raw content, and no event |
| Merge.ProcessBatch | backend/app.py:143-190 | more than 50 documents give `merged_files.zip` with `ceil(n / 49)` files; file `k` holds window `k` merged and is named `merged_part<k+1>`, flagged by its own word count; no two files share a name; the queue gets `(n, j, false)` for `j = 1 … n`, then `(n, n, true)` |
| Merge.MergeAllFiles | backend/app.py:146-178 | the batch result has `ceil(n / 49)` files; file `k` holds window `k` merged and is named `merged_part<k+1>`, flagged by its own word count |
| Merge.MergedNamesMarked | backend/app.py:172-178 | every batch-mode file name starts with `merged_part` and ends with `.md` |
| Merge.MergedNameInjective | backend/app.py:172-176 | merged files with different numbers get different names, flagged or not |
| Merge.MergeAllNamesDistinct | backend/app.py:172-184 | no two batch-mode files share a name, so `writestr` never writes a duplicate entry |
| Merge.AppendMerged | backend/app.py:147-178 | merging the slice `md_files[i:i+49]` with `i = 49 b` and naming it `merged_part<b+1>` by its word count extends the list of windows merged so far |
| Merge.MergeTextStep | backend/app.py:159-168 | merging one more document appends its text-mode body and a blank line |
| Merge.MergeWindow | backend/app.py:148-168 | the inner loop reads each document in text mode, builds the window's merged text and puts one event per document with the global 1-based index |
| Merge.MergeBatches | backend/app.py:144-178 | the outer loop produces the batch result and queues exactly the per-document events |
| Merge.UploadZip | backend/app.py:70-190 | `upload_zip` answers as `Process` says: 400 "Invalid ZIP file" for a bad archive, the documents themselves for at most 50, `merged_files.zip` otherwise; the session's queue grows by exactly `Process`'s events; other sessions are untouched |
| Upload.Validate | backend/app.py:250-261 | the upload passes exactly when a file part is present and its name ends in `.zip`; each failing check gives its own message, in the route's order |
| Upload.Upload | backend/app.py:215-263 | a failed check answers 400 with its message and leaves every queue as it was; otherwise the route is `upload_zip` for the session with the client's file name |
| Scenarios.NumberedDocs | backend/test_app.py:154 | the tests' fixture: `n` top-level documents `0.md … <n-1>.md` with one content |
| Scenarios.FilterKeepsAll | backend/app.py:121-124 | when every entry passes the test, discovery keeps the archive whole |
| Scenarios.FilterKeepsNone | backend/app.py:121-124 | when no entry passes, discovery keeps nothing |
| Scenarios.NumberedName | backend/test_app.py:154 | `<i>.md` is its own base name and a Markdown name |
| Scenarios.NumberedDocsAreMarkdown | backend/test_app.py:154 | every numbered document is discovered, in order |
| Scenarios.NoMarkdownGivesEmptyArchive | backend/test_app.py:129-131 | an archive without Markdown documents gives an empty archive and no event |
| Scenarios.TextFileOnly | backend/test_app.py:118-131 | a lone top-level `.txt` file gives an empty archive |
| Scenarios.FewNumberedDocsPassThrough | backend/test_app.py:161-199 | up to 50 numbered documents (20 and 50 in the tests) come back as exactly `n` files, file `i` being `<i>.md` with its content |
| Scenarios.ManyNumberedDocsMerge | backend/test_app.py:229-233 | more than 50 documents give `ceil(n / 49)` files, all named `merged_part…` |
| Scenarios.ThousandDocs | backend/test_app.py:222-232 | 1000 documents give 21 files, fewer than 25 |
| Scenarios.BodiesUniform | backend/app.py:160-166 | documents with one content all normalise to that content's body, read in text mode |
| Scenarios.ConcatLacks | backend/app.py:168 | merging adds only newlines, so a character other than a newline that no body has is not in the merged text |
| Scenarios.LacksNoOccurrence | backend/test_app.py:269-271 | a text without one of a pattern's characters has no occurrence of the pattern |
| Scenarios.FirstMergedUniform | backend/app.py:146-176 | the first merged file of documents with one content holds the first 49 merged, named by their word total |
| Scenarios.FirstMergedLacks | backend/app.py:160-168 | a character missing from every body and not a newline is missing from the first merged file |
| Scenarios.FrontMatterGone | backend/test_app.py:257-271 | with a dash-free front matter block and a body without `:` or `-`, neither holding a carriage return, no `title:`, `url:` or `---` is left in the first merged file |
| Scenarios.TestFrontMatterGone | backend/test_app.py:257-271 | this holds for the test's own document, `title` and `url` included |
| Scenarios.TestMetaPlain | backend/test_app.py:258 | the test's front matter block has no `-` and no carriage return |
| Scenarios.TestBodyPlain | backend/test_app.py:258 | the test's body has neither `:` nor `-` |
| Scenarios.TestBodyNoReturn | backend/test_app.py:258 | the test's body has no carriage return and does not start with whitespace |
| Scenarios.WordTotalUniform | backend/app.py:171 | equal texts add up to their word count once per text |
| Scenarios.RepeatStarts | backend/test_app.py:294 | `s * k` starts with `s` when `k > 0` |
| Scenarios.RepeatNoReturn | backend/test_app.py:294 | repeating a text without a carriage return gives none |
| Scenarios.RepeatedWordsBody | backend/test_app.py:294-295 | repeated words read back unchanged in text mode, carry no front matter and have one word per copy |
| Scenarios.RepeatedWordsFlagged | backend/test_app.py:294-304 | more than 50 documents of `k` words, with `49k > 50000`, flag the first merged file `_OVER50000WORDS.md` |
| Scenarios.HelloFlagged | backend/test_app.py:294-304 | 70 documents of `"Hello " * 2000` flag the first merged file |
| Scenarios.FlatBaseName | backend/app.py:135 | a path without `/` is its own base name |
| Scenarios.BaseNameInFolder | backend/app.py:135 | the base name of `dir/name` is `name` |
| Scenarios.AllMarkdownPassThrough | backend/app.py:131-136 | at most 50 entries, all Markdown, come back entry for entry |
| Scenarios.NestedFolders | backend/test_app.py:359-376 | documents in (nested) folders come back flattened, each under its last path part with unchanged content |
| Scenarios.NotAnArchiveRejected | backend/test_app.py:327-334 | bytes that are not an archive pass the name checks as `bad.zip` and get 400 "Invalid ZIP file" |
| Scenarios.TextUploadRefused | backend/test_app.py:440-452 | `not_a_zip.txt` is refused with "Only ZIP files are allowed" |

## Left out

- Flask plumbing is not modelled: routing, CORS, `send_file`, the SSE
  response headers, the on-close callback wiring and the dev-server entry
  point. The response is a value: `Error(status, message)` or
  `Download(name, files)`.
- `tempfile`, `file.save`, ZIP extraction and writing, and UTF-8 decoding
  are not modelled. The archive is given as its decoded entries, or `None`
  when it is not a ZIP file.
- Merge.MergeWindow and Merge.Bodies: a batch-mode document that is not valid
  UTF-8 makes `f.read()` raise after that document's progress event was
  already put. The model has no such failure: an entry's content is already
  text, so the upload always completes. Single-pass mode copies such a
  document unharmed, which the model also does.
  - A file extracted over the saved upload, or extracted entries with
    equal paths, are not modelled.
- The order of `os.walk` is not modelled. The model discovers entries in the
  order it is given them.
- Merge.UploadZip: the local `progress_data` dict is split into local
  variables. Each `put` of a copy is modelled as putting a fresh record with
  the same three fields.
- Merge.MergeWindow and Merge.NameMerged: the body of the outer batch loop
  is split into these two methods, so that each loop carries its own
  invariants.
- Sessions.ProgressQueue.Get: `get(timeout=5)` is modelled as returning
  None exactly when the queue is empty. Concurrency is not modelled: the
  upload and the stream run in different requests, and a blocked `get`
  waiting for a concurrent `put` is outside the model.
- Sessions.Generate: the `if not progress_queue` branch is dead code and is
  omitted.
- Sessions.Generate: the stream is modelled as one call that returns all the
  events it yields.
- Cleanup is `Registry.Remove`, applied by the caller. The moment the
  connection closes is not modelled.
- Scenarios.FrontMatterGone, Scenarios.RepeatedWordsFlagged and
  Scenarios.ManyNumberedDocsMerge are stated for every document count above
  50, not only for the 60, 70 and 1000 documents of the tests.
  Scenarios.ManyNumberedDocsMerge is stated about every merged file. The
  other two are stated about the first merged file only.
  - The word-count test only needs one flagged name, and the first file
    already has one.
  - The front-matter test reads only the first file.
- Scenarios.NestedFolders and Scenarios.TextFileOnly are stated for every
  archive of the tests' shape, not for their literal paths. The empty-file
  test is covered by Merge.ProcessSinglePass: every document keeps its raw
  content, the empty one included.
