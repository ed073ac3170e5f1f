/**
  The document pipeline of `upload_zip`: keep the Markdown files of the
  extracted archive, and either return them as they are (at most 50 of them)
  or merge them in windows of 49 into `merged_part<k>.md` files, flagging a
  merged file whose word count exceeds 50000 and reporting one progress event
  per merged document and a final completion event.
*/
module Merge {
  import opened Wrappers
  import opened PyStr
  import opened Documents
  import opened Sessions

  /** `MAX_FILES_PER_MERGE`: how many documents one merged file takes. */
  const MaxFilesPerMerge: nat := 49
  /** `MAX_WORDS`: above this many words a merged file is flagged. */
  const MaxWords: nat := 50000
  /** The literal 50 of the mode test: up to this many documents come back unmerged. */
  const SinglePassMax: nat := 50

  /** A file extracted from the archive: its path inside the archive and its decoded text. */
  datatype Entry = Entry(path: string, content: string)

  /** An entry of the result archive. */
  datatype OutputFile = OutputFile(name: string, content: string)

  /** What the upload answers: a JSON error with its status, or a result archive to download. */
  datatype Response =
    | Error(status: nat, message: string)
    | Download(downloadName: string, files: seq<OutputFile>)

  function Min(a: int, b: int): int {
    if a <= b then a else b
  }

  // ---------------------------------------------------------------------------
  // Discovery of the Markdown documents

  /** The walk keeps a file when its own name ends in `.md`. */
  predicate IsMarkdown(e: Entry) {
    EndsWith(BaseName(e.path), ".md")
  }

  /** The elements of `xs` that `keep` accepts, in their order in `xs`. */
  function Filter<T>(xs: seq<T>, keep: T -> bool): seq<T> {
    if xs == [] then []
    else
      var last := xs[|xs| - 1];
      Filter(xs[..|xs| - 1], keep) + (if keep(last) then [last] else [])
  }

  /** An element is kept exactly when it is one of the elements and accepted. */
  lemma {:induction false} FilterMembers<T>(xs: seq<T>, keep: T -> bool)
    ensures forall x :: x in Filter(xs, keep) <==> x in xs && keep(x)
    decreases |xs|
  {
    if xs != [] {
      var front := xs[..|xs| - 1];
      FilterMembers(front, keep);
      assert xs == front + [xs[|xs| - 1]];
    }
  }

  /** Order is kept: what is kept of `a + b` is what is kept of `a`, then what is kept of `b`. */
  lemma {:induction false} FilterAppend<T>(a: seq<T>, b: seq<T>, keep: T -> bool)
    ensures Filter(a + b, keep) == Filter(a, keep) + Filter(b, keep)
    decreases |b|
  {
    if b == [] {
      assert a + b == a;
    } else {
      var front := b[..|b| - 1];
      FilterAppend(a, front, keep);
      assert (a + b)[..|a + b| - 1] == a + front;
      assert (a + b)[|a + b| - 1] == b[|b| - 1];
    }
  }

  /** The Markdown entries, in the order the walk met them. */
  function Markdown(entries: seq<Entry>): seq<Entry> {
    Filter(entries, IsMarkdown)
  }

  /** The walk loop: collect the entries whose name ends in `.md`. */
  method FindMarkdown(entries: seq<Entry>) returns (mdFiles: seq<Entry>)
    ensures mdFiles == Markdown(entries)
  {
    mdFiles := [];
    for j := 0 to |entries|
      invariant mdFiles == Filter(entries[..j], IsMarkdown)
    {
      assert entries[..j + 1][..j] == entries[..j];
      if EndsWith(BaseName(entries[j].path), ".md") {
        mdFiles := mdFiles + [entries[j]];
      }
    }
    assert entries[..|entries|] == entries;
  }

  // ---------------------------------------------------------------------------
  // Single-pass mode

  /** Every document under its own base name, with its content exactly as extracted. */
  function SinglePass(mdFiles: seq<Entry>): seq<OutputFile> {
    seq(|mdFiles|, i requires 0 <= i < |mdFiles| => OutputFile(BaseName(mdFiles[i].path), mdFiles[i].content))
  }

  /** The loop writing the documents into the result archive under their base names. */
  method PackOriginals(mdFiles: seq<Entry>) returns (files: seq<OutputFile>)
    ensures files == SinglePass(mdFiles)
  {
    files := [];
    for j := 0 to |mdFiles|
      invariant files == SinglePass(mdFiles[..j])
    {
      var arcname := BaseName(mdFiles[j].path);
      files := files + [OutputFile(arcname, mdFiles[j].content)];
    }
    assert mdFiles[..|mdFiles|] == mdFiles;
  }

  // ---------------------------------------------------------------------------
  // Batch mode: windows

  /** `md_files[i:i+49]` for `i` in `range(0, n, 49)`: consecutive windows of at most 49. */
  function Windows<T>(docs: seq<T>): seq<seq<T>>
    decreases |docs|
  {
    if docs == [] then []
    else if |docs| <= MaxFilesPerMerge then [docs]
    else [docs[..MaxFilesPerMerge]] + Windows(docs[MaxFilesPerMerge..])
  }

  /** The windows one after the other. */
  function Flatten<T>(ws: seq<seq<T>>): seq<T> {
    if ws == [] then [] else ws[0] + Flatten(ws[1..])
  }

  /**
    The windows partition the documents: laid end to end they give back the
    document list, none is empty, none holds more than 49, and only the last
    may hold fewer.
  */
  lemma {:induction false} WindowsPartition<T>(docs: seq<T>)
    ensures Flatten(Windows(docs)) == docs
    ensures forall k :: 0 <= k < |Windows(docs)| ==> 0 < |Windows(docs)[k]| <= MaxFilesPerMerge
    ensures forall k :: 0 <= k < |Windows(docs)| - 1 ==> |Windows(docs)[k]| == MaxFilesPerMerge
    decreases |docs|
  {
    if |docs| > MaxFilesPerMerge {
      var rest := docs[MaxFilesPerMerge..];
      WindowsPartition(rest);
      var ws := Windows(docs);
      assert ws == [docs[..MaxFilesPerMerge]] + Windows(rest);
      assert ws[1..] == Windows(rest);
      assert forall k :: 0 < k < |ws| ==> ws[k] == Windows(rest)[k - 1];
      assert docs == docs[..MaxFilesPerMerge] + rest;
    } else if docs != [] {
      assert Windows(docs) == [docs];
      assert Windows(docs)[1..] == [];
    }
  }

  /**
    There are `ceil(n / 49)` windows; equivalently, window `b` exists exactly
    when it starts before the end of the list.
  */
  lemma {:induction false} WindowsCount<T>(docs: seq<T>, b: nat)
    ensures |Windows(docs)| == (|docs| + MaxFilesPerMerge - 1) / MaxFilesPerMerge
    ensures b * MaxFilesPerMerge < |docs| <==> b < |Windows(docs)|
    decreases |docs|
  {
    if |docs| > MaxFilesPerMerge {
      WindowsCount(docs[MaxFilesPerMerge..], if b == 0 then 0 else b - 1);
    }
  }

  /** Window `k` is the slice of the documents from position `49 k`, at most 49 long. */
  lemma {:induction false} WindowsAt<T>(docs: seq<T>, k: nat)
    requires k < |Windows(docs)|
    ensures k * MaxFilesPerMerge < |docs|
    ensures Windows(docs)[k]
         == docs[k * MaxFilesPerMerge..Min(k * MaxFilesPerMerge + MaxFilesPerMerge, |docs|)]
    decreases k
  {
    WindowsCount(docs, k);
    if k > 0 {
      var rest := docs[MaxFilesPerMerge..];
      assert Windows(docs) == [docs[..MaxFilesPerMerge]] + Windows(rest);
      WindowsAt(rest, k - 1);
      var lo := (k - 1) * MaxFilesPerMerge;
      var hi := Min(lo + MaxFilesPerMerge, |rest|);
      assert hi + MaxFilesPerMerge == Min(k * MaxFilesPerMerge + MaxFilesPerMerge, |docs|);
      forall i | 0 <= i < hi - lo
        ensures rest[lo..hi][i] == docs[lo + MaxFilesPerMerge..hi + MaxFilesPerMerge][i]
      {
        assert rest[lo..hi][i] == rest[lo + i] == docs[MaxFilesPerMerge + lo + i];
      }
      assert rest[lo..hi] == docs[lo + MaxFilesPerMerge..hi + MaxFilesPerMerge];
    }
  }

  // ---------------------------------------------------------------------------
  // Batch mode: merged text, word count, names

  /**
    The documents of a window as batch mode reads them (in text mode, so with
    universal newlines) with their metadata stripped, in order.
  */
  function Bodies(batch: seq<Entry>): seq<string> {
    if batch == [] then []
    else Bodies(batch[..|batch| - 1]) + [StripMetadata(ReadText(batch[|batch| - 1].content))]
  }

  /** Stripping works document by document, in order. */
  lemma {:induction false} BodiesAppend(a: seq<Entry>, b: seq<Entry>)
    ensures Bodies(a + b) == Bodies(a) + Bodies(b)
    decreases |b|
  {
    if b == [] {
      assert a + b == a;
    } else {
      var front := b[..|b| - 1];
      BodiesAppend(a, front);
      assert (a + b)[..|a + b| - 1] == a + front;
      assert (a + b)[|a + b| - 1] == b[|b| - 1];
    }
  }

  /** Each text followed by a blank line, one after the other. */
  function Concat(texts: seq<string>): string {
    if texts == [] then ""
    else Concat(texts[..|texts| - 1]) + texts[|texts| - 1] + "\n\n"
  }

  /** `merged_content` after a window: its documents without metadata, each followed by a blank line. */
  function MergeText(batch: seq<Entry>): string {
    Concat(Bodies(batch))
  }

  /** Text is merged in order: the merged text of `a + b` is that of `a` followed by that of `b`. */
  lemma {:induction false} ConcatAppend(a: seq<string>, b: seq<string>)
    ensures Concat(a + b) == Concat(a) + Concat(b)
    decreases |b|
  {
    if b == [] {
      assert a + b == a;
    } else {
      var front := b[..|b| - 1];
      var last := b[|b| - 1];
      ConcatAppend(a, front);
      assert (a + b)[..|a + b| - 1] == a + front;
      assert (a + b)[|a + b| - 1] == last;
    }
  }

  /** Merging two runs of documents gives the two merged texts one after the other. */
  lemma MergeTextAppend(a: seq<Entry>, b: seq<Entry>)
    ensures MergeText(a + b) == MergeText(a) + MergeText(b)
  {
    BodiesAppend(a, b);
    ConcatAppend(Bodies(a), Bodies(b));
  }

  /** The sum of the word counts of some texts. */
  function WordTotal(texts: seq<string>): nat {
    if texts == [] then 0
    else WordTotal(texts[..|texts| - 1]) + CountWords(texts[|texts| - 1])
  }

  /**
    The blank line after each text keeps words of neighbouring texts apart:
    the concatenation has exactly as many words as the texts together.
  */
  lemma {:induction false} ConcatWords(texts: seq<string>)
    ensures CountWords(Concat(texts)) == WordTotal(texts)
    decreases |texts|
  {
    if texts != [] {
      var front := texts[..|texts| - 1];
      var text := texts[|texts| - 1];
      ConcatWords(front);
      assert Words(text + "\n\n") == Words(text) by {
        assert text + "\n\n" == text + ['\n'] + "\n";
        WordsAroundSpace(text, '\n', "\n");
        assert Words("\n") == [];
      }
      var prefix := Concat(front);
      assert Concat(texts) == prefix + (text + "\n\n");
      if front == [] {
        assert Concat(texts) == text + "\n\n";
      } else {
        assert prefix[|prefix| - 1] == '\n';
        WordsAfterSpace(prefix, text + "\n\n");
      }
    }
  }

  /** A merged file has exactly as many words as its documents without metadata. */
  lemma MergeTextWords(batch: seq<Entry>)
    ensures CountWords(MergeText(batch)) == WordTotal(Bodies(batch))
  {
    ConcatWords(Bodies(batch));
  }

  /**
    The name of merged file number `batchNumber` whose text has `wordCount`
    words: `merged_part<k>`, then `_OVER50000WORDS.md` above 50000 words and
    `.md` otherwise.
  */
  function MergedName(batchNumber: nat, wordCount: nat): string {
    "merged_part" + (NatToString(batchNumber) + (if wordCount > MaxWords then "_OVER50000WORDS.md" else ".md"))
  }

  /**
    Flagging by `replace(".md", "_OVER50000WORDS.md")` rewrites only the
    extension of `merged_part<k>.md`, since the digits hold no `.`.
  */
  lemma FlagRewritesExtension(batchNumber: nat)
    ensures Replace("merged_part" + NatToString(batchNumber) + ".md", ".md", "_OVER50000WORDS.md")
         == "merged_part" + NatToString(batchNumber) + "_OVER50000WORDS.md"
  {
    var stem := "merged_part" + NatToString(batchNumber);
    forall i | 0 <= i < |stem| ensures stem[i] != '.' {
      if i >= 11 {
        assert stem[i] == NatToString(batchNumber)[i - 11];
      }
    }
    ReplaceExtension(stem, "_OVER50000WORDS.md");
  }

  /** Every merged file's name starts with `merged_part` and ends with `.md`. */
  lemma MergedNameMarked(batchNumber: nat, wordCount: nat)
    ensures StartsWith(MergedName(batchNumber, wordCount), "merged_part")
    ensures EndsWith(MergedName(batchNumber, wordCount), ".md")
    ensures EndsWith(MergedName(batchNumber, wordCount), "_OVER50000WORDS.md") <==> wordCount > MaxWords
  {
    var name := MergedName(batchNumber, wordCount);
    var digits := NatToString(batchNumber);
    var ext := if wordCount > MaxWords then "_OVER50000WORDS.md" else ".md";
    assert name == "merged_part" + (digits + ext);
    assert name[..11] == "merged_part";
    assert name[|name| - |ext|..] == ext;
    assert name[|name| - 3..] == ext[|ext| - 3..];
    if wordCount <= MaxWords && |name| >= 18 {
      assert name[|name| - 4] == digits[|digits| - 1];
      assert name[|name| - 18..][14] != "_OVER50000WORDS.md"[14];
    }
  }

  /**
    The naming step after a window: count the words of the merged text,
    format `merged_part<k>.md`, and flag the name when the text is too long.
  */
  method NameMerged(batchNumber: nat, mergedContent: string) returns (filename: string)
    ensures filename == MergedName(batchNumber, CountWords(mergedContent))
  {
    var wordCount := CountWords(mergedContent);
    filename := "merged_part" + NatToString(batchNumber) + ".md";
    if wordCount > MaxWords {
      FlagRewritesExtension(batchNumber);
      filename := Replace(filename, ".md", "_OVER50000WORDS.md");
    }
  }

  /** Merged file number `batchNumber` of a window. */
  function MergedOutput(batchNumber: nat, batch: seq<Entry>): OutputFile {
    var content := MergeText(batch);
    OutputFile(MergedName(batchNumber, CountWords(content)), content)
  }

  /** The merged files of the documents from window number `batchNumber` on. */
  function MergeFrom(docs: seq<Entry>, batchNumber: nat): seq<OutputFile>
    decreases |docs|
  {
    if docs == [] then []
    else if |docs| <= MaxFilesPerMerge then [MergedOutput(batchNumber, docs)]
    else [MergedOutput(batchNumber, docs[..MaxFilesPerMerge])] + MergeFrom(docs[MaxFilesPerMerge..], batchNumber + 1)
  }

  /** A list holding, for each window in turn, that window merged and numbered from 1 is batch mode's result. */
  lemma MergeAllByWindows(mdFiles: seq<Entry>, files: seq<OutputFile>)
    requires |files| == |Windows(mdFiles)|
    requires forall k :: 0 <= k < |files| ==> files[k] == MergedOutput(k + 1, Windows(mdFiles)[k])
    ensures files == MergeAll(mdFiles)
  {
    MergeFromWindows(mdFiles, 1);
  }

  /** Batch mode's result: one merged file per window, numbered from 1. */
  function MergeAll(mdFiles: seq<Entry>): seq<OutputFile> {
    MergeFrom(mdFiles, 1)
  }

  /** Merged file `k` from window number `n` on is window `k` merged, numbered `n + k`. */
  lemma {:induction false} MergeFromWindows(docs: seq<Entry>, n: nat)
    ensures |MergeFrom(docs, n)| == |Windows(docs)|
    ensures forall k :: 0 <= k < |Windows(docs)| ==> MergeFrom(docs, n)[k] == MergedOutput(n + k, Windows(docs)[k])
    decreases |docs|
  {
    if |docs| > MaxFilesPerMerge {
      var rest := docs[MaxFilesPerMerge..];
      MergeFromWindows(rest, n + 1);
      assert Windows(docs) == [docs[..MaxFilesPerMerge]] + Windows(rest);
      assert MergeFrom(docs, n) == [MergedOutput(n, docs[..MaxFilesPerMerge])] + MergeFrom(rest, n + 1);
    }
  }

  // ---------------------------------------------------------------------------
  // Progress events

  /** The per-document events of the first `m` documents of `total`. */
  function Progress(total: nat, m: nat): seq<ProgressEvent> {
    if m == 0 then [] else Progress(total, m - 1) + [ProgressEvent(total, m, false)]
  }

  /** Batch mode's events: one per document, then the completion event. */
  function ExpectedEvents(n: nat): seq<ProgressEvent> {
    Progress(n, n) + [ProgressEvent(n, n, true)]
  }

  /** Event `j` for the first `m` documents stands for document `j + 1`. */
  lemma {:induction false} ProgressAt(total: nat, m: nat)
    ensures |Progress(total, m)| == m
    ensures forall j :: 0 <= j < m ==> Progress(total, m)[j] == ProgressEvent(total, j + 1, false)
    decreases m
  {
    if m > 0 {
      ProgressAt(total, m - 1);
    }
  }

  /**
    In batch mode the queue receives `n + 1` events, each with total `n`:
    events 1..n for documents 1..n in increasing order and not done, then one
    done event for document `n`. So the index never decreases and only the
    last event is a completion event.
  */
  lemma ExpectedEventsOrder(n: nat)
    ensures |ExpectedEvents(n)| == n + 1
    ensures forall j :: 0 <= j < n ==> ExpectedEvents(n)[j] == ProgressEvent(n, j + 1, false)
    ensures ExpectedEvents(n)[n] == ProgressEvent(n, n, true)
    ensures forall j :: 0 <= j <= n ==> ExpectedEvents(n)[j].totalFiles == n
    ensures forall j :: 0 <= j <= n ==> (ExpectedEvents(n)[j].done <==> j == n)
    ensures forall j, k :: 0 <= j < k < n ==> ExpectedEvents(n)[j].currentIndex < ExpectedEvents(n)[k].currentIndex
    ensures forall j, k :: 0 <= j <= k <= n ==> ExpectedEvents(n)[j].currentIndex <= ExpectedEvents(n)[k].currentIndex
  {
    ProgressAt(n, n);
    var es := ExpectedEvents(n);
    assert forall j :: 0 <= j < n ==> es[j] == Progress(n, n)[j];
  }

  /** A subscriber reading the batch-mode events gets every one of them and stops at the completion event. */
  lemma SubscriberSeesAllEvents(n: nat, later: seq<ProgressEvent>)
    ensures UntilDone(ExpectedEvents(n) + later) == ExpectedEvents(n)
  {
    ProgressAt(n, n);
    UntilDoneStops(Progress(n, n), ProgressEvent(n, n, true), later);
  }

  // ---------------------------------------------------------------------------
  // The whole upload

  /** The answer to an upload together with the events it leaves on the session's queue. */
  datatype Outcome = Outcome(response: Response, events: seq<ProgressEvent>)

  /**
    What `upload_zip` does with an archive (`None` when it is not a valid ZIP
    file) under the uploaded file name.
  */
  function Process(archive: Option<seq<Entry>>, uploadName: string): Outcome {
    match archive
    case None => Outcome(Error(400, "Invalid ZIP file"), [])
    case Some(entries) =>
      var mdFiles := Markdown(entries);
      if |mdFiles| <= SinglePassMax then Outcome(Download(uploadName, SinglePass(mdFiles)), [])
      else Outcome(Download("merged_files.zip", MergeAll(mdFiles)), ExpectedEvents(|mdFiles|))
  }

  /**
    At most 50 documents: the result archive, under the uploaded name, holds
    exactly the documents, each under its base name with its raw content, and
    no event is queued.
  */
  lemma ProcessSinglePass(entries: seq<Entry>, uploadName: string)
    requires |Markdown(entries)| <= SinglePassMax
    ensures var out := Process(Some(entries), uploadName);
      && out.events == []
      && out.response.Download? && out.response.downloadName == uploadName
      && |out.response.files| == |Markdown(entries)|
      && forall i :: 0 <= i < |Markdown(entries)| ==>
           out.response.files[i] == OutputFile(BaseName(Markdown(entries)[i].path), Markdown(entries)[i].content)
  {
  }

  /**
    More than 50 documents: the answer is `merged_files.zip` with one merged
    file per window of 49 documents. File `k` holds window `k` merged in
    order and is named `merged_part<k+1>`, flagged by its own word count, and
    no two files share a name. The queue receives one event per document,
    numbered from 1, then the completion event.
  */
  lemma ProcessBatch(entries: seq<Entry>, uploadName: string)
    requires |Markdown(entries)| > SinglePassMax
    ensures var md := Markdown(entries);
      var n := |md|;
      var out := Process(Some(entries), uploadName);
      && out.response.Download? && out.response.downloadName == "merged_files.zip"
      && |out.response.files| == (n + MaxFilesPerMerge - 1) / MaxFilesPerMerge == |Windows(md)|
      && (forall k :: 0 <= k < |out.response.files| ==>
            && out.response.files[k].content == MergeText(Windows(md)[k])
            && out.response.files[k].name == MergedName(k + 1, CountWords(out.response.files[k].content)))
      && (forall j, k :: 0 <= j < k < |out.response.files| ==> out.response.files[j].name != out.response.files[k].name)
      && |out.events| == n + 1
      && (forall j :: 0 <= j < n ==> out.events[j] == ProgressEvent(n, j + 1, false))
      && out.events[n] == ProgressEvent(n, n, true)
  {
    var md := Markdown(entries);
    assert Process(Some(entries), uploadName) == Outcome(Download("merged_files.zip", MergeAll(md)), ExpectedEvents(|md|));
    MergeAllFiles(md);
    MergeAllNamesDistinct(md);
    ExpectedEventsOrder(|md|);
  }

  /**
    Batch mode yields `ceil(n / 49)` merged files; file `k` holds window `k`
    of the documents merged in order and is named `merged_part<k+1>` with the
    flag decided by its own word count.
  */
  lemma MergeAllFiles(mdFiles: seq<Entry>)
    ensures |MergeAll(mdFiles)| == (|mdFiles| + MaxFilesPerMerge - 1) / MaxFilesPerMerge
    ensures |MergeAll(mdFiles)| == |Windows(mdFiles)|
    ensures forall k :: 0 <= k < |MergeAll(mdFiles)| ==>
      && MergeAll(mdFiles)[k].content == MergeText(Windows(mdFiles)[k])
      && MergeAll(mdFiles)[k].name == MergedName(k + 1, CountWords(MergeAll(mdFiles)[k].content))
  {
    WindowsCount(mdFiles, 0);
    MergeFromWindows(mdFiles, 1);
  }

  /** Every name in a batch-mode result carries `merged_part` at its start and `.md` at its end. */
  lemma MergedNamesMarked(mdFiles: seq<Entry>)
    ensures forall k :: 0 <= k < |MergeAll(mdFiles)| ==>
      StartsWith(MergeAll(mdFiles)[k].name, "merged_part") && EndsWith(MergeAll(mdFiles)[k].name, ".md")
  {
    MergeAllFiles(mdFiles);
    forall k | 0 <= k < |MergeAll(mdFiles)|
      ensures StartsWith(MergeAll(mdFiles)[k].name, "merged_part") && EndsWith(MergeAll(mdFiles)[k].name, ".md")
    {
      MergedNameMarked(k + 1, CountWords(MergeAll(mdFiles)[k].content));
    }
  }

  /** Merged files with different numbers get different names, whatever their word counts. */
  lemma MergedNameInjective(j: nat, k: nat, wj: nat, wk: nat)
    ensures MergedName(j, wj) == MergedName(k, wk) ==> j == k
  {
    if MergedName(j, wj) == MergedName(k, wk) {
      var ej := if wj > MaxWords then "_OVER50000WORDS.md" else ".md";
      var ek := if wk > MaxWords then "_OVER50000WORDS.md" else ".md";
      var tj, tk := NatToString(j) + ej, NatToString(k) + ek;
      assert MergedName(j, wj) == "merged_part" + tj;
      assert MergedName(k, wk) == "merged_part" + tk;
      assert tj == tk by {
        assert ("merged_part" + tj)[11..] == tj;
        assert ("merged_part" + tk)[11..] == tk;
      }
      LeadingDigitsOf(NatToString(j), ej);
      LeadingDigitsOf(NatToString(k), ek);
      NatToStringValue(j);
      NatToStringValue(k);
    }
  }

  /** No two files of a batch-mode result share a name, so none overwrites another in the archive. */
  lemma MergeAllNamesDistinct(mdFiles: seq<Entry>)
    ensures forall j, k :: 0 <= j < k < |MergeAll(mdFiles)| ==> MergeAll(mdFiles)[j].name != MergeAll(mdFiles)[k].name
  {
    var files := MergeAll(mdFiles);
    MergeAllFiles(mdFiles);
    forall j, k | 0 <= j < k < |files| ensures files[j].name != files[k].name {
      MergedNameInjective(j + 1, k + 1, CountWords(files[j].content), CountWords(files[k].content));
    }
  }

  /**
    Merging the slice of the next 49 documents and naming it by its number
    and word count extends a list of the windows merged so far.
  */
  lemma AppendMerged(mdFiles: seq<Entry>, done: seq<OutputFile>, content: string, filename: string)
    requires |done| < |Windows(mdFiles)|
    requires forall k :: 0 <= k < |done| ==> done[k] == MergedOutput(k + 1, Windows(mdFiles)[k])
    requires var i := |done| * MaxFilesPerMerge;
      i <= |mdFiles| && content == MergeText(mdFiles[i..Min(i + MaxFilesPerMerge, |mdFiles|)])
    requires filename == MergedName(|done| + 1, CountWords(content))
    ensures forall k :: 0 <= k < |done| + 1 ==>
      (done + [OutputFile(filename, content)])[k] == MergedOutput(k + 1, Windows(mdFiles)[k])
  {
    var ws := Windows(mdFiles);
    var b := |done|;
    var next := OutputFile(filename, content);
    assert next == MergedOutput(b + 1, ws[b]) by {
      WindowsAt(mdFiles, b);
    }
    forall k | 0 <= k < b + 1 ensures (done + [next])[k] == MergedOutput(k + 1, ws[k]) {
      if k < b {
        assert (done + [next])[k] == done[k];
      }
    }
  }

  /** Merging one more document of a window appends its body and a blank line. */
  lemma MergeTextStep(batch: seq<Entry>, idx: nat)
    requires idx < |batch|
    ensures MergeText(batch[..idx + 1]) == MergeText(batch[..idx]) + StripMetadata(ReadText(batch[idx].content)) + "\n\n"
  {
    assert batch[..idx + 1][..idx] == batch[..idx];
  }

  /**
    The inner loop of batch mode over one window whose first document is
    number `offset + 1` of `total`: put one event per document, numbered on
    from `offset`, and append the document's text without metadata and a
    blank line.
  */
  method MergeWindow(batch: seq<Entry>, offset: nat, total: nat, progressQueue: ProgressQueue,
                     ghost earlier: seq<ProgressEvent>)
    returns (mergedContent: string, currentIndex: nat)
    requires progressQueue.items == earlier + Progress(total, offset)
    modifies progressQueue
    ensures mergedContent == MergeText(batch)
    ensures currentIndex == offset + |batch|
    ensures progressQueue.items == earlier + Progress(total, currentIndex)
  {
    mergedContent := "";
    currentIndex := offset;
    for idx := 0 to |batch|
      invariant mergedContent == MergeText(batch[..idx])
      invariant currentIndex == offset + idx
      invariant progressQueue.items == earlier + Progress(total, offset + idx)
    {
      currentIndex := idx + offset + 1;
      progressQueue.Put(ProgressEvent(total, currentIndex, false));
      var content := ReadText(batch[idx].content);
      content := StripMetadata(content);
      MergeTextStep(batch, idx);
      mergedContent := mergedContent + content + "\n\n";
    }
    assert batch[..|batch|] == batch;
  }

  /**
    The outer loop of batch mode: take the documents 49 at a time, merge each
    window, and name the merged text by its number and its word count.
  */
  method MergeBatches(mdFiles: seq<Entry>, progressQueue: ProgressQueue)
    returns (mergedFiles: seq<OutputFile>, currentIndex: nat)
    modifies progressQueue
    ensures mergedFiles == MergeAll(mdFiles)
    ensures currentIndex == |mdFiles|
    ensures progressQueue.items == old(progressQueue.items) + Progress(|mdFiles|, |mdFiles|)
  {
    var mdCount := |mdFiles|;
    ghost var earlier := progressQueue.items;
    ghost var ws := Windows(mdFiles);
    WindowsCount(mdFiles, 0);
    mergedFiles := [];
    currentIndex := 0;
    var i := 0;
    ghost var b: nat := 0;
    while i < mdCount
      invariant i == b * MaxFilesPerMerge && b <= |ws|
      invariant b < |ws| <==> i < mdCount
      invariant currentIndex == Min(i, mdCount)
      invariant |mergedFiles| == b
      invariant forall k :: 0 <= k < b ==> mergedFiles[k] == MergedOutput(k + 1, ws[k])
      invariant progressQueue.items == earlier + Progress(mdCount, currentIndex)
      decreases mdCount - i
    {
      var batch := mdFiles[i..Min(i + MaxFilesPerMerge, mdCount)];
      var mergedContent;
      mergedContent, currentIndex := MergeWindow(batch, i, mdCount, progressQueue, earlier);
      assert currentIndex == Min(i + MaxFilesPerMerge, mdCount);
      assert i / MaxFilesPerMerge == b;
      var filename := NameMerged(i / MaxFilesPerMerge + 1, mergedContent);
      AppendMerged(mdFiles, mergedFiles, mergedContent, filename);
      mergedFiles := mergedFiles + [OutputFile(filename, mergedContent)];
      i := i + MaxFilesPerMerge;
      b := b + 1;
      WindowsCount(mdFiles, b);
    }
    MergeAllByWindows(mdFiles, mergedFiles);
  }

  /**
    `upload_zip`: make sure the session has a queue, reject an archive that is
    not a ZIP file, find the Markdown files, then answer in single-pass or
    batch mode. The session's queue receives exactly the events of that mode
    after whatever it held; no other queue changes.
  */
  method UploadZip(registry: Registry, sessionId: string, uploadName: string, archive: Option<seq<Entry>>)
    returns (resp: Response)
    requires registry.Valid()
    modifies registry, registry.queues.Values
    ensures registry.Valid()
    ensures sessionId in registry.queues
    ensures sessionId in old(registry.queues) ==> registry.queues == old(registry.queues)
    ensures sessionId !in old(registry.queues) ==>
      registry.queues == old(registry.queues)[sessionId := registry.queues[sessionId]]
    ensures resp == Process(archive, uploadName).response
    ensures registry.queues[sessionId].items
         == (if sessionId in old(registry.queues) then old(registry.queues[sessionId].items) else [])
            + Process(archive, uploadName).events
    ensures forall s :: s in old(registry.queues) && s != sessionId ==>
      registry.queues[s].items == old(registry.queues[s].items)
  {
    var progressQueue := registry.Ensure(sessionId);
    assert forall s :: s in registry.queues && s != sessionId ==> registry.queues[s] != progressQueue;
    ghost var pending := progressQueue.items;
    var totalFiles := 0;
    var currentIndex := 0;
    var done := false;

    if archive.None? {
      assert pending + [] == pending;
      return Error(400, "Invalid ZIP file");
    }
    var mdFiles := FindMarkdown(archive.value);
    var mdCount := |mdFiles|;
    totalFiles := mdCount;

    if mdCount <= SinglePassMax {
      var files := PackOriginals(mdFiles);
      done := true;
      assert Process(archive, uploadName) == Outcome(Download(uploadName, files), []) by {
        assert mdFiles == Markdown(archive.value);
      }
      assert pending + [] == pending;
      return Download(uploadName, files);
    }

    var mergedFiles;
    mergedFiles, currentIndex := MergeBatches(mdFiles, progressQueue);
    done := true;
    progressQueue.Put(ProgressEvent(totalFiles, currentIndex, done));
    assert Process(archive, uploadName) == Outcome(Download("merged_files.zip", mergedFiles), ExpectedEvents(mdCount)) by {
      assert mdFiles == Markdown(archive.value) && mdCount > SinglePassMax;
    }
    ghost var run, last := Progress(mdCount, mdCount), [ProgressEvent(mdCount, mdCount, true)];
    assert progressQueue.items == (pending + run) + last;
    assert (pending + run) + last == pending + ExpectedEvents(mdCount);
    return Download("merged_files.zip", mergedFiles);
  }
}
