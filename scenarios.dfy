/**
  The situations the repository's test suite exercises, stated and proved on
  the model: archives of numbered documents below, at and above the
  single-pass threshold, front matter removal, the word-count flag, nested
  folders, empty documents and the rejected uploads.
*/
module Scenarios {
  import opened Wrappers
  import opened PyStr
  import opened Documents
  import opened Merge
  import opened Upload

  /** The archive the tests build: `n` top-level documents `0.md` … `<n-1>.md`, all with the same content. */
  function NumberedDocs(n: nat, content: string): (entries: seq<Entry>)
    ensures |entries| == n
    ensures forall i :: 0 <= i < n ==> entries[i] == Entry(NatToString(i) + ".md", content)
  {
    if n == 0 then [] else NumberedDocs(n - 1, content) + [Entry(NatToString(n - 1) + ".md", content)]
  }

  /** `s` holds no character `ch`. */
  predicate Lacks(s: string, ch: char) {
    ch !in s
  }

  /** A path without a separator is its own base name. */
  lemma FlatBaseName(path: string)
    requires Lacks(path, '/')
    ensures BaseName(path) == path
  {
  }

  /** Filtering with a test every element passes keeps the sequence whole. */
  lemma {:induction false} FilterKeepsAll<T>(xs: seq<T>, keep: T -> bool)
    requires forall i :: 0 <= i < |xs| ==> keep(xs[i])
    ensures Filter(xs, keep) == xs
    decreases |xs|
  {
    if xs != [] {
      FilterKeepsAll(xs[..|xs| - 1], keep);
      assert xs[..|xs| - 1] + [xs[|xs| - 1]] == xs;
    }
  }

  /** Filtering with a test no element passes leaves nothing. */
  lemma {:induction false} FilterKeepsNone<T>(xs: seq<T>, keep: T -> bool)
    requires forall i :: 0 <= i < |xs| ==> !keep(xs[i])
    ensures Filter(xs, keep) == []
    decreases |xs|
  {
    if xs != [] {
      FilterKeepsNone(xs[..|xs| - 1], keep);
    }
  }

  /** The name of numbered document `i` has no folder part: it is its own base name, and a Markdown name. */
  lemma NumberedName(i: nat)
    ensures BaseName(NatToString(i) + ".md") == NatToString(i) + ".md"
    ensures EndsWith(NatToString(i) + ".md", ".md")
  {
    var digits := NatToString(i);
    var name := digits + ".md";
    forall j | 0 <= j < |name| ensures name[j] != '/' {
      if j >= |digits| {
        assert name[j] == ".md"[j - |digits|];
      } else {
        assert name[j] == digits[j];
      }
    }
    FlatBaseName(name);
    assert name[|name| - 3..] == ".md";
  }

  /** Every numbered document is a Markdown document, so discovery keeps them all, in order. */
  lemma NumberedDocsAreMarkdown(n: nat, content: string)
    ensures Markdown(NumberedDocs(n, content)) == NumberedDocs(n, content)
  {
    var docs := NumberedDocs(n, content);
    forall i | 0 <= i < n ensures IsMarkdown(docs[i]) {
      NumberedName(i);
    }
    FilterKeepsAll(docs, IsMarkdown);
  }

  /** An archive without Markdown documents gives an empty archive under the uploaded name and no event. */
  lemma NoMarkdownGivesEmptyArchive(entries: seq<Entry>, uploadName: string)
    requires forall i :: 0 <= i < |entries| ==> !IsMarkdown(entries[i])
    ensures Process(Some(entries), uploadName) == Outcome(Download(uploadName, []), [])
  {
    FilterKeepsNone(entries, IsMarkdown);
    assert SinglePass([]) == [];
  }

  /** A single top-level text file (the test's is `text.txt`): the answer is 200 with an empty archive. */
  lemma TextFileOnly(path: string, content: string, uploadName: string)
    requires Lacks(path, '/') && EndsWith(path, ".txt")
    ensures Process(Some([Entry(path, content)]), uploadName).response == Download(uploadName, [])
  {
    var e := Entry(path, content);
    FlatBaseName(path);
    assert path[|path| - 3] == ".txt"[1];
    assert !IsMarkdown(e);
    NoMarkdownGivesEmptyArchive([e], uploadName);
  }

  /** Up to 50 numbered documents (the tests use 20 and exactly 50) come back as they are, each under its own name. */
  lemma FewNumberedDocsPassThrough(n: nat, content: string)
    requires n <= SinglePassMax
    ensures var out := Process(Some(NumberedDocs(n, content)), "test.zip");
      && out.response.Download? && out.response.downloadName == "test.zip"
      && |out.response.files| == n
      && forall i :: 0 <= i < n ==> out.response.files[i] == OutputFile(NatToString(i) + ".md", content)
  {
    var docs := NumberedDocs(n, content);
    NumberedDocsAreMarkdown(n, content);
    ProcessSinglePass(docs, "test.zip");
    var files := Process(Some(docs), "test.zip").response.files;
    forall i | 0 <= i < n ensures files[i] == OutputFile(NatToString(i) + ".md", content) {
      assert docs[i] == Entry(NatToString(i) + ".md", content);
      NumberedName(i);
    }
  }

  /** More than 50 numbered documents are merged into `ceil(n / 49)` files, all named `merged_part…`. */
  lemma ManyNumberedDocsMerge(n: nat, content: string)
    requires n > SinglePassMax
    ensures var out := Process(Some(NumberedDocs(n, content)), "test.zip");
      && out.response.Download? && out.response.downloadName == "merged_files.zip"
      && |out.response.files| == (n + MaxFilesPerMerge - 1) / MaxFilesPerMerge
      && forall k :: 0 <= k < |out.response.files| ==> StartsWith(out.response.files[k].name, "merged_part")
  {
    var docs := NumberedDocs(n, content);
    NumberedDocsAreMarkdown(n, content);
    assert Process(Some(docs), "test.zip").response == Download("merged_files.zip", MergeAll(docs));
    MergeAllFiles(docs);
    MergedNamesMarked(docs);
  }

  /** A thousand documents give 21 merged files, fewer than 25. */
  lemma ThousandDocs(content: string)
    ensures var out := Process(Some(NumberedDocs(1000, content)), "test.zip");
      out.response.Download? && |out.response.files| == 21 < 25
  {
    ManyNumberedDocsMerge(1000, content);
  }

  /** Documents with one and the same content have that content's body each, as batch mode reads it. */
  lemma {:induction false} BodiesUniform(batch: seq<Entry>, content: string)
    requires forall i :: 0 <= i < |batch| ==> batch[i].content == content
    ensures |Bodies(batch)| == |batch|
    ensures forall k :: 0 <= k < |batch| ==> Bodies(batch)[k] == StripMetadata(ReadText(content))
    decreases |batch|
  {
    if batch != [] {
      BodiesUniform(batch[..|batch| - 1], content);
    }
  }

  /** Texts that lack a character other than a newline merge into a text that lacks it too. */
  lemma {:induction false} ConcatLacks(texts: seq<string>, ch: char)
    requires ch != '\n'
    requires forall k :: 0 <= k < |texts| ==> Lacks(texts[k], ch)
    ensures Lacks(Concat(texts), ch)
    decreases |texts|
  {
    if texts != [] {
      ConcatLacks(texts[..|texts| - 1], ch);
      var front := Concat(texts[..|texts| - 1]);
      var last := texts[|texts| - 1];
      forall i | 0 <= i < |Concat(texts)| ensures Concat(texts)[i] != ch {
        if i < |front| {
          assert Concat(texts)[i] == front[i];
        } else if i < |front| + |last| {
          assert Concat(texts)[i] == last[i - |front|];
        }
      }
    }
  }

  /** A text that lacks one of the characters of a pattern holds no occurrence of it. */
  lemma LacksNoOccurrence(s: string, pat: string, j: nat)
    requires j < |pat| && Lacks(s, pat[j])
    ensures forall i :: !OccursAt(s, pat, i)
  {
    forall i ensures !OccursAt(s, pat, i) {
      if 0 <= i && i + |pat| <= |s| {
        assert s[i..i + |pat|][j] == s[i + j];
        assert s[i + j] in s;
      }
    }
  }

  /** The first window of documents that all have the same content merges into bodies of that content only. */
  lemma FirstMergedUniform(n: nat, content: string)
    requires n > SinglePassMax
    ensures var out := Process(Some(NumberedDocs(n, content)), "test.zip");
      && out.response.Download? && out.response.files != []
      && out.response.files[0].content == MergeText(NumberedDocs(n, content)[..MaxFilesPerMerge])
      && out.response.files[0].name
         == MergedName(1, WordTotal(Bodies(NumberedDocs(n, content)[..MaxFilesPerMerge])))
  {
    var docs := NumberedDocs(n, content);
    NumberedDocsAreMarkdown(n, content);
    assert Process(Some(docs), "test.zip").response == Download("merged_files.zip", MergeAll(docs));
    MergeAllFiles(docs);
    WindowsAt(docs, 0);
    MergeTextWords(docs[..MaxFilesPerMerge]);
  }

  /** When every document's body lacks a character other than a newline, so does the first merged file. */
  lemma FirstMergedLacks(n: nat, content: string, ch: char)
    requires n > SinglePassMax && ch != '\n' && Lacks(StripMetadata(ReadText(content)), ch)
    ensures var out := Process(Some(NumberedDocs(n, content)), "test.zip");
      out.response.Download? && out.response.files != [] && Lacks(out.response.files[0].content, ch)
  {
    var batch := NumberedDocs(n, content)[..MaxFilesPerMerge];
    assert Lacks(MergeText(batch), ch) by {
      BodiesUniform(batch, content);
      ConcatLacks(Bodies(batch), ch);
    }
    FirstMergedUniform(n, content);
  }

  /**
    More than 50 documents that open with a front matter block `---` meta
    `---`, a blank line and a body: when the body has neither `:` nor `-`,
    no `title:`, `url:` or `---` is left in the first merged file, whatever
    the block held (as long as it has no `-` of its own).
  */
  lemma FrontMatterGone(n: nat, meta: string, body: string)
    requires n > SinglePassMax
    requires Lacks(meta, '-') && Lacks(body, ':') && Lacks(body, '-') && (body != [] ==> !IsSpace(body[0]))
    requires Lacks(meta, '\r') && Lacks(body, '\r')
    ensures var out := Process(Some(NumberedDocs(n, Marker + meta + Marker + "\n\n" + body)), "test.zip");
      && out.response.Download? && out.response.files != []
      && (forall i :: !OccursAt(out.response.files[0].content, "title:", i))
      && (forall i :: !OccursAt(out.response.files[0].content, "url:", i))
      && (forall i :: !OccursAt(out.response.files[0].content, "---", i))
  {
    var content := Marker + meta + Marker + "\n\n" + body;
    assert ReadText(content) == content by {
      ReadTextPlain(content);
    }
    StripMetadataBlock(meta, "\n\n", body);
    FirstMergedLacks(n, content, ':');
    FirstMergedLacks(n, content, '-');
    var merged := Process(Some(NumberedDocs(n, content)), "test.zip").response.files[0].content;
    LacksNoOccurrence(merged, "title:", 5);
    LacksNoOccurrence(merged, "url:", 3);
    LacksNoOccurrence(merged, "---", 0);
  }

  /** The test's document, which it repeats sixty times: a `title` and a `url` in the front matter. */
  lemma TestFrontMatterGone(n: nat)
    requires n > SinglePassMax
    ensures var out := Process(Some(NumberedDocs(n, MetadataDoc())), "test.zip");
      && out.response.Download? && out.response.files != []
      && (forall i :: !OccursAt(out.response.files[0].content, "title:", i))
      && (forall i :: !OccursAt(out.response.files[0].content, "url:", i))
      && (forall i :: !OccursAt(out.response.files[0].content, "---", i))
  {
    TestMetaPlain();
    TestBodyPlain();
    TestBodyNoReturn();
    FrontMatterGone(n, TestMeta, TestBody);
  }

  /** The front matter block of the test's document, between its two `---` lines. */
  const TestMeta: string := "\ntitle: \"test\"\nurl: \"example.com\"\n"
  /** The body of the test's document: a heading and a line of text. */
  const TestBody: string := "## Dummy_title\nfiller_content"

  /** The document of the front matter test: a YAML block, a blank line, a heading and a line of text. */
  function MetadataDoc(): string {
    Marker + TestMeta + Marker + "\n\n" + TestBody
  }

  /** The test's block has no `-` and no carriage return. */
  lemma TestMetaPlain()
    ensures Lacks(TestMeta, '-') && Lacks(TestMeta, '\r')
  {
  }

  /** The test's body has neither `:` nor `-`. */
  lemma TestBodyPlain()
    ensures Lacks(TestBody, ':') && Lacks(TestBody, '-')
  {
  }

  /** The test's body has no carriage return and does not start with whitespace. */
  lemma TestBodyNoReturn()
    ensures Lacks(TestBody, '\r') && !IsSpace(TestBody[0])
  {
  }

  /** Texts that are all the same add up to that text's word count once per text. */
  lemma {:induction false} WordTotalUniform(texts: seq<string>, t: string)
    requires forall k :: 0 <= k < |texts| ==> texts[k] == t
    ensures WordTotal(texts) == |texts| * CountWords(t)
    decreases |texts|
  {
    if texts != [] {
      WordTotalUniform(texts[..|texts| - 1], t);
    }
  }

  /** A repetition starts with the repeated text. */
  lemma {:induction false} RepeatStarts(s: string, k: nat)
    requires k > 0
    ensures StartsWith(Repeat(s, k), s)
    decreases k
  {
    if k > 1 {
      RepeatStarts(s, k - 1);
    }
  }

  /** A repetition of a text without a carriage return has none either. */
  lemma {:induction false} RepeatNoReturn(s: string, k: nat)
    requires Lacks(s, '\r')
    ensures Lacks(Repeat(s, k), '\r')
    decreases k
  {
    if k > 0 {
      RepeatNoReturn(s, k - 1);
    }
  }

  /** `k > 0` copies of a word that does not start with `-`, each followed by a space: no front matter, `k` words. */
  lemma RepeatedWordsBody(w: string, k: nat)
    requires IsWord(w) && w[0] != '-' && k > 0
    ensures StripMetadata(ReadText(Repeat(w + " ", k))) == Repeat(w + " ", k)
    ensures CountWords(Repeat(w + " ", k)) == k
  {
    var content := Repeat(w + " ", k);
    assert ReadText(content) == content by {
      assert Lacks(w + " ", '\r') by {
        forall i | 0 <= i < |w| ensures w[i] != '\r' {
          assert !IsSpace(w[i]);
        }
      }
      RepeatNoReturn(w + " ", k);
      ReadTextPlain(content);
    }
    RepeatStarts(w + " ", k);
    assert content[0] == (w + " ")[0] == w[0];
    assert !StartsWith(content, Marker) by {
      if |content| >= 3 {
        assert content[..3][0] == content[0];
      }
    }
    StripMetadataUnchanged(content);
    CountWordsRepeat(w, k);
  }

  /**
    More than 50 documents of `k` copies of a word and a space, with
    49 * k above 50000 (the test has 70 documents of `"Hello " * 2000`):
    the first merged file carries the word-count flag.
  */
  lemma RepeatedWordsFlagged(n: nat, w: string, k: nat)
    requires n > SinglePassMax && IsWord(w) && k * MaxFilesPerMerge > MaxWords
    requires w[0] != '-'
    ensures var out := Process(Some(NumberedDocs(n, Repeat(w + " ", k))), "test.zip");
      && out.response.Download? && out.response.files != []
      && EndsWith(out.response.files[0].name, "_OVER50000WORDS.md")
  {
    var content := Repeat(w + " ", k);
    FirstMergedUniform(n, content);
    var batch := NumberedDocs(n, content)[..MaxFilesPerMerge];
    BodiesUniform(batch, content);
    RepeatedWordsBody(w, k);
    WordTotalUniform(Bodies(batch), content);
    assert WordTotal(Bodies(batch)) == MaxFilesPerMerge * k;
    MergedNameMarked(1, WordTotal(Bodies(batch)));
  }

  /** The test's instance: 70 documents of two thousand `Hello`s. */
  lemma HelloFlagged()
    ensures var out := Process(Some(NumberedDocs(70, Repeat("Hello" + " ", 2000))), "test.zip");
      out.response.Download? && out.response.files != []
      && EndsWith(out.response.files[0].name, "_OVER50000WORDS.md")
  {
    assert IsWord("Hello");
    RepeatedWordsFlagged(70, "Hello", 2000);
  }

  /** A path in a folder has the text after the last separator as its base name. */
  lemma {:induction false} BaseNameInFolder(dir: string, name: string)
    requires Lacks(name, '/')
    ensures BaseName(dir + "/" + name) == name
    decreases |name|
  {
    var path := dir + "/" + name;
    if name == [] {
      assert path[|path| - 1] == '/';
    } else {
      var front := name[..|name| - 1];
      BaseNameInFolder(dir, front);
      assert path[..|path| - 1] == dir + "/" + front;
      assert path[|path| - 1] == name[|name| - 1];
      assert front + [name[|name| - 1]] == name;
    }
  }

  /** When every entry is a Markdown document and there are at most 50, the archive comes back document for document. */
  lemma AllMarkdownPassThrough(entries: seq<Entry>, uploadName: string)
    requires forall i :: 0 <= i < |entries| ==> IsMarkdown(entries[i])
    requires |entries| <= SinglePassMax
    ensures Process(Some(entries), uploadName).response == Download(uploadName, SinglePass(entries))
  {
    FilterKeepsAll(entries, IsMarkdown);
  }

  /**
    Documents in folders (the test nests them one and two levels deep) come
    back flattened: each under the part of its path after the last `/`,
    with its content unchanged.
  */
  lemma NestedFolders(entries: seq<Entry>, uploadName: string, dirs: seq<string>, names: seq<string>)
    requires |entries| <= SinglePassMax && |dirs| == |entries| && |names| == |entries|
    requires forall i :: 0 <= i < |entries| ==>
      entries[i].path == dirs[i] + "/" + names[i] && Lacks(names[i], '/') && EndsWith(names[i], ".md")
    ensures var out := Process(Some(entries), uploadName).response;
      && out == Download(uploadName, out.files)
      && |out.files| == |entries|
      && forall i :: 0 <= i < |entries| ==> out.files[i] == OutputFile(names[i], entries[i].content)
  {
    forall i | 0 <= i < |entries| ensures BaseName(entries[i].path) == names[i] {
      BaseNameInFolder(dirs[i], names[i]);
    }
    AllMarkdownPassThrough(entries, uploadName);
  }

  /** Bytes that are not a ZIP archive pass the request checks under a `.zip` name and are answered with 400. */
  lemma NotAnArchiveRejected()
    ensures Validate(Some(UploadedFile("bad.zip", None))) == None
    ensures Process(None, "bad.zip").response == Error(400, "Invalid ZIP file")
  {
    assert EndsWith("bad.zip", ".zip");
  }

  /** A text file is refused by the request checks before anything is opened. */
  lemma TextUploadRefused(archive: Option<seq<Entry>>)
    ensures Validate(Some(UploadedFile("not_a_zip.txt", archive))) == Some("Only ZIP files are allowed")
  {
    assert !EndsWith("not_a_zip.txt", ".zip") by { assert "not_a_zip.txt"[10] != 'z'; }
  }
}
