/**
  What the service does to the text of one Markdown document: reading it in
  text mode with universal newlines, the removal of
  a leading metadata block delimited by `---` lines, and `count_words`, the
  whitespace word count used to flag oversized merged files.
*/
module Documents {
  import opened Wrappers
  import opened PyStr

  /** The metadata delimiter. */
  const Marker: string := "---"

  /**
    Metadata removal as `upload_zip` does it for every merged document: when the
    text starts with `---` and `split("---", 2)` yields three parts, keep the
    third part with its leading whitespace stripped; otherwise keep the text.
  */
  function StripMetadata(content: string): string {
    if StartsWith(content, Marker) then
      var parts := Split(content, Marker, 2);
      if |parts| == 3 then LStrip(parts[2]) else content
    else content
  }

  /**
    What `f.read()` returns for a file opened in text mode with universal
    newlines: every `"\r\n"` and every lone `"\r"` becomes `"\n"`.
  */
  function ReadText(raw: string): (text: string)
    ensures '\r' !in text
    ensures |text| <= |raw|
    decreases |raw|
  {
    if raw == [] then []
    else if raw[0] == '\r' then
      "\n" + ReadText(if |raw| > 1 && raw[1] == '\n' then raw[2..] else raw[1..])
    else [raw[0]] + ReadText(raw[1..])
  }

  /** A text without a carriage return reads back unchanged. */
  lemma {:induction false} ReadTextPlain(raw: string)
    requires '\r' !in raw
    ensures ReadText(raw) == raw
    decreases |raw|
  {
    if raw != [] {
      assert raw[0] in raw;
      assert forall c :: c in raw[1..] ==> c in raw;
      ReadTextPlain(raw[1..]);
    }
  }

  /** A Windows line ending, `"\r\n"`, is read as `"\n"`. */
  lemma ReadTextCrLf(a: string, b: string)
    requires '\r' !in a && '\r' !in b
    ensures ReadText(a + "\r\n" + b) == a + "\n" + b
  {
    var crlf := "\r\n" + b;
    ReadTextPlain(b);
    assert crlf[0] == '\r' && crlf[1] == '\n' && crlf[2..] == b;
    ReadTextAfterPlain(a, crlf);
    assert a + "\r\n" + b == a + crlf;
  }

  /** An old Mac line ending, a `"\r"` not followed by `"\n"`, is read as `"\n"`. */
  lemma ReadTextCr(a: string, b: string)
    requires '\r' !in a && '\r' !in b && (b != [] ==> b[0] != '\n')
    ensures ReadText(a + "\r" + b) == a + "\n" + b
  {
    var cr := "\r" + b;
    ReadTextPlain(b);
    assert cr[0] == '\r' && cr[1..] == b;
    ReadTextAfterPlain(a, cr);
    assert a + "\r" + b == a + cr;
  }

  /** Reading a text that starts with a part without carriage returns keeps that part. */
  lemma {:induction false} ReadTextAfterPlain(a: string, b: string)
    requires '\r' !in a
    ensures ReadText(a + b) == a + ReadText(b)
    decreases |a|
  {
    if a == [] {
      assert a + b == b;
    } else {
      assert a[0] in a;
      assert forall c :: c in a[1..] ==> c in a;
      assert (a + b)[0] == a[0];
      assert (a + b)[1..] == a[1..] + b;
      ReadTextAfterPlain(a[1..], b);
    }
  }

  /** A marker at index 0 is the first one `find` reports. */
  lemma FindLeadingMarker(content: string)
    requires StartsWith(content, Marker)
    ensures Find(content, Marker, 0) == Some(0)
  {
    assert OccursAt(content, Marker, 0);
  }

  /** Occurrences in a suffix are occurrences in the whole text, shifted. */
  lemma OccursInSuffix(s: string, pat: string, d: nat, j: nat)
    requires d <= |s|
    ensures OccursAt(s[d..], pat, j) <==> OccursAt(s, pat, d + j)
  {
    if j + |pat| <= |s| - d {
      assert s[d..][j..j + |pat|] == s[d + j..d + j + |pat|];
    }
  }

  /** The first occurrence in a suffix is the first one at or after the cut. */
  lemma FindInSuffix(s: string, pat: string, d: nat)
    requires d <= |s|
    ensures Find(s[d..], pat, 0).None? <==> Find(s, pat, d).None?
    ensures Find(s[d..], pat, 0).Some? ==> Find(s, pat, d) == Some(d + Find(s[d..], pat, 0).value)
  {
    var t := s[d..];
    FindFirst(t, pat, 0);
    match Find(t, pat, 0)
    case None =>
      if Find(s, pat, d).Some? {
        var j := Find(s, pat, d).value;
        OccursInSuffix(s, pat, d, j - d);
      }
    case Some(j) =>
      OccursInSuffix(s, pat, d, j);
      forall i | d <= i < d + j ensures !OccursAt(s, pat, i) {
        OccursInSuffix(s, pat, d, i - d);
      }
      FindIsFirst(s, pat, d, d + j);
  }

  /** `find` from `from` returns `i` when `i` is an occurrence and nothing between `from` and `i` is. */
  lemma {:induction false} FindIsFirst(s: string, pat: string, from: nat, i: nat)
    requires from <= i && OccursAt(s, pat, i)
    requires forall k :: from <= k < i ==> !OccursAt(s, pat, k)
    ensures Find(s, pat, from) == Some(i)
    decreases i - from
  {
    if from < i {
      FindIsFirst(s, pat, from + 1, i);
    }
  }

  /**
    The split of a text that starts with the marker: either exactly two parts
    (no second marker) or three, cut at the first marker at index 3 or later.
  */
  lemma SplitAfterLeadingMarker(content: string)
    requires StartsWith(content, Marker)
    ensures Find(content, Marker, 3).None? ==> Split(content, Marker, 2) == ["", content[3..]]
    ensures Find(content, Marker, 3).Some? ==>
      var j := Find(content, Marker, 3).value;
      Split(content, Marker, 2) == ["", content[3..j], content[j + 3..]]
  {
    FindLeadingMarker(content);
    var rest := content[3..];
    FindInSuffix(content, Marker, 3);
    SplitStep(content, Marker, 2, 0);
    assert content[..0] == "";
    if Find(rest, Marker, 0).Some? {
      var k := Find(rest, Marker, 0).value;
      SplitStep(rest, Marker, 1, k);
      assert rest[k + 3..] == content[k + 6..];
      assert rest[..k] == content[3..k + 3];
    } else {
      assert Split(rest, Marker, 1) == [rest];
    }
  }

  /**
    Text that does not start with `---`, or that has no further `---` from
    index 3 on, is left unchanged. The empty text is one such text.
  */
  lemma StripMetadataUnchanged(content: string)
    requires !StartsWith(content, Marker) || forall i :: 3 <= i ==> !OccursAt(content, Marker, i)
    ensures StripMetadata(content) == content
  {
    if StartsWith(content, Marker) {
      SplitAfterLeadingMarker(content);
    }
  }

  /**
    Text that starts with `---` and whose first further `---` starts at index
    `j` (at least 3) loses everything up to the end of that second marker and
    the whitespace after it: the result is what follows, so it never starts
    with whitespace, and only whitespace lies between the marker and it.
  */
  lemma StripMetadataCuts(content: string, j: nat)
    requires StartsWith(content, Marker)
    requires 3 <= j && OccursAt(content, Marker, j)
    requires forall i :: 3 <= i < j ==> !OccursAt(content, Marker, i)
    ensures StripMetadata(content) == LStrip(content[j + 3..])
    ensures StripMetadata(content) != [] ==> !IsSpace(StripMetadata(content)[0])
  {
    FindIsFirst(content, Marker, 3, j);
    SplitAfterLeadingMarker(content);
    assert Split(content, Marker, 2)[2] == content[j + 3..];
  }

  /** Both halves of the rule: the result is the stripped suffix exactly when a second marker exists. */
  lemma StripMetadataChanges(content: string)
    ensures StripMetadata(content) != content ==>
      StartsWith(content, Marker) && Find(content, Marker, 3).Some?
  {
    if !StartsWith(content, Marker) || Find(content, Marker, 3).None? {
      FindFirst(content, Marker, 3);
      StripMetadataUnchanged(content);
    }
  }

  /**
    A front-matter block whose inside has no dash is removed, together with the
    whitespace after its closing marker, leaving the body.
  */
  lemma StripMetadataBlock(meta: string, gap: string, body: string)
    requires forall i :: 0 <= i < |meta| ==> meta[i] != '-'
    requires AllSpace(gap) && (body != [] ==> !IsSpace(body[0]))
    ensures StripMetadata(Marker + meta + Marker + gap + body) == body
  {
    var rest := gap + body;
    var content := Marker + meta + (Marker + rest);
    assert Marker + meta + Marker + gap + body == content;
    var j := 3 + |meta|;
    assert content[..3] == Marker;
    assert content[j..] == Marker + rest;
    assert content[j..j + 3] == Marker;
    assert content[j + 3..] == rest;
    forall i | 3 <= i < j ensures !OccursAt(content, Marker, i) {
      assert content[i] == meta[i - 3];
      if i + 3 <= |content| {
        assert content[i..i + 3][0] == content[i];
      }
    }
    StripMetadataCuts(content, j);
    LStripSkipsSpace(gap, body);
  }

  /** `lstrip` removes exactly a whitespace prefix that is followed by a non-space or the end. */
  lemma {:induction false} LStripSkipsSpace(gap: string, body: string)
    requires AllSpace(gap) && (body != [] ==> !IsSpace(body[0]))
    ensures LStrip(gap + body) == body
    decreases |gap|
  {
    if gap == [] {
      assert gap + body == body;
    } else {
      assert (gap + body)[0] == gap[0];
      assert (gap + body)[1..] == gap[1..] + body;
      assert forall i :: 0 <= i < |gap| - 1 ==> gap[1..][i] == gap[i + 1];
      LStripSkipsSpace(gap[1..], body);
    }
  }

  /** The front matter of the metadata-removal scenario of the repository's tests disappears. */
  lemma StripMetadataExample()
    ensures StripMetadata("---" + "\ntitle: \"test\"\nurl: \"example.com\"\n" + "---" + "\n\n"
                          + "## Dummy_title\nfiller_content")
         == "## Dummy_title\nfiller_content"
  {
    var body := "## Dummy_title\nfiller_content";
    assert !IsSpace(body[0]);
    StripMetadataBlock("\ntitle: \"test\"\nurl: \"example.com\"\n", "\n\n", body);
  }

  // ---------------------------------------------------------------------------
  // count_words

  /** The length of the leading run of non-whitespace characters. */
  function WordLength(s: string): (k: nat)
    ensures k <= |s| && NoSpace(s[..k])
    ensures k < |s| ==> IsSpace(s[k])
  {
    if s == [] || IsSpace(s[0]) then 0
    else
      var k := 1 + WordLength(s[1..]);
      assert s[..k] == [s[0]] + s[1..][..k - 1];
      k
  }

  /** A word of `str.split()`: non-empty, no whitespace. */
  predicate IsWord(w: string) {
    w != [] && NoSpace(w)
  }

  /** `text.split()`: the maximal runs of non-whitespace characters, in order. */
  function Words(text: string): (ws: seq<string>)
    ensures forall k :: 0 <= k < |ws| ==> IsWord(ws[k])
    decreases |text|
  {
    if text == [] then []
    else if IsSpace(text[0]) then Words(text[1..])
    else
      var k := WordLength(text);
      [text[..k]] + Words(text[k..])
  }

  /** `count_words(text)`, i.e. `len(text.split())`. */
  function CountWords(text: string): nat {
    |Words(text)|
  }

  /** A maximal run of non-whitespace characters ends at the head of `s`. */
  predicate RunEndsAtHead(s: string) {
    s != [] && !IsSpace(s[0]) && (|s| == 1 || IsSpace(s[1]))
  }

  /** The number of maximal runs of non-whitespace characters, counted by where each run ends. */
  function RunCount(s: string): nat {
    if s == [] then 0 else (if RunEndsAtHead(s) then 1 else 0) + RunCount(s[1..])
  }

  /** A text that opens with a whole run of `k` non-space characters has one run more than what follows it. */
  lemma {:induction false} RunCountAfterRun(s: string, k: nat)
    requires 0 < k <= |s| && NoSpace(s[..k]) && (k < |s| ==> IsSpace(s[k]))
    ensures RunCount(s) == 1 + RunCount(s[k..])
    decreases k
  {
    assert !IsSpace(s[..k][0]);
    if k > 1 {
      assert !IsSpace(s[..k][1]);
      assert s[1..][..k - 1] == s[1..k];
      assert forall i :: 0 <= i < k - 1 ==> s[1..k][i] == s[..k][i + 1];
      RunCountAfterRun(s[1..], k - 1);
      assert s[1..][k - 1..] == s[k..];
    }
  }

  /** `count_words` counts exactly the maximal runs of non-whitespace characters. */
  lemma {:induction false} CountWordsIsRunCount(text: string)
    ensures CountWords(text) == RunCount(text)
    decreases |text|
  {
    if text != [] {
      if IsSpace(text[0]) {
        CountWordsIsRunCount(text[1..]);
      } else {
        var k := WordLength(text);
        assert k > 0 && text[..k][0] == text[0];
        CountWordsIsRunCount(text[k..]);
        RunCountAfterRun(text, k);
      }
    }
  }

  /** A text has no words exactly when every character of it is whitespace (the empty text included). */
  lemma {:induction false} CountWordsZero(text: string)
    ensures CountWords(text) == 0 <==> AllSpace(text)
    decreases |text|
  {
    if text != [] {
      CountWordsZero(text[1..]);
      if IsSpace(text[0]) {
        assert AllSpace(text) <==> AllSpace(text[1..]) by {
          if AllSpace(text[1..]) {
            forall i | 0 <= i < |text| ensures IsSpace(text[i]) {
              if i > 0 { assert text[i] == text[1..][i - 1]; }
            }
          }
        }
      }
    }
  }

  /** A whitespace character between two texts keeps their words apart. */
  lemma {:induction false} WordsAroundSpace(a: string, c: char, b: string)
    requires IsSpace(c)
    ensures Words(a + [c] + b) == Words(a) + Words(b)
    decreases |a|
  {
    var s := a + [c] + b;
    if a == [] {
      assert s[1..] == b;
    } else if IsSpace(a[0]) {
      assert s[1..] == a[1..] + [c] + b;
      WordsAroundSpace(a[1..], c, b);
    } else {
      var k := WordLength(a);
      assert k > 0;
      WordLengthPrefix(a, [c] + b, k);
      assert s == a + ([c] + b);
      assert s[..k] == a[..k];
      assert s[k..] == a[k..] + [c] + b;
      WordsAroundSpace(a[k..], c, b);
    }
  }

  /** The leading run is the prefix of non-space characters followed by a space or the end. */
  lemma {:induction false} WordLengthUnique(s: string, k: nat)
    requires k <= |s| && NoSpace(s[..k]) && (k < |s| ==> IsSpace(s[k]))
    ensures WordLength(s) == k
    decreases k
  {
    if k > 0 {
      assert s[..k][0] == s[0];
      assert s[1..][..k - 1] == s[1..k];
      assert forall i :: 0 <= i < k - 1 ==> s[1..k][i] == s[..k][i + 1];
      WordLengthUnique(s[1..], k - 1);
    }
  }

  /** The leading run of `a + t` is that of `a` when the run of `a` ends before `a` does or `t` starts with whitespace. */
  lemma WordLengthPrefix(a: string, t: string, k: nat)
    requires k == WordLength(a) && (k < |a| || (t != [] && IsSpace(t[0])))
    ensures WordLength(a + t) == k
  {
    var s := a + t;
    assert s[..k] == a[..k];
    if k < |a| {
      assert s[k] == a[k];
    } else {
      assert s[k] == t[0];
    }
    WordLengthUnique(s, k);
  }

  /** After a text that ends in whitespace, words start afresh: the word lists just concatenate. */
  lemma WordsAfterSpace(a: string, b: string)
    requires a != [] && IsSpace(a[|a| - 1])
    ensures Words(a + b) == Words(a) + Words(b)
  {
    var front := a[..|a| - 1];
    var c := a[|a| - 1];
    assert a == front + [c] + [];
    assert a + b == front + [c] + b;
    WordsAroundSpace(front, c, b);
    WordsAroundSpace(front, c, []);
    assert Words([]) == [];
  }

  /** `count_words(a + " " + b) == count_words(a) + count_words(b)`. */
  lemma CountWordsJoin(a: string, b: string)
    ensures CountWords(a + " " + b) == CountWords(a) + CountWords(b)
  {
    assert a + " " + b == a + [' '] + b;
    WordsAroundSpace(a, ' ', b);
  }

  /** `(w + " ") * k` has `k` words when `w` is a word. */
  lemma {:induction false} CountWordsRepeat(w: string, k: nat)
    requires IsWord(w)
    ensures CountWords(Repeat(w + " ", k)) == k
    decreases k
  {
    if k > 0 {
      var front := Repeat(w + " ", k - 1);
      CountWordsRepeat(w, k - 1);
      var unit := w + " ";
      assert Words(unit) == [w] by {
        WordLengthOfWord(w);
        WordLengthPrefix(w, " ", |w|);
        assert unit[..|w|] == w;
        assert unit[|w|..] == " ";
        assert Words(" ") == Words(""[..]) by { assert " "[1..] == ""; }
      }
      if k == 1 {
        assert Repeat(w + " ", 1) == Repeat(w + " ", 0) + unit == unit;
      } else {
        RepeatEndsWithSpace(w, k - 1);
        WordsAfterSpace(front, unit);
      }
    }
  }

  /** The leading run of a word is all of it. */
  lemma WordLengthOfWord(w: string)
    requires IsWord(w)
    ensures WordLength(w) == |w|
  {
    assert w[..|w|] == w;
    WordLengthUnique(w, |w|);
  }

  /** `(w + " ") * k`, for `k` at least one, ends in a space. */
  lemma RepeatEndsWithSpace(w: string, k: nat)
    requires k > 0
    ensures Repeat(w + " ", k) != [] && IsSpace(Repeat(w + " ", k)[|Repeat(w + " ", k)| - 1])
  {
    var r := Repeat(w + " ", k);
    assert r == Repeat(w + " ", k - 1) + (w + " ");
    assert r[|r| - 1] == ' ';
  }
}
