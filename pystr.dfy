/**
  The Python string builtins that the merge service relies on, each with the
  semantics CPython gives it: `str.isspace`, `startswith`, `endswith`,
  `find`, `split(sep, maxsplit)`, `sep.join`, `lstrip()`, `replace`,
  decimal formatting of a non-negative int, and `os.path.basename`.
*/
module PyStr {
  import opened Wrappers

  /** `c.isspace()`: the characters CPython treats as whitespace. */
  predicate IsSpace(c: char) {
    var n := c as int;
    (9 <= n <= 13) || (28 <= n <= 32) || n == 0x85 || n == 0xA0 || n == 0x1680
    || (0x2000 <= n <= 0x200A) || n == 0x2028 || n == 0x2029 || n == 0x202F
    || n == 0x205F || n == 0x3000
  }

  /** No character of `s` is whitespace. */
  predicate NoSpace(s: string) {
    forall i :: 0 <= i < |s| ==> !IsSpace(s[i])
  }

  /** Every character of `s` is whitespace (vacuously true of ""). */
  predicate AllSpace(s: string) {
    forall i :: 0 <= i < |s| ==> IsSpace(s[i])
  }

  /** `s.startswith(prefix)` */
  predicate StartsWith(s: string, prefix: string) {
    |prefix| <= |s| && s[..|prefix|] == prefix
  }

  /** `s.endswith(suffix)` */
  predicate EndsWith(s: string, suffix: string) {
    |suffix| <= |s| && s[|s| - |suffix|..] == suffix
  }

  /** `pat` occurs in `s` starting at index `i`. */
  predicate OccursAt(s: string, pat: string, i: int) {
    0 <= i && i + |pat| <= |s| && s[i..i + |pat|] == pat
  }

  /** `s.find(pat, from)`, with `None` for Python's -1: the first occurrence at or after `from`. */
  function Find(s: string, pat: string, from: nat): (r: Option<nat>)
    ensures r.Some? ==> from <= r.value && OccursAt(s, pat, r.value)
    decreases |s| - from
  {
    if from + |pat| > |s| then None
    else if OccursAt(s, pat, from) then Some(from)
    else Find(s, pat, from + 1)
  }

  /** `find` reports the first occurrence at or after `from`, and -1 only when there is none. */
  lemma {:induction false} FindFirst(s: string, pat: string, from: nat)
    ensures Find(s, pat, from).Some? ==> forall i :: from <= i < Find(s, pat, from).value ==> !OccursAt(s, pat, i)
    ensures Find(s, pat, from).None? ==> forall i :: from <= i ==> !OccursAt(s, pat, i)
    decreases |s| - from
  {
    if from + |pat| <= |s| && !OccursAt(s, pat, from) {
      FindFirst(s, pat, from + 1);
    }
  }

  /**
    `s.split(sep, maxsplit)`: cut `s` at the first `maxsplit` non-overlapping
    occurrences of `sep`, scanning from the left.
  */
  function Split(s: string, sep: string, maxsplit: nat): (parts: seq<string>)
    requires |sep| > 0
    ensures 1 <= |parts| <= maxsplit + 1
    decreases maxsplit
  {
    if maxsplit == 0 || Find(s, sep, 0).None? then [s]
    else
      var i := Find(s, sep, 0).value;
      [s[..i]] + Split(s[i + |sep|..], sep, maxsplit - 1)
  }

  /** `sep.join(parts)` */
  function Join(parts: seq<string>, sep: string): string
    decreases |parts|
  {
    if |parts| == 0 then ""
    else if |parts| == 1 then parts[0]
    else parts[0] + sep + Join(parts[1..], sep)
  }

  /** The separator does not occur anywhere in `s`. */
  predicate Free(s: string, sep: string) {
    forall i :: 0 <= i <= |s| ==> !OccursAt(s, sep, i)
  }

  /** A split with cuts left makes its first cut at the first occurrence of the separator. */
  lemma SplitStep(s: string, sep: string, maxsplit: nat, i: nat)
    requires |sep| > 0 && maxsplit > 0 && Find(s, sep, 0) == Some(i)
    ensures Split(s, sep, maxsplit) == [s[..i]] + Split(s[i + |sep|..], sep, maxsplit - 1)
  {
  }

  /**
    Cutting `s` at an occurrence of the separator and joining back the text
    before it with parts that join to the text after it gives `s`.
  */
  lemma JoinAfterCut(s: string, sep: string, i: nat, parts: seq<string>)
    requires OccursAt(s, sep, i) && parts != [] && Join(parts, sep) == s[i + |sep|..]
    ensures Join([s[..i]] + parts, sep) == s
  {
    JoinCons(s[..i], parts, sep);
    CutAt(s, sep, i);
  }

  /** Joining a part in front of other parts puts one separator between it and their join. */
  lemma JoinCons(part: string, parts: seq<string>, sep: string)
    requires parts != []
    ensures Join([part] + parts, sep) == part + sep + Join(parts, sep)
  {
    assert ([part] + parts)[1..] == parts;
  }

  /** A text is what comes before an occurrence, the occurrence, and what comes after it. */
  lemma CutAt(s: string, sep: string, i: nat)
    requires OccursAt(s, sep, i)
    ensures s == s[..i] + sep + s[i + |sep|..]
  {
  }

  /** Joining the parts of a split with its separator gives back the original text. */
  lemma {:induction false} SplitJoin(s: string, sep: string, maxsplit: nat)
    requires |sep| > 0
    ensures Join(Split(s, sep, maxsplit), sep) == s
    decreases maxsplit
  {
    if maxsplit > 0 && Find(s, sep, 0).Some? {
      var i := Find(s, sep, 0).value;
      SplitJoin(s[i + |sep|..], sep, maxsplit - 1);
      JoinAfterCut(s, sep, i, Split(s[i + |sep|..], sep, maxsplit - 1));
    }
  }

  /** The text before the first occurrence of the separator is free of it. */
  lemma PrefixBeforeFindFree(s: string, sep: string, i: nat)
    requires |sep| > 0 && Find(s, sep, 0) == Some(i)
    ensures Free(s[..i], sep)
  {
    FindFirst(s, sep, 0);
    forall j | 0 <= j <= i && OccursAt(s[..i], sep, j) ensures false {
      assert s[..i][j..j + |sep|] == s[j..j + |sep|];
      assert OccursAt(s, sep, j);
    }
  }

  /** Every part of a split but the last is free of the separator. */
  lemma {:induction false} SplitInnerPartsFree(s: string, sep: string, maxsplit: nat)
    requires |sep| > 0
    ensures forall k :: 0 <= k < |Split(s, sep, maxsplit)| - 1 ==> Free(Split(s, sep, maxsplit)[k], sep)
    decreases maxsplit
  {
    if maxsplit > 0 && Find(s, sep, 0).Some? {
      var i := Find(s, sep, 0).value;
      var rest := s[i + |sep|..];
      var tail := Split(rest, sep, maxsplit - 1);
      var parts := [s[..i]] + tail;
      assert Split(s, sep, maxsplit) == parts;
      SplitInnerPartsFree(rest, sep, maxsplit - 1);
      PrefixBeforeFindFree(s, sep, i);
      forall k | 0 <= k < |parts| - 1 ensures Free(parts[k], sep) {
        if k == 0 {
          assert parts[k] == s[..i];
          assert Free(s[..i], sep);
        } else {
          assert parts[k] == tail[k - 1];
          assert 0 <= k - 1 < |tail| - 1;
          assert Free(tail[k - 1], sep);
        }
      }
    }
  }

  /** When a split made fewer than `maxsplit` cuts, its last part is free of the separator. */
  lemma {:induction false} SplitLastPartFree(s: string, sep: string, maxsplit: nat)
    requires |sep| > 0
    ensures |Split(s, sep, maxsplit)| < maxsplit + 1 ==>
      Free(Split(s, sep, maxsplit)[|Split(s, sep, maxsplit)| - 1], sep)
    decreases maxsplit
  {
    if maxsplit > 0 {
      if Find(s, sep, 0).Some? {
        var i := Find(s, sep, 0).value;
        var rest := s[i + |sep|..];
        var tail := Split(rest, sep, maxsplit - 1);
        var parts := [s[..i]] + tail;
        assert Split(s, sep, maxsplit) == parts;
        SplitLastPartFree(rest, sep, maxsplit - 1);
        assert parts[|parts| - 1] == tail[|tail| - 1];
      } else {
        FindFirst(s, sep, 0);
        assert Split(s, sep, maxsplit) == [s];
      }
    }
  }

  /** `s.lstrip()`: drop the leading whitespace, keeping the rest. */
  function LStrip(s: string): (r: string)
    ensures |r| <= |s| && r == s[|s| - |r|..]
    ensures AllSpace(s[..|s| - |r|])
    ensures r != [] ==> !IsSpace(r[0])
  {
    if s != [] && IsSpace(s[0]) then
      var r := LStrip(s[1..]);
      assert s[1..][..|s[1..]| - |r|] == s[1..|s| - |r|];
      r
    else s
  }

  /** `s.replace(pat, rep)`: every non-overlapping occurrence, scanning from the left. */
  function Replace(s: string, pat: string, rep: string): string
    requires |pat| > 0
    decreases |s|
  {
    if |s| < |pat| then s
    else if s[..|pat|] == pat then rep + Replace(s[|pat|..], pat, rep)
    else [s[0]] + Replace(s[1..], pat, rep)
  }

  /** When the only `'.'` of `s + ".md"` is that of the extension, replacing ".md" rewrites just the extension. */
  lemma {:induction false} ReplaceExtension(s: string, rep: string)
    requires forall i :: 0 <= i < |s| ==> s[i] != '.'
    ensures Replace(s + ".md", ".md", rep) == s + rep
    decreases |s|
  {
    var t := s + ".md";
    if s == [] {
      assert t == ".md";
      assert t[3..] == "";
    } else {
      assert t[..3] != ".md" by { assert t[0] == s[0]; }
      assert t[1..] == s[1..] + ".md";
      ReplaceExtension(s[1..], rep);
      assert [s[0]] + s[1..] == s;
    }
  }

  /** The decimal digit character for `d`. */
  function Digit(d: nat): char
    requires d < 10
  {
    ('0' as int + d) as char
  }

  /** A decimal digit character. */
  predicate IsDigit(c: char) {
    '0' <= c <= '9'
  }

  /** The number a string of decimal digits denotes, most significant digit first. */
  function DecimalValue(s: string): nat {
    if s == [] then 0
    else
      var c := s[|s| - 1];
      DecimalValue(s[..|s| - 1]) * 10 + (if IsDigit(c) then c as int - '0' as int else 0)
  }

  /** `str(n)` for a non-negative int: its decimal digits, most significant first. */
  function NatToString(n: nat): (r: string)
    ensures r != []
    ensures forall i :: 0 <= i < |r| ==> IsDigit(r[i])
  {
    if n < 10 then [Digit(n)] else NatToString(n / 10) + [Digit(n % 10)]
  }

  /** The digits of `str(n)` denote `n`, so different numbers get different strings. */
  lemma {:induction false} NatToStringValue(n: nat)
    ensures DecimalValue(NatToString(n)) == n
  {
    if n >= 10 {
      NatToStringValue(n / 10);
      var r := NatToString(n);
      assert r[..|r| - 1] == NatToString(n / 10);
    }
  }

  /** The leading run of decimal digits of `s`. */
  function LeadingDigits(s: string): string
    decreases |s|
  {
    if s != [] && IsDigit(s[0]) then [s[0]] + LeadingDigits(s[1..]) else []
  }

  /** Digits followed by text that does not start with a digit: the digits are the leading run. */
  lemma {:induction false} LeadingDigitsOf(digits: string, rest: string)
    requires forall i :: 0 <= i < |digits| ==> IsDigit(digits[i])
    requires rest != [] ==> !IsDigit(rest[0])
    ensures LeadingDigits(digits + rest) == digits
    decreases |digits|
  {
    if digits == [] {
      assert digits + rest == rest;
    } else {
      assert (digits + rest)[0] == digits[0];
      assert (digits + rest)[1..] == digits[1..] + rest;
      LeadingDigitsOf(digits[1..], rest);
    }
  }

  /** `path.rfind('/')`-free tail of a path: `os.path.basename` with `/` as separator. */
  function BaseName(path: string): (name: string)
    ensures EndsWith(path, name)
    ensures forall i :: 0 <= i < |name| ==> name[i] != '/'
    ensures |name| < |path| ==> path[|path| - |name| - 1] == '/'
    decreases |path|
  {
    if path == [] || path[|path| - 1] == '/' then []
    else
      var front := path[..|path| - 1];
      var name := BaseName(front) + [path[|path| - 1]];
      assert path[|path| - |name|..] == front[|front| - |name| + 1..] + [path[|path| - 1]];
      name
  }

  /** `s * k` */
  function Repeat(s: string, k: nat): string {
    if k == 0 then "" else Repeat(s, k - 1) + s
  }
}
