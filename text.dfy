/**
 * The pieces of Python's string and path library that the core relies on,
 * over `string` (a sequence of code points). Case mapping and whitespace are
 * the ASCII parts of Python's Unicode tables; paths follow POSIX rules.
 */
module Text {

  // ---------------------------------------------------------------------------
  // Character classes

  /** `str.isspace()` on the ASCII range: space, \t \n \v \f \r and \x1c-\x1f. */
  predicate IsSpace(c: char) {
    c == ' ' || ('\t' <= c <= '\r') || ('\U{1c}' <= c <= '\U{1f}')
  }

  predicate IsNewlineChar(c: char) {
    c == '\r' || c == '\n'
  }

  predicate IsSlash(c: char) {
    c == '/'
  }

  predicate IsUpper(c: char) {
    'A' <= c <= 'Z'
  }

  // ---------------------------------------------------------------------------
  // Prefixes, suffixes, substrings

  predicate StartsWith(s: string, p: string) {
    |p| <= |s| && s[..|p|] == p
  }

  predicate EndsWith(s: string, p: string) {
    |p| <= |s| && s[|s| - |p|..] == p
  }

  /** A prefix of a string that does not start with `p` does not start with `p` either. */
  lemma NotStartsWithPrefix(s: string, k: string, p: string)
    requires StartsWith(s, k) && !StartsWith(s, p)
    ensures !StartsWith(k, p)
  {
    if |p| <= |k| {
      assert s[..|p|] == k[..|p|];
    }
  }

  /** `m` occurs in `s` starting at index `i`. */
  predicate OccursAt(s: string, m: string, i: int) {
    0 <= i && i + |m| <= |s| && s[i..i + |m|] == m
  }

  /** Python's `m in s` on two strings. */
  predicate Contains(s: string, m: string) {
    exists i | 0 <= i <= |s| - |m| :: OccursAt(s, m, i)
  }

  /** Every character of a substring occurs in the string. */
  lemma ContainsChar(s: string, m: string, j: int)
    requires Contains(s, m) && 0 <= j < |m|
    ensures m[j] in s
  {
    var i :| 0 <= i <= |s| - |m| && OccursAt(s, m, i);
    assert s[i + j] == s[i..i + |m|][j];
  }

  /** A substring of a slice is a substring of the whole. */
  lemma ContainsInSlice(s: string, a: int, b: int, m: string)
    requires 0 <= a <= b <= |s| && Contains(s[a..b], m)
    ensures Contains(s, m)
  {
    var i :| 0 <= i <= b - a - |m| && OccursAt(s[a..b], m, i);
    assert forall k :: a + i <= k < a + i + |m| ==> s[k] == s[a..b][k - a];
    assert s[a + i..a + i + |m|] == m;
    assert OccursAt(s, m, a + i);
  }

  lemma ContainsTransitive(s: string, l: string, m: string)
    requires Contains(s, l) && Contains(l, m)
    ensures Contains(s, m)
  {
    var i :| 0 <= i <= |s| - |l| && OccursAt(s, l, i);
    ContainsInSlice(s, i, i + |l|, m);
  }

  // ---------------------------------------------------------------------------
  // str.replace

  /** Python's `s.replace(p, r)` for a non-empty pattern: leftmost, non-overlapping. */
  function Replace(s: string, p: string, r: string): string
    requires |p| > 0
    decreases |s|
  {
    if |s| < |p| then s
    else if s[..|p|] == p then r + Replace(s[|p|..], p, r)
    else [s[0]] + Replace(s[1..], p, r)
  }

  /** Replacing a pattern that does not occur changes nothing. */
  lemma {:induction false} ReplaceAbsent(s: string, p: string, r: string)
    requires |p| > 0 && !Contains(s, p)
    ensures Replace(s, p, r) == s
    decreases |s|
  {
    if |s| >= |p| {
      assert !OccursAt(s, p, 0);
      if Contains(s[1..], p) {
        assert s[1..] == s[1..|s|];
        ContainsInSlice(s, 1, |s|, p);
      }
      ReplaceAbsent(s[1..], p, r);
    }
  }

  /** An occurrence at the very start is replaced first. */
  lemma ReplaceAtStart(t: string, p: string, r: string)
    requires |p| > 0
    ensures Replace(p + t, p, r) == r + Replace(t, p, r)
  {
    assert (p + t)[..|p|] == p;
    assert (p + t)[|p|..] == t;
  }

  /** A character where the pattern does not start passes through unchanged. */
  lemma ReplaceMiss(c: char, t: string, p: string, r: string)
    requires |p| > 0 && !StartsWith([c] + t, p)
    ensures Replace([c] + t, p, r) == [c] + Replace(t, p, r)
  {
    assert ([c] + t)[1..] == t;
  }

  /** A prefix without the pattern's first character passes through unchanged. */
  lemma {:induction false} ReplaceSkip(a: string, b: string, p: string, r: string)
    requires |p| > 0 && p[0] !in a
    ensures Replace(a + b, p, r) == a + Replace(b, p, r)
    decreases |a|
  {
    if a == [] {
      assert a + b == b;
    } else {
      NotInTail(a, p[0]);
      ReplaceSkip(a[1..], b, p, r);
      ReplaceSkipStep(a, b, p, r);
    }
  }

  lemma NotInTail(a: string, x: char)
    requires a != [] && x !in a
    ensures a[0] != x && x !in a[1..]
  {
    assert a == [a[0]] + a[1..];
  }

  /** The step of `ReplaceSkip`: one more character in front that cannot start the pattern. */
  lemma ReplaceSkipStep(a: string, b: string, p: string, r: string)
    requires |p| > 0 && a != [] && a[0] != p[0]
    requires Replace(a[1..] + b, p, r) == a[1..] + Replace(b, p, r)
    ensures Replace(a + b, p, r) == a + Replace(b, p, r)
  {
    var t := a[1..] + b;
    assert a + b == [a[0]] + t;
    assert ([a[0]] + t)[0] != p[0];
    ReplaceMiss(a[0], t, p, r);
    Associative([a[0]], a[1..], Replace(b, p, r));
    assert a == [a[0]] + a[1..];
  }

  /** Replacing one character by another acts position by position. */
  lemma {:induction false} ReplaceChar(s: string, c: char, d: char)
    ensures |Replace(s, [c], [d])| == |s|
    ensures forall i :: 0 <= i < |s| ==> Replace(s, [c], [d])[i] == (if s[i] == c then d else s[i])
    decreases |s|
  {
    if s != [] {
      ReplaceChar(s[1..], c, d);
      if s[..1] == [c] {
        assert s[0] == c;
      } else {
        assert s[0] != c;
      }
    }
  }

  // ---------------------------------------------------------------------------
  // str.split(c), str.join, "".join

  /** Python's `s.split(c)` for a one-character separator. */
  function SplitOn(s: string, c: char): (parts: seq<string>)
    ensures |parts| >= 1
    ensures forall i :: 0 <= i < |parts| ==> c !in parts[i]
    ensures StartsWith(s, parts[0])
    decreases |s|
  {
    if s == [] then [""]
    else
      var rest := SplitOn(s[1..], c);
      assert s == [s[0]] + s[1..];
      if s[0] == c then [""] + rest
      else [[s[0]] + rest[0]] + rest[1..]
  }

  lemma Associative<T>(a: seq<T>, b: seq<T>, c: seq<T>)
    ensures a + (b + c) == a + b + c
  {
  }

  /** The first part stops at the first separator, or runs to the end. */
  lemma {:induction false} SplitOnFirst(s: string, c: char)
    ensures |SplitOn(s, c)[0]| < |s| ==> s[|SplitOn(s, c)[0]|] == c
    decreases |s|
  {
    if s != [] && s[0] != c {
      SplitOnFirst(s[1..], c);
    }
  }

  /** Every character of a part is a character of the split string. */
  lemma {:induction false} SplitOnChars(s: string, c: char, i: int, x: char)
    requires 0 <= i < |SplitOn(s, c)| && x in SplitOn(s, c)[i]
    ensures x in s
    decreases |s|
  {
    if s != [] {
      var rest := SplitOn(s[1..], c);
      assert forall y :: y in s[1..] ==> y in s;
      if s[0] == c {
        SplitOnChars(s[1..], c, i - 1, x);
      } else if i > 0 {
        assert SplitOn(s, c)[i] == rest[i];
        SplitOnChars(s[1..], c, i, x);
      } else if x != s[0] {
        assert x in rest[0];
        SplitOnChars(s[1..], c, 0, x);
      }
    }
  }

  /** Python's `sep.join(parts)`. */
  function Join(sep: string, parts: seq<string>): string
  {
    if |parts| == 0 then ""
    else if |parts| == 1 then parts[0]
    else parts[0] + sep + Join(sep, parts[1..])
  }

  /** Python's `"".join(parts)`. */
  function Concat(parts: seq<string>): string
  {
    if parts == [] then "" else parts[0] + Concat(parts[1..])
  }

  lemma {:induction false} ConcatAppend(a: seq<string>, b: seq<string>)
    ensures Concat(a + b) == Concat(a) + Concat(b)
    decreases |a|
  {
    if a == [] {
      assert a + b == b;
    } else {
      assert (a + b)[1..] == a[1..] + b;
      ConcatAppend(a[1..], b);
    }
  }

  /** Appending one more string to the list appends it to the concatenation. */
  lemma ConcatPush(a: seq<string>, x: string)
    ensures Concat(a + [x]) == Concat(a) + x
  {
    ConcatAppend(a, [x]);
    assert Concat([x]) == x + Concat([]);
  }

  /** Splitting on the separator undoes a join of separator-free parts. */
  lemma {:induction false} SplitJoin(parts: seq<string>, c: char)
    requires |parts| >= 1
    requires forall i :: 0 <= i < |parts| ==> c !in parts[i]
    ensures SplitOn(Join([c], parts), c) == parts
    decreases |parts|
  {
    if |parts| > 1 {
      SplitJoin(parts[1..], c);
      SplitJoinCons(parts[0], parts[1..], c);
      assert parts == [parts[0]] + parts[1..];
    } else {
      SplitPrefix(parts[0], [], c);
    }
  }

  /** The step of `SplitJoin`: one more separator-free part in front. */
  lemma SplitJoinCons(p: string, rest: seq<string>, c: char)
    requires c !in p && |rest| >= 1
    requires SplitOn(Join([c], rest), c) == rest
    ensures SplitOn(Join([c], [p] + rest), c) == [p] + rest
  {
    var j := Join([c], rest);
    var t := [c] + j;
    assert ([p] + rest)[1..] == rest;
    assert Join([c], [p] + rest) == p + [c] + j;
    Associative(p, [c], j);
    assert t[1..] == j;
    SplitPrefix(p, t, c);
  }

  /** Splitting `p + [c] + t` for a separator-free `p`. */
  lemma {:induction false} SplitPrefix(p: string, t: string, c: char)
    requires c !in p
    ensures t != [] && t[0] == c ==> SplitOn(p + t, c) == [p] + SplitOn(t[1..], c)
    ensures t == [] ==> SplitOn(p, c) == [p]
    decreases |p|
  {
    if p == [] {
      if t != [] && t[0] == c {
        assert p + t == t;
      }
    } else {
      SplitPrefix(p[1..], t, c);
      assert (p + t)[1..] == p[1..] + t;
      assert [p[0]] + p[1..] == p;
    }
  }

  // ---------------------------------------------------------------------------
  // str.lower, str.strip

  function LowerChar(c: char): char {
    if IsUpper(c) then (c as int + 32) as char else c
  }

  /** Python's `s.lower()` on ASCII letters. */
  function Lower(s: string): (r: string)
    ensures |r| == |s|
    ensures forall c :: c in r ==> !IsUpper(c)
  {
    seq(|s|, i requires 0 <= i < |s| => LowerChar(s[i]))
  }

  /** `s.lstrip(chars)`, the characters to strip given as a predicate. */
  function TrimLeft(s: string, drop: char -> bool): (r: string)
    ensures |r| <= |s| && r == s[|s| - |r|..]
    ensures r == [] || !drop(r[0])
    ensures forall i :: 0 <= i < |s| - |r| ==> drop(s[i])
    decreases |s|
  {
    if s != [] && drop(s[0]) then
      var r := TrimLeft(s[1..], drop);
      assert s[1..][|s| - 1 - |r|..] == s[|s| - |r|..];
      r
    else s
  }

  /** `s.rstrip(chars)`, the characters to strip given as a predicate. */
  function TrimRight(s: string, drop: char -> bool): (r: string)
    ensures |r| <= |s| && r == s[..|r|]
    ensures r == [] || !drop(r[|r| - 1])
    ensures forall i :: |r| <= i < |s| ==> drop(s[i])
    decreases |s|
  {
    if s != [] && drop(s[|s| - 1]) then TrimRight(s[..|s| - 1], drop) else s
  }

  /** `s.strip(chars)`. */
  function Strip(s: string, drop: char -> bool): string {
    TrimRight(TrimLeft(s, drop), drop)
  }

  // ---------------------------------------------------------------------------
  // str.split() on whitespace

  function TokenLength(s: string): (k: nat)
    ensures k <= |s|
    ensures forall i :: 0 <= i < k ==> !IsSpace(s[i])
    ensures k < |s| ==> IsSpace(s[k])
  {
    if s == [] || IsSpace(s[0]) then 0 else 1 + TokenLength(s[1..])
  }

  /** Python's `s.split()`: the maximal runs of non-whitespace characters. */
  function Fields(s: string): (fs: seq<string>)
    ensures forall i :: 0 <= i < |fs| ==> |fs[i]| > 0
    ensures forall i, j :: 0 <= i < |fs| && 0 <= j < |fs[i]| ==> !IsSpace(fs[i][j])
    decreases |s|
  {
    if s == [] then []
    else if IsSpace(s[0]) then Fields(s[1..])
    else
      var k := TokenLength(s);
      [s[..k]] + Fields(s[k..])
  }

  // ---------------------------------------------------------------------------
  // Reading text files line by line

  /** Universal-newline translation of a text-mode read: "\r\n" and a lone "\r" become "\n". */
  function UniversalNewlines(s: string): (r: string)
    ensures '\r' !in r
    decreases |s|
  {
    if s == [] then []
    else if s[0] == '\r' then
      "\n" + UniversalNewlines(if |s| > 1 && s[1] == '\n' then s[2..] else s[1..])
    else [s[0]] + UniversalNewlines(s[1..])
  }

  /** Text without carriage returns is read back unchanged up to the first one. */
  lemma {:induction false} UniversalNewlinesAppend(a: string, b: string)
    requires '\r' !in a
    ensures UniversalNewlines(a + b) == a + UniversalNewlines(b)
    decreases |a|
  {
    if a == [] {
      assert a + b == b;
    } else {
      assert a[0] in a;
      assert (a + b)[0] == a[0];
      assert (a + b)[1..] == a[1..] + b;
      assert forall c :: c in a[1..] ==> c in a;
      UniversalNewlinesAppend(a[1..], b);
      assert a == [a[0]] + a[1..];
    }
  }

  /** Length of the first line of `s`, its "\n" included. */
  function LineLength(s: string): (k: nat)
    ensures k <= |s|
    ensures s != [] ==> k >= 1
    ensures forall i :: 0 <= i < k - 1 ==> s[i] != '\n'
    ensures k < |s| ==> s[k - 1] == '\n'
  {
    if s == [] then 0 else if s[0] == '\n' then 1 else 1 + LineLength(s[1..])
  }

  /** A complete line as `readlines()` returns it: one "\n", at its end. */
  predicate IsLine(l: string) {
    |l| > 0 && l[|l| - 1] == '\n' && forall j :: 0 <= j < |l| - 1 ==> l[j] != '\n'
  }

  /**
   * `readlines()` on already translated text: the text cut after every "\n".
   * Every line but the last ends with "\n", no line has "\n" elsewhere, and the
   * lines joined give back the text.
   */
  function SplitLines(s: string): (lines: seq<string>)
    ensures forall i :: 0 <= i < |lines| ==> |lines[i]| > 0
    ensures forall i, j :: 0 <= i < |lines| && 0 <= j < |lines[i]| - 1 ==> lines[i][j] != '\n'
    ensures forall i :: 0 <= i < |lines| - 1 ==> lines[i][|lines[i]| - 1] == '\n'
    ensures Concat(lines) == s
    decreases |s|
  {
    if s == [] then []
    else
      var k := LineLength(s);
      assert s[..k] + s[k..] == s;
      [s[..k]] + SplitLines(s[k..])
  }

  /** `open(path).readlines()` on the raw contents of a file. */
  function ReadLines(text: string): seq<string> {
    SplitLines(UniversalNewlines(text))
  }

  lemma {:induction false} LineLengthAppend(a: string, b: string)
    requires a != [] && a[|a| - 1] == '\n'
    ensures LineLength(a + b) == LineLength(a)
    decreases |a|
  {
    if a[0] != '\n' {
      assert (a + b)[1..] == a[1..] + b;
      LineLengthAppend(a[1..], b);
    }
  }

  /** One step of `SplitLines`: the first line, then the lines of the rest. */
  lemma SplitLinesStep(s: string)
    requires s != []
    ensures SplitLines(s) == [s[..LineLength(s)]] + SplitLines(s[LineLength(s)..])
  {
  }

  lemma SuffixEndsLikeWhole(a: string, k: nat)
    requires k <= |a| && a != [] && a[|a| - 1] == '\n'
    ensures a[k..] == [] || a[k..][|a[k..]| - 1] == '\n'
  {
  }

  /** The first line of `a + b` is that of `a` when `a` ends with a "\n". */
  lemma SplitLinesAppendStep(a: string, b: string)
    requires a != [] && a[|a| - 1] == '\n'
    ensures SplitLines(a + b) == [a[..LineLength(a)]] + SplitLines(a[LineLength(a)..] + b)
  {
    var k := LineLength(a);
    LineLengthAppend(a, b);
    assert (a + b)[..k] == a[..k];
    assert (a + b)[k..] == a[k..] + b;
  }

  /** Text ending in "\n" splits into its own lines followed by the rest's. */
  lemma {:induction false} SplitLinesAppend(a: string, b: string)
    requires a == [] || a[|a| - 1] == '\n'
    ensures SplitLines(a + b) == SplitLines(a) + SplitLines(b)
    decreases |a|
  {
    if a == [] {
      assert a + b == b;
    } else {
      var k := LineLength(a);
      SuffixEndsLikeWhole(a, k);
      SplitLinesAppend(a[k..], b);
      SplitLinesAppendCombine(a, b);
    }
  }

  /** The step of `SplitLinesAppend`: from the rest of `a` to all of `a`. */
  lemma SplitLinesAppendCombine(a: string, b: string)
    requires a != [] && a[|a| - 1] == '\n'
    requires SplitLines(a[LineLength(a)..] + b) == SplitLines(a[LineLength(a)..]) + SplitLines(b)
    ensures SplitLines(a + b) == SplitLines(a) + SplitLines(b)
  {
    var k := LineLength(a);
    SplitLinesAppendStep(a, b);
    SplitLinesStep(a);
    Associative([a[..k]], SplitLines(a[k..]), SplitLines(b));
  }

  lemma {:induction false} LineLengthOfLine(l: string)
    requires IsLine(l)
    ensures LineLength(l) == |l|
    decreases |l|
  {
    if l[0] != '\n' {
      LineLengthOfLine(l[1..]);
    }
  }

  lemma SplitLinesOfLine(l: string)
    requires IsLine(l)
    ensures SplitLines(l) == [l]
  {
    LineLengthOfLine(l);
    assert l[..|l|] == l;
    assert l[|l|..] == [];
  }

  lemma {:induction false} LineLengthNoNewline(t: string)
    requires '\n' !in t
    ensures LineLength(t) == |t|
    decreases |t|
  {
    if t != [] {
      assert forall c :: c in t[1..] ==> c in t;
      LineLengthNoNewline(t[1..]);
    }
  }

  lemma SplitLinesOfLastLine(t: string)
    requires t != [] && '\n' !in t
    ensures SplitLines(t) == [t]
  {
    LineLengthNoNewline(t);
    assert t[..|t|] == t;
    assert t[|t|..] == [];
  }

  /** Complete lines joined and read back give the same lines. */
  lemma {:induction false} SplitLinesConcat(ls: seq<string>)
    requires forall i :: 0 <= i < |ls| ==> IsLine(ls[i])
    ensures SplitLines(Concat(ls)) == ls
    decreases |ls|
  {
    if ls != [] {
      SplitLinesOfLine(ls[0]);
      SplitLinesAppend(ls[0], Concat(ls[1..]));
      SplitLinesConcat(ls[1..]);
    }
  }

  /** Every part of a concatenation occurs in it. */
  lemma {:induction false} ConcatContains(ls: seq<string>, i: int)
    requires 0 <= i < |ls|
    ensures Contains(Concat(ls), ls[i])
    decreases |ls|
  {
    var c := Concat(ls);
    var t := Concat(ls[1..]);
    assert c == ls[0] + t;
    if i == 0 {
      assert OccursAt(c, ls[0], 0);
    } else {
      ConcatContains(ls[1..], i - 1);
      assert c[|ls[0]|..|c|] == t;
      ContainsInSlice(c, |ls[0]|, |c|, ls[i]);
    }
  }

  /** Every line read from a text occurs in that text. */
  lemma LinesInText(s: string, i: int)
    requires 0 <= i < |SplitLines(s)|
    ensures Contains(s, SplitLines(s)[i])
  {
    ConcatContains(SplitLines(s), i);
  }

  /** A line as `readlines()` gives it after newline translation. */
  predicate ReadLine(l: string) {
    '\r' !in l && forall j :: 0 <= j < |l| - 1 ==> l[j] != '\n'
  }

  /** Every line read from a file is a `ReadLine`. */
  lemma ReadLinesShape(text: string)
    ensures forall i :: 0 <= i < |ReadLines(text)| ==> ReadLine(ReadLines(text)[i])
  {
    var u := UniversalNewlines(text);
    var lines := SplitLines(u);
    forall i | 0 <= i < |lines|
      ensures ReadLine(lines[i])
    {
      var l := lines[i];
      if '\r' in l {
        var j :| 0 <= j < |l| && l[j] == '\r';
        LinesInText(u, i);
        ContainsChar(u, l, j);
      }
    }
  }

  /** The first line of `m + x` begins with all of `m` when `m` has no "\n". */
  lemma {:induction false} FirstLineKeepsPrefix(m: string, x: string)
    requires m != [] && '\n' !in m
    ensures |SplitLines(m + x)| > 0 && StartsWith(SplitLines(m + x)[0], m)
    decreases |m|
  {
    var k := LineLength(m + x);
    assert forall i :: 0 <= i < |m| ==> (m + x)[i] == m[i] && m[i] != '\n';
    assert k >= |m|;
    assert SplitLines(m + x)[0] == (m + x)[..k];
    assert (m + x)[..k][..|m|] == m;
  }

  // ---------------------------------------------------------------------------
  // os.path

  /** `os.path.join(a, b)` with POSIX separators. */
  function PathJoin(a: string, b: string): (r: string)
    ensures EndsWith(r, b)
    ensures !StartsWith(b, "/") ==> StartsWith(r, a)
  {
    if StartsWith(b, "/") then b
    else if a == [] || EndsWith(a, "/") then a + b
    else a + "/" + b
  }
}
