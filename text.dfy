/** The Python `str` operations the watchlist and the symbol converter rely on,
    written on `seq<char>`: `strip`, `lower`, `upper`, `split`, `split(c, 1)`,
    `replace` of one character, `endswith`, `startswith`, `isalnum` and the
    code-point ordering `<` that `list.sort` uses for strings.
    Case mapping and `isalnum` are ASCII only; `IsSpace` is Python's full
    `str.isspace()` set, so `Strip` removes exactly what `str.strip()` removes. */
module Text {

  /** Python's `str.isspace()` for one code point. */
  predicate IsSpace(c: char) {
    || ('\t' <= c <= '\r')
    || ('\U{1C}' <= c <= ' ')
    || c == '\U{85}' || c == '\U{A0}' || c == '\U{1680}'
    || ('\U{2000}' <= c <= '\U{200A}')
    || c == '\U{2028}' || c == '\U{2029}' || c == '\U{202F}' || c == '\U{205F}' || c == '\U{3000}'
  }

  /** `s.lstrip()`. */
  function StripLeft(s: string): string {
    if |s| > 0 && IsSpace(s[0]) then StripLeft(s[1..]) else s
  }

  /** `s.rstrip()`. */
  function StripRight(s: string): string {
    if |s| > 0 && IsSpace(s[|s| - 1]) then StripRight(s[..|s| - 1]) else s
  }

  /** `s.strip()`. */
  function Strip(s: string): string {
    StripRight(StripLeft(s))
  }

  /** `lstrip()` keeps the longest suffix of `s` that does not start with white
      space: what it drops is all white space. */
  lemma {:induction false} StripLeftSpec(s: string)
    ensures |StripLeft(s)| <= |s| && StripLeft(s) == s[|s| - |StripLeft(s)|..|s|]
    ensures StripLeft(s) == [] || !IsSpace(StripLeft(s)[0])
    ensures forall i :: 0 <= i < |s| - |StripLeft(s)| ==> IsSpace(s[i])
  {
    if |s| > 0 && IsSpace(s[0]) {
      StripLeftSpec(s[1..]);
      assert forall i :: 1 <= i < |s| ==> s[1..][i - 1] == s[i];
    }
  }

  /** `rstrip()` keeps the longest prefix of `s` that does not end with white
      space: what it drops is all white space. */
  lemma {:induction false} StripRightSpec(s: string)
    ensures |StripRight(s)| <= |s| && StripRight(s) == s[..|StripRight(s)|]
    ensures StripRight(s) == [] || !IsSpace(StripRight(s)[|StripRight(s)| - 1])
    ensures forall i :: |StripRight(s)| <= i < |s| ==> IsSpace(s[i])
  {
    if |s| > 0 && IsSpace(s[|s| - 1]) {
      StripRightSpec(s[..|s| - 1]);
      assert forall i :: 0 <= i < |s| - 1 ==> s[..|s| - 1][i] == s[i];
    }
  }

  /** `strip()` leaves neither leading nor trailing white space. */
  lemma StripEnds(s: string)
    ensures Strip(s) == [] || (!IsSpace(Strip(s)[0]) && !IsSpace(Strip(s)[|Strip(s)| - 1]))
  {
    var l := StripLeft(s);
    StripLeftSpec(s);
    StripRightSpec(l);
    var r := StripRight(l);
    if r != [] {
      assert r[0] == l[0];
    }
  }

  /** A string that neither starts nor ends with white space is its own `strip()`. */
  lemma StripNoop(s: string)
    requires s == [] || (!IsSpace(s[0]) && !IsSpace(s[|s| - 1]))
    ensures Strip(s) == s
  {
  }

  lemma StripIdempotent(s: string)
    ensures Strip(Strip(s)) == Strip(s)
  {
    StripEnds(s);
    StripNoop(Strip(s));
  }

  function LowerChar(c: char): char {
    if 'A' <= c <= 'Z' then (c as int + 32) as char else c
  }

  function UpperChar(c: char): char {
    if 'a' <= c <= 'z' then (c as int - 32) as char else c
  }

  /** `s.lower()` on ASCII letters; every other character is kept. */
  function Lower(s: string): string {
    seq(|s|, i requires 0 <= i < |s| => LowerChar(s[i]))
  }

  /** `s.upper()` on ASCII letters; every other character is kept. */
  function Upper(s: string): string {
    seq(|s|, i requires 0 <= i < |s| => UpperChar(s[i]))
  }

  lemma LowerCharFacts(c: char)
    ensures LowerChar(LowerChar(c)) == LowerChar(c)
    ensures IsSpace(LowerChar(c)) == IsSpace(c)
  {
  }

  lemma UpperCharFacts(c: char)
    ensures UpperChar(UpperChar(c)) == UpperChar(c)
    ensures IsSpace(UpperChar(c)) == IsSpace(c)
  {
  }

  /** A string without ASCII capitals is its own `lower()`. */
  lemma LowerNoop(s: string)
    requires forall i :: 0 <= i < |s| ==> !('A' <= s[i] <= 'Z')
    ensures Lower(s) == s
  {
  }

  /** A string without ASCII small letters is its own `upper()`. */
  lemma UpperNoop(s: string)
    requires forall i :: 0 <= i < |s| ==> !('a' <= s[i] <= 'z')
    ensures Upper(s) == s
  {
  }

  /** Lower-casing after stripping is idempotent: `x.strip().lower()` is a fixpoint
      of `strip().lower()`, which the watchlist's key normalization relies on. */
  lemma LowerStripIdempotent(s: string)
    ensures Lower(Strip(Lower(Strip(s)))) == Lower(Strip(s))
  {
    var u := Strip(s);
    StripEnds(s);
    var t := Lower(u);
    if |t| > 0 {
      LowerCharFacts(u[0]);
      LowerCharFacts(u[|u| - 1]);
    }
    StripNoop(t);
    forall i | 0 <= i < |t| ensures Lower(t)[i] == t[i] {
      LowerCharFacts(u[i]);
    }
  }

  /** The same for `strip().upper()`. */
  lemma UpperStripIdempotent(s: string)
    ensures Upper(Strip(Upper(Strip(s)))) == Upper(Strip(s))
  {
    var u := Strip(s);
    StripEnds(s);
    var t := Upper(u);
    if |t| > 0 {
      UpperCharFacts(u[0]);
      UpperCharFacts(u[|u| - 1]);
    }
    StripNoop(t);
    forall i | 0 <= i < |t| ensures Upper(t)[i] == t[i] {
      UpperCharFacts(u[i]);
    }
  }

  /** Python's `s.split(sep)` with a one-character separator: never empty, and
      `"".split("-") == [""]`, `"a--b".split("-") == ["a", "", "b"]`. */
  function Split(s: string, sep: char): (parts: seq<string>)
    ensures |parts| >= 1
    ensures forall i :: 0 <= i < |parts| ==> sep !in parts[i]
  {
    if s == [] then [[]]
    else
      var rest := Split(s[1..], sep);
      if s[0] == sep then [[]] + rest
      else [[s[0]] + rest[0]] + rest[1..]
  }

  /** `sep.join(parts)`. */
  function Join(parts: seq<string>, sep: char): string {
    if |parts| == 0 then []
    else if |parts| == 1 then parts[0]
    else parts[0] + [sep] + Join(parts[1..], sep)
  }

  /** Joining the parts of a split gives back the string. */
  lemma {:induction false} JoinSplit(s: string, sep: char)
    ensures Join(Split(s, sep), sep) == s
  {
    if s != [] {
      var rest := Split(s[1..], sep);
      JoinSplit(s[1..], sep);
      if s[0] == sep {
        assert ([[]] + rest)[1..] == rest;
      } else {
        var parts := [[s[0]] + rest[0]] + rest[1..];
        if |rest| > 1 {
          assert parts[1..] == rest[1..];
          assert Join(rest, sep) == rest[0] + [sep] + Join(rest[1..], sep);
        }
      }
    }
  }

  /** Splitting a string that begins with a separator-free prefix `p`. */
  lemma {:induction false} SplitPrefix(p: string, x: string, sep: char)
    requires sep !in p
    ensures Split(p + x, sep) == [p + Split(x, sep)[0]] + Split(x, sep)[1..]
  {
    if p != [] {
      var sx := Split(x, sep);
      assert (p + x)[0] == p[0] != sep;
      assert (p + x)[1..] == p[1..] + x;
      SplitPrefix(p[1..], x, sep);
      var rest := Split(p[1..] + x, sep);
      assert rest == [p[1..] + sx[0]] + sx[1..];
      assert rest[0] == p[1..] + sx[0] && rest[1..] == sx[1..];
      assert Split(p + x, sep) == [[p[0]] + rest[0]] + rest[1..];
      assert [p[0]] + (p[1..] + sx[0]) == p + sx[0];
    } else {
      var sx := Split(x, sep);
      assert p + x == x;
      assert p + sx[0] == sx[0];
      assert [sx[0]] + sx[1..] == sx;
    }
  }

  /** Splitting what was joined from separator-free parts gives back the parts. */
  lemma {:induction false} SplitJoin(parts: seq<string>, sep: char)
    requires |parts| >= 1
    requires forall i :: 0 <= i < |parts| ==> sep !in parts[i]
    ensures Split(Join(parts, sep), sep) == parts
  {
    if |parts| == 1 {
      SplitPrefix(parts[0], [], sep);
      assert parts[0] + [] == parts[0];
    } else {
      var tail := Join(parts[1..], sep);
      SplitJoin(parts[1..], sep);
      assert ([sep] + tail)[1..] == tail;
      assert Split([sep] + tail, sep) == [[]] + Split(tail, sep);
      assert parts[0] + [sep] + tail == parts[0] + ([sep] + tail);
      SplitPrefix(parts[0], [sep] + tail, sep);
      assert parts[0] + [] == parts[0];
    }
  }

  /** The three-part case used for `BASE-QUOTE-TYPE` symbols. */
  lemma SplitThree(a: string, b: string, c: string, sep: char)
    requires sep !in a && sep !in b && sep !in c
    ensures Split(a + [sep] + b + [sep] + c, sep) == [a, b, c]
  {
    var parts := [a, b, c];
    assert parts[1..] == [b, c];
    assert [b, c][1..] == [c];
    assert Join([b, c], sep) == b + [sep] + c;
    assert Join(parts, sep) == a + [sep] + (b + [sep] + c);
    assert a + [sep] + b + [sep] + c == a + [sep] + (b + [sep] + c);
    SplitJoin(parts, sep);
  }

  /** The two-part case used for `BASE-QUOTE` symbols. */
  lemma SplitTwo(a: string, b: string, sep: char)
    requires sep !in a && sep !in b
    ensures Split(a + [sep] + b, sep) == [a, b]
  {
    var parts := [a, b];
    assert parts[1..] == [b];
    SplitJoin(parts, sep);
  }

  /** A separator-free string splits into itself alone. */
  lemma SplitNone(a: string, sep: char)
    requires sep !in a
    ensures Split(a, sep) == [a]
  {
    SplitJoin([a], sep);
  }

  /** The position of the first `c` in `s`. */
  function IndexOf(s: string, c: char): (i: nat)
    requires c in s
    ensures i < |s| && s[i] == c && c !in s[..i]
  {
    if s[0] == c then 0 else 1 + IndexOf(s[1..], c)
  }

  /** Python's `s.split(c, 1)` when `c in s`: the text before and after the first `c`. */
  function SplitOnce(s: string, c: char): (r: (string, string))
    requires c in s
    ensures s == r.0 + [c] + r.1 && c !in r.0
  {
    var i := IndexOf(s, c);
    (s[..i], s[i + 1..])
  }

  /** `split(c, 1)` cuts at the first `c`. */
  lemma SplitOnceAt(a: string, b: string, c: char)
    requires c !in a
    ensures c in a + [c] + b
    ensures SplitOnce(a + [c] + b, c) == (a, b)
  {
    var s := a + [c] + b;
    assert s[|a|] == c;
    var i := IndexOf(s, c);
    assert forall j :: 0 <= j < |a| ==> s[j] == a[j];
    assert forall j :: 0 <= j < i ==> s[..i][j] == s[j];
    assert i == |a|;
    assert s[..i] == a;
    assert s[i + 1..] == b;
  }

  /** `s.replace(a, b)` for single characters. */
  function ReplaceChar(s: string, a: char, b: char): string {
    seq(|s|, i requires 0 <= i < |s| => if s[i] == a then b else s[i])
  }

  lemma ReplaceCharConcat(x: string, y: string, a: char, b: char)
    ensures ReplaceChar(x + y, a, b) == ReplaceChar(x, a, b) + ReplaceChar(y, a, b)
  {
  }

  lemma ReplaceCharNoop(s: string, a: char, b: char)
    requires a !in s
    ensures ReplaceChar(s, a, b) == s
  {
  }

  predicate EndsWith(s: string, suffix: string) {
    |suffix| <= |s| && s[|s| - |suffix|..] == suffix
  }

  predicate StartsWith(s: string, prefix: string) {
    prefix <= s
  }

  predicate IsAlnumChar(c: char) {
    ('0' <= c <= '9') || ('A' <= c <= 'Z') || ('a' <= c <= 'z')
  }

  /** `s.isalnum()`: false on the empty string. */
  predicate IsAlnum(s: string) {
    |s| > 0 && forall i :: 0 <= i < |s| ==> IsAlnumChar(s[i])
  }

  /** Python's `a < b` on strings: lexicographic by code point, a proper prefix first. */
  predicate StrLess(a: string, b: string) {
    if |a| == 0 then |b| > 0
    else if |b| == 0 then false
    else if a[0] != b[0] then a[0] < b[0]
    else StrLess(a[1..], b[1..])
  }

  lemma {:induction false} StrLessIrreflexive(a: string)
    ensures !StrLess(a, a)
  {
    if |a| > 0 {
      StrLessIrreflexive(a[1..]);
    }
  }

  lemma {:induction false} StrLessTransitive(a: string, b: string, c: string)
    requires StrLess(a, b) && StrLess(b, c)
    ensures StrLess(a, c)
  {
    if |a| > 0 && a[0] == b[0] && b[0] == c[0] {
      StrLessTransitive(a[1..], b[1..], c[1..]);
    }
  }

  lemma {:induction false} StrLessTotal(a: string, b: string)
    requires a != b
    ensures StrLess(a, b) || StrLess(b, a)
  {
    if |a| > 0 && |b| > 0 && a[0] == b[0] {
      assert a == [a[0]] + a[1..] && b == [b[0]] + b[1..];
      StrLessTotal(a[1..], b[1..]);
    }
  }
}
