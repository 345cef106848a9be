/** String primitives of the JavaScript runtime that the handlers and forms
    rely on: white space, `trim`, `toLowerCase`, `includes`, `split`,
    decimal rendering and parsing, `padStart` and `Number(...)`. */
module Text {
  import opened Base

  /** JavaScript's white space and line terminators: the set matched by the
      regular-expression class `\s` and removed by `String.prototype.trim`. */
  predicate IsSpace(c: char) {
    c == ' ' || ('\t' <= c <= '\r') || c == '\U{A0}' || ('\U{1680}' <= c && Among(c, WideSpace))
  }

  const WideSpace: seq<char> := [
    '\U{1680}', '\U{2000}', '\U{2001}', '\U{2002}', '\U{2003}', '\U{2004}', '\U{2005}',
    '\U{2006}', '\U{2007}', '\U{2008}', '\U{2009}', '\U{200A}',
    '\U{2028}', '\U{2029}', '\U{202F}', '\U{205F}', '\U{3000}', '\U{FEFF}'
  ]

  predicate Among(c: char, cs: seq<char>) {
    cs != [] && (cs[0] == c || Among(c, cs[1..]))
  }

  /** The white space of the ECMAScript standard listed out: tab, line
      tabulation, form feed, space, no-break space, the byte-order mark, the
      space separators of Unicode category Zs and the four line terminators. */
  const JsWhiteSpace: set<char> := {
    '\U{9}', '\U{A}', '\U{B}', '\U{C}', '\U{D}', '\U{20}', '\U{A0}', '\U{1680}',
    '\U{2000}', '\U{2001}', '\U{2002}', '\U{2003}', '\U{2004}', '\U{2005}', '\U{2006}',
    '\U{2007}', '\U{2008}', '\U{2009}', '\U{200A}', '\U{2028}', '\U{2029}', '\U{202F}',
    '\U{205F}', '\U{3000}', '\U{FEFF}'
  }

  lemma {:induction false} AmongIsIn(c: char, cs: seq<char>)
    ensures Among(c, cs) <==> c in cs
  {
    if cs != [] {
      AmongIsIn(c, cs[1..]);
      assert c in cs <==> cs[0] == c || c in cs[1..];
    }
  }

  /** `IsSpace` holds of exactly the listed white-space characters. */
  lemma IsSpaceExactly(c: char)
    ensures IsSpace(c) <==> c in JsWhiteSpace
  {
    AmongIsIn(c, WideSpace);
  }

  /** `s.length`: the number of UTF-16 code units, a character above U+FFFF
      being a surrogate pair. */
  function Utf16Length(s: string): (n: nat)
    ensures |s| <= n <= 2 * |s|
    ensures (forall i :: 0 <= i < |s| ==> s[i] as int <= 0xFFFF) ==> n == |s|
  {
    if s == [] then 0
    else (if s[0] as int > 0xFFFF then 2 else 1) + Utf16Length(s[1..])
  }

  /** A character outside the Basic Multilingual Plane has length 2. */
  lemma AstralLength(c: char)
    requires c as int > 0xFFFF
    ensures Utf16Length([c]) == 2
  {
  }

  /** How many white-space characters `s` starts with. */
  function TrimOffset(s: string): (k: nat)
    ensures k <= |s|
    ensures forall i :: 0 <= i < k ==> IsSpace(s[i])
    ensures k < |s| ==> !IsSpace(s[k])
  {
    if s != [] && IsSpace(s[0]) then
      var rest := TrimOffset(s[1..]);
      assert forall i :: 1 <= i < rest + 1 ==> s[i] == s[1..][i - 1];
      rest + 1
    else 0
  }

  /** How many white-space characters `s` ends with. */
  function TrailingSpace(s: string): (e: nat)
    ensures e <= |s|
    ensures forall i :: |s| - e <= i < |s| ==> IsSpace(s[i])
    ensures e < |s| ==> !IsSpace(s[|s| - e - 1])
  {
    if s != [] && IsSpace(s[|s| - 1]) then
      var front := s[..|s| - 1];
      var rest := TrailingSpace(front);
      assert forall i :: 0 <= i < |front| ==> s[i] == front[i];
      rest + 1
    else 0
  }

  /** `s.trimStart()`: `s` without its leading white space. */
  function TrimStart(s: string): (r: string)
    ensures r == [] || !IsSpace(r[0])
  {
    s[TrimOffset(s)..]
  }

  /** `s.trimEnd()`: `s` without its trailing white space. */
  function TrimEnd(s: string): (r: string)
    ensures r == [] || !IsSpace(r[|r| - 1])
  {
    s[..|s| - TrailingSpace(s)]
  }

  /** `s.trim()`: the block of `s` between its leading and trailing white
      space; a string without white space at either end is kept as it is. */
  function Trim(s: string): (r: string)
    ensures r == [] || (!IsSpace(r[0]) && !IsSpace(r[|r| - 1]))
    ensures r == [] <==> forall i :: 0 <= i < |s| ==> IsSpace(s[i])
    ensures (s == [] || (!IsSpace(s[0]) && !IsSpace(s[|s| - 1]))) ==> r == s
  {
    var k := TrimOffset(s);
    var t := s[k..];
    var e := TrailingSpace(t);
    var r := t[..|t| - e];
    assert r == [] || (!IsSpace(r[0]) && !IsSpace(r[|r| - 1])) by {
      if r != [] {
        assert r[0] == s[k] && r[|r| - 1] == t[|t| - e - 1];
      }
    }
    assert r == [] <==> forall i :: 0 <= i < |s| ==> IsSpace(s[i]) by {
      if r != [] {
        assert r[0] == s[k];
      }
    }
    assert s != [] && !IsSpace(s[0]) && !IsSpace(s[|s| - 1]) ==> r == s by {
      if s != [] && !IsSpace(s[0]) && !IsSpace(s[|s| - 1]) {
        assert k == 0 && t == s;
        assert e == 0;
      }
    }
    r
  }

  /** What `trim` keeps is the slice of `s` after its leading white space. */
  lemma TrimIsSlice(s: string)
    ensures var k, r := TrimOffset(s), Trim(s); k + |r| <= |s| && r == s[k..k + |r|]
  {
    var k := TrimOffset(s);
    var t := s[k..];
    var r := t[..|t| - TrailingSpace(t)];
    assert Trim(s) == r;
    SliceOfSuffix(s, k, |r|);
  }

  /** Only white space follows what `trim` keeps. */
  lemma TrimDropsTrailingSpace(s: string)
    ensures var k, r := TrimOffset(s), Trim(s);
      forall i :: k + |r| <= i < |s| ==> IsSpace(s[i])
  {
    var k := TrimOffset(s);
    var t := s[k..];
    var r := t[..|t| - TrailingSpace(t)];
    assert Trim(s) == r;
    forall i | k + |r| <= i < |s| ensures IsSpace(s[i]) {
      assert s[i] == t[i - k];
    }
  }

  /** A prefix of a suffix is a slice. */
  lemma SliceOfSuffix<T>(s: seq<T>, k: nat, n: nat)
    requires k + n <= |s|
    ensures s[k..][..n] == s[k..k + n]
  {
  }

  /** `trim` is `trimEnd` after `trimStart`. */
  lemma TrimIsTrimEndOfTrimStart(s: string)
    ensures Trim(s) == TrimEnd(TrimStart(s))
  {
  }

  /** `s` is its `trimEnd` followed by white space only. */
  lemma TrimEndThenSpace(s: string)
    ensures var n := |TrimEnd(s)|; s == TrimEnd(s) + s[n..] && (n == |s| || IsSpace(s[n]))
  {
    var n := |TrimEnd(s)|;
    assert s == s[..n] + s[n..];
  }

  /** `toLowerCase` on one character. Upper-case letters of Basic Latin and
      Latin-1 map to their lower-case forms; every other character is kept. */
  function LowerChar(c: char): (r: char)
    ensures !('A' <= r <= 'Z')
    ensures r == c || r as int == c as int + 32
  {
    if 'A' <= c <= 'Z' || ('\U{C0}' <= c <= '\U{DE}' && c != '\U{D7}') then
      (c as int + 32) as char
    else c
  }

  /** `toLowerCase` on a string, character by character. */
  function ToLower(s: string): (r: string)
    ensures |r| == |s|
    ensures forall i :: 0 <= i < |s| ==> r[i] == LowerChar(s[i])
  {
    seq(|s|, i requires 0 <= i < |s| => LowerChar(s[i]))
  }

  /** Lower-casing neither creates nor removes white space. */
  lemma LowerKeepsSpace(c: char)
    ensures IsSpace(LowerChar(c)) <==> IsSpace(c)
    ensures c == ' ' <==> LowerChar(c) == ' '
  {
  }

  /** Case-insensitive equality, as a comparison of lower-cased forms. */
  predicate EqualsIgnoringCase(a: string, b: string): (eq: bool)
    ensures eq <==> |a| == |b| && forall i :: 0 <= i < |a| ==> LowerChar(a[i]) == LowerChar(b[i])
    ensures a == b ==> eq
  {
    assert |a| == |b| && (forall i :: 0 <= i < |a| ==> LowerChar(a[i]) == LowerChar(b[i])) ==> ToLower(a) == ToLower(b);
    ToLower(a) == ToLower(b)
  }

  /** `s.includes(sub)`: `sub` occurs in `s` at some position. */
  predicate Contains(s: string, sub: string)
    decreases |s|
  {
    sub <= s || (s != [] && Contains(s[1..], sub))
  }

  /** `sub` occurs in `s` starting at position `i`. */
  predicate OccursAt(s: string, sub: string, i: int) {
    0 <= i && i + |sub| <= |s| && s[i..i + |sub|] == sub
  }

  /** `Contains` finds `sub` exactly when it occurs at some position. */
  lemma {:induction false} ContainsExactly(s: string, sub: string)
    ensures Contains(s, sub) <==> exists i :: OccursAt(s, sub, i)
    decreases |s|
  {
    if sub <= s {
      assert OccursAt(s, sub, 0);
    }
    if s != [] {
      ContainsExactly(s[1..], sub);
      if exists i :: OccursAt(s, sub, i) {
        var i :| OccursAt(s, sub, i);
        if i > 0 {
          assert OccursAt(s[1..], sub, i - 1);
        } else {
          assert sub <= s;
        }
      }
      if exists i :: OccursAt(s[1..], sub, i) {
        var i :| OccursAt(s[1..], sub, i);
        assert OccursAt(s, sub, i + 1);
      }
    } else if exists i :: OccursAt(s, sub, i) {
      var i :| OccursAt(s, sub, i);
      assert sub <= s;
    }
  }

  // ---- split and join -------------------------------------------------

  /** Position of the first occurrence of `c` in `s`. */
  function IndexOf(s: string, c: char): (i: nat)
    requires c in s
    ensures i < |s| && s[i] == c && c !in s[..i]
  {
    if s[0] == c then 0 else 1 + IndexOf(s[1..], c)
  }

  /** `parts.join(sep)`. */
  function Join(parts: seq<string>, sep: char): string
    requires |parts| >= 1
  {
    if |parts| == 1 then parts[0] else parts[0] + [sep] + Join(parts[1..], sep)
  }

  /** `s.split(sep)` for a one-character separator: the pieces between the
      separators, none of which contains the separator, and joining them back
      gives `s`. */
  function Split(s: string, sep: char): (parts: seq<string>)
    ensures |parts| >= 1
    ensures forall p <- parts :: sep !in p
    ensures Join(parts, sep) == s
    decreases |s|
  {
    if sep !in s then [s]
    else
      var i := IndexOf(s, sep);
      var rest := Split(s[i + 1..], sep);
      assert s == s[..i] + [sep] + s[i + 1..];
      [s[..i]] + rest
  }

  /** `fileName.split('.').pop()`: the text after the last dot, or the whole
      name when it has no dot. */
  function Extension(fileName: string): (ext: string)
    ensures '.' !in ext
    ensures '.' !in fileName ==> ext == fileName
  {
    var parts := Split(fileName, '.');
    assert parts[|parts| - 1] in parts;
    parts[|parts| - 1]
  }

  /** The last piece of a split is whatever follows the last separator. */
  lemma {:induction false} SplitLast(p: string, sep: char, e: string)
    requires sep !in e
    ensures var parts := Split(p + [sep] + e, sep); parts[|parts| - 1] == e
    decreases |p|
  {
    var s := p + [sep] + e;
    if sep in p {
      IndexOfWithin(p, [sep] + e, sep);
      var i := IndexOf(p, sep);
      assert s == p + ([sep] + e);
      assert s[i + 1..] == p[i + 1..] + [sep] + e;
      SplitLast(p[i + 1..], sep, e);
    } else {
      IndexOfAfter(p, sep, e);
      assert s[IndexOf(s, sep) + 1..] == e;
    }
  }

  /** The first separator of `p + t` is the first one of `p` when `p` has one. */
  lemma IndexOfWithin(p: string, t: string, sep: char)
    requires sep in p
    ensures sep in p + t && IndexOf(p + t, sep) == IndexOf(p, sep)
  {
    var s := p + t;
    var j := IndexOf(p, sep);
    assert s[j] == sep;
    var i := IndexOf(s, sep);
    assert s[..j] == p[..j];
    assert i <= j by { assert s[j] !in s[..i] || j < i; }
    assert p[..i] <= p[..j];
  }

  /** A name ending in `.` and a dot-free tail has that tail as extension. */
  lemma ExtensionOf(p: string, e: string)
    requires '.' !in e
    ensures Extension(p + "." + e) == e
  {
    SplitLast(p, '.', e);
  }

  /** The first separator of `a + [sep] + b` is the one after `a` when `a`
      has none. */
  lemma {:induction false} IndexOfAfter(a: string, sep: char, b: string)
    requires sep !in a
    ensures sep in a + [sep] + b && IndexOf(a + [sep] + b, sep) == |a|
  {
    var s := a + [sep] + b;
    assert s[|a|] == sep;
    if a != [] {
      assert s[0] == a[0];
      assert s[1..] == a[1..] + [sep] + b;
      IndexOfAfter(a[1..], sep, b);
    }
  }

  /** Splitting two separator-free pieces joined by the separator. */
  lemma SplitTwo(a: string, b: string, sep: char)
    requires sep !in a && sep !in b
    ensures Split(a + [sep] + b, sep) == [a, b]
  {
    var parts := [a, b];
    assert Join(parts[1..], sep) == b;
    SplitJoin(parts, sep);
  }

  /** Splitting three separator-free pieces joined by the separator. */
  lemma SplitThree(a: string, b: string, c: string, sep: char)
    requires sep !in a && sep !in b && sep !in c
    ensures Split(a + [sep] + b + [sep] + c, sep) == [a, b, c]
  {
    var parts := [a, b, c];
    assert Join(parts[2..], sep) == c;
    assert Join(parts[1..], sep) == b + [sep] + c;
    assert a + [sep] + b + [sep] + c == a + [sep] + (b + [sep] + c);
    SplitJoin(parts, sep);
  }

  /** Splitting a join of separator-free pieces gives the pieces back. */
  lemma {:induction false} SplitJoin(parts: seq<string>, sep: char)
    requires |parts| >= 1
    requires forall p <- parts :: sep !in p
    ensures Split(Join(parts, sep), sep) == parts
  {
    if |parts| > 1 {
      var s := Join(parts, sep);
      var tail := Join(parts[1..], sep);
      assert s == parts[0] + [sep] + tail;
      assert parts[0] in parts;
      IndexOfAfter(parts[0], sep, tail);
      assert s[..|parts[0]|] == parts[0];
      assert s[|parts[0]| + 1..] == tail;
      SplitJoin(parts[1..], sep);
    } else {
      assert parts[0] in parts;
    }
  }

  // ---- decimal numbers ------------------------------------------------

  predicate IsDigit(c: char) {
    '0' <= c <= '9'
  }

  /** No decimal digit is white space. */
  lemma DigitIsNoSpace(c: char)
    requires IsDigit(c)
    ensures !IsSpace(c)
  {
  }

  predicate AllDigits(s: string) {
    forall i :: 0 <= i < |s| ==> IsDigit(s[i])
  }

  function DigitValue(c: char): nat
    requires IsDigit(c)
  {
    c as int - '0' as int
  }

  /** The value of a string of decimal digits (the empty string reads as 0). */
  function DigitsValue(s: string): nat
    requires AllDigits(s)
  {
    if s == [] then 0 else DigitsValue(s[..|s| - 1]) * 10 + DigitValue(s[|s| - 1])
  }

  /** The decimal rendering of `n`, as a template literal shows a number:
      at least one digit and no leading zero, and it reads back as `n`. */
  function ShowNat(n: nat): (r: string)
    ensures |r| >= 1 && AllDigits(r)
    ensures |r| > 1 ==> r[0] != '0'
    ensures DigitsValue(r) == n
  {
    var last := ('0' as int + n % 10) as char;
    if n < 10 then [last]
    else
      var front := ShowNat(n / 10);
      var r := front + [last];
      assert r[..|r| - 1] == front;
      r
  }

  /** A template literal's rendering of an integer. */
  function ShowInt(n: int): (r: string)
    ensures n >= 0 ==> r != [] && AllDigits(r) && DigitsValue(r) == n
    ensures n < 0 ==> |r| >= 2 && r[0] == '-' && AllDigits(r[1..]) && DigitsValue(r[1..]) == -n
  {
    if n >= 0 then ShowNat(n) else "-" + ShowNat(-n)
  }

  /** Leading zeros do not change the value of a digit string. */
  lemma {:induction false} LeadingZero(s: string)
    requires AllDigits(s)
    ensures AllDigits(['0'] + s) && DigitsValue(['0'] + s) == DigitsValue(s)
  {
    if s != [] {
      var z := ['0'] + s;
      assert z[..|z| - 1] == ['0'] + s[..|s| - 1];
      LeadingZero(s[..|s| - 1]);
    }
  }

  /** `s.padStart(2, "0")`. */
  function PadTwo(s: string): (r: string)
    ensures |s| >= 2 ==> r == s
    ensures |s| < 2 ==> |r| == 2 && r[2 - |s|..] == s && forall i :: 0 <= i < 2 - |s| ==> r[i] == '0'
  {
    if |s| >= 2 then s else if |s| == 1 then ['0'] + s else "00"
  }

  /** `Number(s)` for the strings the handlers meet, with `None` for NaN:
      surrounding white space is ignored, a blank string is 0, and an
      optional sign followed by decimal digits is an integer. */
  function JsNumber(s: string): (r: Option<int>)
    ensures AllDigits(s) && s != [] ==> r == Some(DigitsValue(s))
    ensures (forall i :: 0 <= i < |s| ==> IsSpace(s[i])) ==> r == Some(0)
  {
    var t := Trim(s);
    if AllDigits(s) && s != [] then
      DigitIsNoSpace(s[0]);
      DigitIsNoSpace(s[|s| - 1]);
      assert t == s;
      Some(DigitsValue(t))
    else
    if t == [] then Some(0)
    else if AllDigits(t) then Some(DigitsValue(t))
    else if |t| > 1 && (t[0] == '-' || t[0] == '+') && AllDigits(t[1..]) then
      var v: int := DigitsValue(t[1..]);
      Some(if t[0] == '-' then -v else v)
    else None
  }

  // ---- lexicographic order ----------------------------------------------

  /** Code-point lexicographic order on strings: `a` sorts no later than
      `b`. A prefix sorts first. */
  predicate LexLe(a: string, b: string): (le: bool)
    ensures a <= b ==> le
  {
    a == [] || (b != [] && (a[0] < b[0] || (a[0] == b[0] && LexLe(a[1..], b[1..]))))
  }

  /** Two strings that sort no later than each other are equal. */
  lemma {:induction false} LexAntisymmetric(a: string, b: string)
    requires LexLe(a, b) && LexLe(b, a)
    ensures a == b
  {
    if a != [] && b != [] {
      LexAntisymmetric(a[1..], b[1..]);
      assert a == [a[0]] + a[1..] && b == [b[0]] + b[1..];
    }
  }

  /** Any two strings are comparable. */
  lemma {:induction false} LexTotal(a: string, b: string)
    ensures LexLe(a, b) || LexLe(b, a)
  {
    if a != [] && b != [] && a[0] == b[0] {
      LexTotal(a[1..], b[1..]);
    }
  }
}
