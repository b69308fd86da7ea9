// String helpers shared by the Java services and the browser scripts.
// Case mapping is ASCII only; see README.
module Strings {
  import Seqs

  function LowerChar(c: char): char
  {
    if 'A' <= c <= 'Z' then (c as int + 32) as char else c
  }

  /** String.toLowerCase / toLowerCase() restricted to ASCII letters. */
  function Lower(s: string): (r: string)
    ensures |r| == |s|
    ensures forall i :: 0 <= i < |s| ==> r[i] == LowerChar(s[i])
  {
    seq(|s|, i requires 0 <= i < |s| => LowerChar(s[i]))
  }

  function UpperChar(c: char): char
  {
    if 'a' <= c <= 'z' then (c as int - 32) as char else c
  }

  /** String.toUpperCase restricted to ASCII letters. */
  function Upper(s: string): (r: string)
    ensures |r| == |s|
    ensures forall i :: 0 <= i < |s| ==> r[i] == UpperChar(s[i])
  {
    seq(|s|, i requires 0 <= i < |s| => UpperChar(s[i]))
  }

  predicate EqualsIgnoreCase(a: string, b: string)
  {
    Lower(a) == Lower(b)
  }

  predicate StartsWith(s: string, prefix: string)
  {
    prefix <= s
  }

  /** Substring test (String.contains / String.prototype.includes). */
  predicate Contains(s: string, sub: string)
    decreases |s|
  {
    sub <= s || (|s| > 0 && Contains(s[1..], sub))
  }

  /** Index of the first occurrence of c, or -1 (String.indexOf). */
  function IndexOf(s: string, c: char): (i: int)
    ensures -1 <= i < |s|
    ensures i >= 0 ==> s[i] == c && forall j :: 0 <= j < i ==> s[j] != c
    ensures i < 0 ==> forall j :: 0 <= j < |s| ==> s[j] != c
  {
    if |s| == 0 then -1
    else if s[0] == c then 0
    else var k := IndexOf(s[1..], c); if k < 0 then -1 else k + 1
  }

  /** Index of the last occurrence of c, or -1 (String.lastIndexOf). */
  function LastIndexOf(s: string, c: char): (i: int)
    ensures -1 <= i < |s|
    ensures i >= 0 ==> s[i] == c && forall j :: i < j < |s| ==> s[j] != c
    ensures i < 0 ==> forall j :: 0 <= j < |s| ==> s[j] != c
  {
    if |s| == 0 then -1
    else if s[|s| - 1] == c then |s| - 1
    else LastIndexOf(s[..|s| - 1], c)
  }

  /** The characters String.trim() strips in Java: code points up to U+0020. */
  predicate IsJavaTrimmed(c: char) { c <= ' ' }

  /** The space separators of Unicode (general category Zs). */
  predicate IsSpaceSeparator(c: char)
  {
    c == ' ' || c == '\U{A0}' || c == '\U{1680}' || ('\U{2000}' <= c <= '\U{200A}')
    || c == '\U{202F}' || c == '\U{205F}' || c == '\U{3000}'
  }

  /**
   * The white space String.prototype.trim() strips: ECMAScript's WhiteSpace
   * (tab, vertical tab, form feed, the byte order mark and every space
   * separator) and its LineTerminator (LF, CR, U+2028 and U+2029).
   */
  predicate IsJsSpace(c: char)
  {
    c == '\t' || c == '\U{B}' || c == '\U{C}' || c == '\U{FEFF}' || IsSpaceSeparator(c)
    || c == '\n' || c == '\r' || c == '\U{2028}' || c == '\U{2029}'
  }

  /**
   * Character.isWhitespace, as used by String.isBlank: a space, line or
   * paragraph separator other than the no-break spaces U+00A0, U+2007 and
   * U+202F, or one of the controls tab, LF, VT, FF, CR and U+001C to U+001F.
   */
  predicate IsJavaWhitespace(c: char)
  {
    (IsSpaceSeparator(c) && c != '\U{A0}' && c != '\U{2007}' && c != '\U{202F}')
    || c == '\U{2028}' || c == '\U{2029}'
    || c == '\t' || c == '\n' || c == '\U{B}' || c == '\U{C}' || c == '\r'
    || ('\U{1C}' <= c <= '\U{1F}')
  }

  function TrimJava(s: string): (r: string)
    ensures |r| <= |s|
    ensures |r| > 0 ==> !IsJavaTrimmed(r[0]) && !IsJavaTrimmed(r[|r| - 1])
    decreases |s|
  {
    if |s| > 0 && IsJavaTrimmed(s[0]) then TrimJava(s[1..])
    else if |s| > 0 && IsJavaTrimmed(s[|s| - 1]) then TrimJava(s[..|s| - 1])
    else s
  }

  function TrimJs(s: string): (r: string)
    ensures |r| <= |s|
    ensures |r| > 0 ==> !IsJsSpace(r[0]) && !IsJsSpace(r[|r| - 1])
    decreases |s|
  {
    if |s| > 0 && IsJsSpace(s[0]) then TrimJs(s[1..])
    else if |s| > 0 && IsJsSpace(s[|s| - 1]) then TrimJs(s[..|s| - 1])
    else s
  }

  /** String.isBlank (Java 11). */
  predicate IsBlank(s: string)
  {
    forall i :: 0 <= i < |s| ==> IsJavaWhitespace(s[i])
  }

  /**
   * Splits on every occurrence of sep, keeping empty pieces. Java's split
   * additionally drops trailing empty pieces; every caller in this model
   * discards empty pieces anyway.
   */
  function Split(s: string, sep: char): (parts: seq<string>)
    ensures |parts| >= 1
    decreases |s|
  {
    var i := IndexOf(s, sep);
    if i < 0 then [s] else [s[..i]] + Split(s[i + 1..], sep)
  }

  /** The images of the elements under f, concatenated in order. */
  function ConcatMap(xs: seq<string>, f: string -> string): string
  {
    if |xs| == 0 then "" else ConcatMap(xs[..|xs| - 1], f) + f(xs[|xs| - 1])
  }

  lemma {:induction false} ConcatMapAppend(a: seq<string>, b: seq<string>, f: string -> string)
    ensures ConcatMap(a + b, f) == ConcatMap(a, f) + ConcatMap(b, f)
    decreases |b|
  {
    if |b| == 0 {
      assert a + b == a;
    } else {
      var b' := b[..|b| - 1];
      assert (a + b)[..|a + b| - 1] == a + b';
      assert (a + b)[|a + b| - 1] == b[|b| - 1];
      ConcatMapAppend(a, b', f);
      Seqs.AppendAssoc(ConcatMap(a, f), ConcatMap(b', f), f(b[|b| - 1]));
    }
  }

  /** Array.prototype.join / String.join. */
  function Join(parts: seq<string>, sep: string): string
  {
    if |parts| == 0 then ""
    else if |parts| == 1 then parts[0]
    else parts[0] + sep + Join(parts[1..], sep)
  }

  /** Every occurrence of c replaced by rep (String.replace on a one-character target). */
  function ReplaceChar(s: string, c: char, rep: string): string
  {
    if |s| == 0 then ""
    else (if s[0] == c then rep else [s[0]]) + ReplaceChar(s[1..], c, rep)
  }

  function CountChar(s: string, c: char): nat
  {
    if |s| == 0 then 0 else (if s[0] == c then 1 else 0) + CountChar(s[1..], c)
  }

  function DigitChar(d: nat): char
    requires d < 10
  {
    ('0' as int + d) as char
  }

  /** Decimal rendering of an integer (String.valueOf / StringBuilder.append). */
  function NatToString(n: nat): string
    decreases n
  {
    if n < 10 then [DigitChar(n)] else NatToString(n / 10) + [DigitChar(n % 10)]
  }

  function IntToString(i: int): string
  {
    if i < 0 then "-" + NatToString(-i) else NatToString(i)
  }

  lemma {:induction false} ContainsPrefix(s: string, p: string)
    requires p <= s
    ensures Contains(s, p)
  {
  }

  lemma {:induction false} ContainsAt(s: string, sub: string, i: nat)
    requires i + |sub| <= |s| && s[i..i + |sub|] == sub
    ensures Contains(s, sub)
    decreases i
  {
    if i == 0 {
      assert sub <= s;
    } else {
      assert s[1..][i - 1..i - 1 + |sub|] == sub;
      ContainsAt(s[1..], sub, i - 1);
    }
  }

  lemma {:induction false} LengthOfReplaceChar(s: string, c: char, rep: string)
    ensures |ReplaceChar(s, c, rep)| == |s| + CountChar(s, c) * (|rep| - 1)
  {
    if |s| > 0 {
      LengthOfReplaceChar(s[1..], c, rep);
    }
  }

  /** Replacing a character distributes over concatenation. */
  lemma {:induction false} ReplaceCharAppend(a: string, b: string, c: char, rep: string)
    ensures ReplaceChar(a + b, c, rep) == ReplaceChar(a, c, rep) + ReplaceChar(b, c, rep)
    decreases |a|
  {
    if |a| == 0 {
      assert a + b == b;
    } else {
      assert (a + b)[0] == a[0] && (a + b)[1..] == a[1..] + b;
      ReplaceCharAppend(a[1..], b, c, rep);
    }
  }

  /** Replacing a character by a single character works position by position. */
  lemma {:induction false} ReplaceCharOneForOne(s: string, c: char, d: char)
    ensures |ReplaceChar(s, c, [d])| == |s|
    ensures forall i :: 0 <= i < |s| ==> ReplaceChar(s, c, [d])[i] == (if s[i] == c then d else s[i])
    decreases |s|
  {
    if |s| > 0 {
      ReplaceCharOneForOne(s[1..], c, d);
      var r := ReplaceChar(s, c, [d]);
      assert r == [if s[0] == c then d else s[0]] + ReplaceChar(s[1..], c, [d]);
      forall i | 0 < i < |s| ensures r[i] == (if s[i] == c then d else s[i]) {
        assert r[i] == ReplaceChar(s[1..], c, [d])[i - 1];
        assert s[1..][i - 1] == s[i];
      }
    }
  }

  /** A substring of a prefix of the pattern is found wherever the pattern is. */
  lemma {:induction false} ContainsPrefixOf(s: string, a: string, b: string)
    requires Contains(s, a + b)
    ensures Contains(s, a)
    decreases |s|
  {
    if a + b <= s {
      assert a <= s;
    } else {
      ContainsPrefixOf(s[1..], a, b);
    }
  }

  /** Joining one more element appends the separator and the element. */
  lemma {:induction false} JoinAppend(parts: seq<string>, last: string, sep: string)
    ensures Join(parts + [last], sep) == if |parts| == 0 then last else Join(parts, sep) + sep + last
  {
    if |parts| == 0 {
      assert parts + [last] == [last];
    } else if |parts| == 1 {
      assert parts + [last] == [parts[0], last];
    } else {
      assert (parts + [last])[1..] == parts[1..] + [last];
      JoinAppend(parts[1..], last, sep);
    }
  }

  /** The pieces of a split never hold the separator. */
  lemma {:induction false} SplitPiecesLackSep(s: string, sep: char, p: string)
    requires p in Split(s, sep)
    ensures sep !in p
    decreases |s|
  {
    var i := IndexOf(s, sep);
    if i >= 0 {
      if p != s[..i] {
        assert p in Split(s[i + 1..], sep);
        SplitPiecesLackSep(s[i + 1..], sep, p);
      }
    }
  }

  /** A string without the separator splits into itself alone. */
  lemma SplitNoSep(a: string, sep: char)
    requires sep !in a
    ensures Split(a, sep) == [a]
  {
  }

  /** Splitting stops at the first separator. */
  lemma SplitAtSep(a: string, sep: char, b: string)
    requires sep !in a
    ensures Split(a + [sep] + b, sep) == [a] + Split(b, sep)
  {
    var s := a + [sep] + b;
    var i := IndexOf(s, sep);
    assert s[|a|] == sep;
    assert forall j :: 0 <= j < |a| ==> s[j] == a[j];
    assert i == |a|;
    assert s[..i] == a;
    assert s[i + 1..] == b;
  }

  /** String.prototype.trim removes a leading blank. */
  lemma TrimJsLeadingSpace(s: string)
    ensures TrimJs(" " + s) == TrimJs(s)
  {
    assert (" " + s)[1..] == s;
  }

  /** Trimming twice is trimming once. */
  lemma TrimJsIdempotent(s: string)
    ensures TrimJs(TrimJs(s)) == TrimJs(s)
  {
  }

  /** Trimming only drops characters from the ends. */
  lemma {:induction false} TrimJsInside(s: string, c: char)
    requires c in TrimJs(s)
    ensures c in s
    decreases |s|
  {
    if |s| > 0 && IsJsSpace(s[0]) {
      TrimJsInside(s[1..], c);
    } else if |s| > 0 && IsJsSpace(s[|s| - 1]) {
      TrimJsInside(s[..|s| - 1], c);
    }
  }

  /** Code-point lexicographic order, the sign of String.compareTo; the model of every name ordering. */
  predicate LexLess(a: string, b: string)
    decreases |a|
  {
    if |a| == 0 then |b| > 0
    else |b| > 0 && (a[0] < b[0] || (a[0] == b[0] && LexLess(a[1..], b[1..])))
  }

  /** The order is strict and total: exactly one of a < b, a == b, b < a. */
  lemma {:induction false} LexLessTotal(a: string, b: string)
    ensures !LexLess(a, a)
    ensures !(LexLess(a, b) && LexLess(b, a))
    ensures a != b ==> LexLess(a, b) || LexLess(b, a)
    decreases |a|
  {
    if |a| > 0 {
      LexLessTotal(a[1..], a[1..]);
      if |b| > 0 {
        LexLessTotal(a[1..], b[1..]);
        if a[0] == b[0] && a != b {
          assert a == [a[0]] + a[1..] && b == [b[0]] + b[1..];
        }
      }
    }
  }

  lemma {:induction false} LexLessTransitive(a: string, b: string, c: string)
    requires LexLess(a, b) && LexLess(b, c)
    ensures LexLess(a, c)
    decreases |a|
  {
    if |a| > 0 && a[0] == b[0] && b[0] == c[0] {
      LexLessTransitive(a[1..], b[1..], c[1..]);
    }
  }

  /**
   * The sign of String.prototype.localeCompare, in the code-point order
   * that stands for the locale's collation.
   */
  function LocaleCompare(a: string, b: string): (c: int)
    ensures -1 <= c <= 1
    ensures c == 0 <==> a == b
    ensures c < 0 <==> LexLess(a, b)
    ensures c > 0 <==> LexLess(b, a)
  {
    LexLessTotal(a, b);
    if a == b then 0 else if LexLess(a, b) then -1 else 1
  }

  /** Counting distributes over concatenation. */
  lemma {:induction false} CountCharAppend(a: string, b: string, c: char)
    ensures CountChar(a + b, c) == CountChar(a, c) + CountChar(b, c)
    decreases |a|
  {
    if |a| == 0 {
      assert a + b == b;
    } else {
      assert (a + b)[0] == a[0] && (a + b)[1..] == a[1..] + b;
      CountCharAppend(a[1..], b, c);
    }
  }

  /** A string without c has no c to count. */
  lemma {:induction false} CountCharAbsent(s: string, c: char)
    requires c !in s
    ensures CountChar(s, c) == 0
    decreases |s|
  {
    if |s| > 0 {
      assert c !in s[1..] by {
        assert forall x :: x in s[1..] ==> x in s;
      }
      CountCharAbsent(s[1..], c);
    }
  }

  /** Splitting yields one piece more than there are separators. */
  lemma {:induction false} SplitLength(s: string, sep: char)
    ensures |Split(s, sep)| == CountChar(s, sep) + 1
    decreases |s|
  {
    var i := IndexOf(s, sep);
    if i < 0 {
      CountCharAbsent(s, sep);
    } else {
      assert s == s[..i] + [sep] + s[i + 1..];
      assert sep !in s[..i] by {
        assert forall j :: 0 <= j < i ==> s[..i][j] == s[j];
      }
      CountCharAbsent(s[..i], sep);
      CountCharAppend(s[..i] + [sep], s[i + 1..], sep);
      CountCharAppend(s[..i], [sep], sep);
      assert CountChar([sep], sep) == 1 by {
        assert [sep][1..] == [];
      }
      SplitLength(s[i + 1..], sep);
    }
  }
}
