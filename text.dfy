/**
 * The pieces of Python's text handling that the pipeline relies on: `str()` of an
 * integer, `int()` of a string, `str.zfill`, `str.upper`, `in` on strings and
 * `str.split`.
 */
module Text {
  import opened Wrappers

  predicate IsDigit(c: char) { '0' <= c <= '9' }

  predicate AllDigits(s: string) { forall i :: 0 <= i < |s| ==> IsDigit(s[i]) }

  function DigitValue(c: char): (d: nat)
    requires IsDigit(c)
    ensures d < 10
  {
    c as int - '0' as int
  }

  function DigitChar(d: nat): (c: char)
    requires d < 10
    ensures IsDigit(c) && DigitValue(c) == d
  {
    ('0' as int + d) as char
  }

  /** Decimal text of a natural number, without leading zeros. */
  function NatText(n: nat): (s: string)
    ensures AllDigits(s)
    ensures |s| >= 1 && (n < 10 <==> |s| == 1)
    decreases n
  {
    if n < 10 then [DigitChar(n)] else NatText(n / 10) + [DigitChar(n % 10)]
  }

  /** `str(n)` for a Python int. */
  function IntText(n: int): string
  {
    if n < 0 then "-" + NatText(-n) else NatText(n)
  }

  /** The number a string of decimal digits denotes. */
  function DigitsValue(s: string): nat
    requires AllDigits(s)
  {
    if s == [] then 0 else DigitsValue(s[..|s| - 1]) * 10 + DigitValue(s[|s| - 1])
  }

  /**
   * `int(s)` for a string: an optional sign followed by at least one decimal digit.
   * Anything else raises in Python and is `None` here.
   */
  function ParseInt(s: string): Option<int>
  {
    if |s| >= 2 && (s[0] == '-' || s[0] == '+') && AllDigits(s[1..]) then
      var v: int := DigitsValue(s[1..]);
      Some(if s[0] == '-' then -v else v)
    else if |s| >= 1 && AllDigits(s) then
      Some(DigitsValue(s))
    else
      None
  }

  /** `s[:k]` in Python. */
  function Prefix(s: string, k: nat): (p: string)
    ensures |p| == if k < |s| then k else |s|
    ensures forall i :: 0 <= i < |p| ==> p[i] == s[i]
  {
    if k < |s| then s[..k] else s
  }

  lemma {:induction false} NatTextValue(n: nat)
    ensures DigitsValue(NatText(n)) == n
    decreases n
  {
    var s := NatText(n);
    if n >= 10 {
      NatTextValue(n / 10);
      assert s[..|s| - 1] == NatText(n / 10);
    }
  }

  /** `int(str(n)) == n`: the decimal text of an integer reads back as that integer. */
  lemma IntTextRoundTrip(n: int)
    ensures ParseInt(IntText(n)) == Some(n)
  {
    var s := IntText(n);
    if n < 0 {
      var t := NatText(-n);
      NatTextValue(-n);
      assert s == "-" + t;
      assert s[1..] == t;
      assert |s| >= 2 && s[0] == '-' && AllDigits(s[1..]);
    } else {
      NatTextValue(n);
      assert s == NatText(n);
      assert IsDigit(s[0]);
      assert !(s[0] == '-' || s[0] == '+');
    }
  }

  /** The text of a positive number never starts with '0'. */
  lemma {:induction false} NatTextLeadingDigit(n: nat)
    requires n >= 1
    ensures NatText(n)[0] != '0'
    decreases n
  {
    if n >= 10 {
      NatTextLeadingDigit(n / 10);
    }
  }

  /** The number formed by the first two decimal digits of `n`. */
  function LeadingTwo(n: nat): (d: nat)
    requires n >= 10
    ensures 10 <= d < 100
    decreases n
  {
    if n < 100 then n else LeadingTwo(n / 10)
  }

  /** `int(str(n)[:2])` for a number of two or more digits reads its first two digits. */
  lemma {:induction false} LeadingTwoText(n: nat)
    requires n >= 10
    ensures ParseInt(Prefix(NatText(n), 2)) == Some(LeadingTwo(n))
    decreases n
  {
    if n < 100 {
      var s := NatText(n);
      assert NatText(n / 10) == [DigitChar(n / 10)];
      assert s == [DigitChar(n / 10), DigitChar(n % 10)];
      assert Prefix(s, 2) == s;
      assert s[..1] == [DigitChar(n / 10)];
      assert s[..1][..0] == [];
      assert DigitsValue(s[..1]) == n / 10;
      assert DigitsValue(s) == (n / 10) * 10 + n % 10;
    } else {
      LeadingTwoText(n / 10);
      assert Prefix(NatText(n), 2) == Prefix(NatText(n / 10), 2);
    }
  }

  /** `s.zfill(2)`: pad to width 2 with zeros, after a leading sign if there is one. */
  function ZFill2(s: string): string
  {
    if |s| >= 2 then s
    else if |s| == 1 && (s[0] == '+' || s[0] == '-') then [s[0], '0']
    else if |s| == 1 then ['0', s[0]]
    else "00"
  }

  /**
   * `str.upper` on one character. Course files are read as Latin-1, so every character
   * lies in U+0000..U+00FF; this gives Python's result for each of them.
   */
  function UpperChar(c: char): (u: string)
  {
    if 'a' <= c <= 'z' then [(c as int - 32) as char]
    else if '\U{00E0}' <= c <= '\U{00FE}' && c != '\U{00F7}' then [(c as int - 32) as char]
    else if c == '\U{00DF}' then "SS"
    else if c == '\U{00FF}' then ['\U{0178}']
    else if c == '\U{00B5}' then ['\U{039C}']
    else [c]
  }

  /** `s.upper()`: each character upper-cased in place; only "ß" grows (to "SS"). */
  function Upper(s: string): (u: string)
    ensures |u| >= |s|
  {
    if s == [] then [] else UpperChar(s[0]) + Upper(s[1..])
  }

  /** Without "ß", upper-casing keeps the length. */
  lemma {:induction false} UpperLength(s: string)
    ensures '\U{00DF}' !in s ==> |Upper(s)| == |s|
    decreases |s|
  {
    if s != [] {
      assert forall c :: c in s[1..] ==> c in s;
      UpperLength(s[1..]);
    }
  }

  /** Upper-casing works character by character: it distributes over concatenation. */
  lemma {:induction false} UpperAppend(s: string, t: string)
    ensures Upper(s + t) == Upper(s) + Upper(t)
    decreases |s|
  {
    if s == [] {
      assert s + t == t;
    } else {
      assert (s + t)[0] == s[0];
      assert (s + t)[1..] == s[1..] + t;
      UpperAppend(s[1..], t);
      assert Upper(s + t) == UpperChar(s[0]) + (Upper(s[1..]) + Upper(t));
    }
  }

  /** Without "ß", character `i` of the upper-cased text is character `i` upper-cased. */
  lemma {:induction false} UpperPointwise(s: string)
    requires '\U{00DF}' !in s
    ensures |Upper(s)| == |s|
    ensures forall i :: 0 <= i < |s| ==> |UpperChar(s[i])| == 1 && Upper(s)[i] == UpperChar(s[i])[0]
    decreases |s|
  {
    if s != [] {
      var tail := s[1..];
      assert forall c :: c in tail ==> c in s;
      UpperPointwise(tail);
      assert s[0] in s;
      var head := UpperChar(s[0]);
      assert |head| == 1;
      var u := Upper(s);
      assert u == head + Upper(tail);
      forall i | 0 <= i < |s| ensures |UpperChar(s[i])| == 1 && u[i] == UpperChar(s[i])[0] {
        if i > 0 {
          assert s[i] == tail[i - 1];
          assert u[i] == Upper(tail)[i - 1];
        }
      }
    }
  }

  /** On ASCII, lower-case letters become the matching capitals and capitals stay. */
  lemma UpperAscii(c: char)
    ensures 'a' <= c <= 'z' ==> |UpperChar(c)| == 1 && 'A' <= UpperChar(c)[0] <= 'Z' && UpperChar(c)[0] as int == c as int - 32
    ensures 'A' <= c <= 'Z' ==> UpperChar(c) == [c]
  {
  }

  /** An upper-cased character is left alone by a second upper-casing. */
  lemma UpperCharFixed(c: char)
    ensures Upper(UpperChar(c)) == UpperChar(c)
  {
    var u := UpperChar(c);
    if |u| == 1 {
      assert Upper(u) == UpperChar(u[0]) + Upper([]);
    } else {
      assert u == "SS";
      assert Upper(u) == UpperChar('S') + Upper("S");
    }
  }

  /** `s.upper().upper() == s.upper()`: text already upper-cased does not change. */
  lemma {:induction false} UpperIdempotent(s: string)
    ensures Upper(Upper(s)) == Upper(s)
    decreases |s|
  {
    if s != [] {
      UpperIdempotent(s[1..]);
      UpperAppend(UpperChar(s[0]), Upper(s[1..]));
      UpperCharFixed(s[0]);
    }
  }

  /** `p` occurs in `s` starting at position `i`. */
  predicate OccursAt(s: string, p: string, i: nat)
  {
    i + |p| <= |s| && s[i..i + |p|] == p
  }

  /** `p in s` for Python strings: `p` is a contiguous substring of `s`. */
  function Contains(s: string, p: string): (b: bool)
    ensures b <==> exists i: nat :: OccursAt(s, p, i)
    decreases |s|
  {
    if |p| <= |s| && s[..|p|] == p then
      assert OccursAt(s, p, 0);
      true
    else if |s| <= |p| then
      assert forall i: nat :: !OccursAt(s, p, i) by {
        forall i: nat ensures !OccursAt(s, p, i) {
          if i + |p| <= |s| { assert i == 0 && s[i..i + |p|] == s[..|p|]; }
        }
      }
      false
    else
      var b := Contains(s[1..], p);
      assert forall i: nat :: OccursAt(s[1..], p, i) <==> OccursAt(s, p, i + 1) by {
        forall i: nat ensures OccursAt(s[1..], p, i) <==> OccursAt(s, p, i + 1) {
          if i + 1 + |p| <= |s| { assert s[1..][i..i + |p|] == s[i + 1..i + 1 + |p|]; }
        }
      }
      assert b ==> exists i: nat :: OccursAt(s, p, i) by {
        if b { var i: nat :| OccursAt(s[1..], p, i); assert OccursAt(s, p, i + 1); }
      }
      assert (exists i: nat :: OccursAt(s, p, i)) ==> b by {
        if exists i: nat :: OccursAt(s, p, i) {
          var i: nat :| OccursAt(s, p, i);
          assert i != 0;
          assert OccursAt(s[1..], p, i - 1);
        }
      }
      b
  }

  /** `s.split(sep)[-1]`: the text after the last `sep`, or all of `s` when there is none. */
  function AfterLast(s: string, sep: char): (r: string)
    ensures sep !in r
    ensures sep !in s ==> r == s
  {
    if s == [] then []
    else if s[|s| - 1] == sep then []
    else AfterLast(s[..|s| - 1], sep) + [s[|s| - 1]]
  }

  /** `s.split(sep)[0]`: the text before the first `sep`, or all of `s` when there is none. */
  function BeforeFirst(s: string, sep: char): (r: string)
    ensures sep !in r
    ensures sep !in s ==> r == s
  {
    if s == [] then []
    else if s[0] == sep then []
    else [s[0]] + BeforeFirst(s[1..], sep)
  }

  lemma {:induction false} AfterLastAppend(s: string, t: string, sep: char)
    requires sep !in t
    ensures AfterLast(s + t, sep) == AfterLast(s, sep) + t
    decreases |t|
  {
    if t != [] {
      var t' := t[..|t| - 1];
      assert (s + t)[..|s + t| - 1] == s + t';
      AfterLastAppend(s, t', sep);
      assert t == t' + [t[|t| - 1]];
    } else {
      assert s + t == s;
    }
  }

  lemma {:induction false} BeforeFirstAppend(s: string, t: string, sep: char)
    requires sep !in s
    ensures BeforeFirst(s + t, sep) == s + BeforeFirst(t, sep)
    decreases |s|
  {
    if s != [] {
      assert (s + t)[1..] == s[1..] + t;
      BeforeFirstAppend(s[1..], t, sep);
      assert s == [s[0]] + s[1..];
    } else {
      assert s + t == t;
    }
  }

  /** The position of the first `c` in `s`, or `|s|` when there is none. */
  function IndexOf(s: string, c: char): (k: nat)
    ensures k <= |s| && (k < |s| ==> s[k] == c) && c !in s[..k]
  {
    if s == [] then 0
    else if s[0] == c then 0
    else
      var k := IndexOf(s[1..], c);
      assert s[..k + 1] == [s[0]] + s[1..][..k];
      k + 1
  }

  /**
   * `pd.to_numeric(s, errors='coerce')` followed by `.astype(int)` for text of the form
   * [sign] digits [. digits]: the value truncated toward zero; `None` (NaN) for other text.
   */
  function NumericTrunc(s: string): Option<int>
  {
    var signed := |s| > 0 && (s[0] == '-' || s[0] == '+');
    var body := if signed then s[1..] else s;
    var k := IndexOf(body, '.');
    var ip := body[..k];
    var frac := if k < |body| then body[k + 1..] else [];
    if |ip| + |frac| >= 1 && AllDigits(ip) && AllDigits(frac) then
      var v: int := DigitsValue(ip);
      Some(if signed && s[0] == '-' then -v else v)
    else None
  }

  /** The text of an integer converts back to that integer. */
  lemma NumericTruncOfIntText(n: int)
    ensures NumericTrunc(IntText(n)) == Some(n)
  {
    var s := IntText(n);
    var body := if n < 0 then NatText(-n) else NatText(n);
    assert forall i :: 0 <= i < |body| ==> IsDigit(body[i]);
    assert '.' !in body;
    if n < 0 {
      assert s == "-" + body && s[1..] == body;
      NatTextValue(-n);
    } else {
      assert s == body && IsDigit(s[0]);
      NatTextValue(n);
    }
    assert IndexOf(body, '.') == |body|;
    assert body[..|body|] == body;
  }
}
