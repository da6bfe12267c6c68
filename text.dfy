/** The few Python string built-ins the menu core relies on: `str.strip()`,
    `str.split(sep)`, `str(n)` for a natural number and `int(text)`.
    Strings are `seq<char>`; a char is one Unicode code point. */
module Text {

  datatype Option<+T> = None | Some(value: T)

  /** Python's whitespace set (the characters `str.isspace` and the default
      `str.strip()` treat as blank), listed by code point. */
  predicate IsSpace(c: char) {
    var n := c as int;
    (0x09 <= n <= 0x0D) || (0x1C <= n <= 0x20) || n == 0x85 || n == 0xA0 ||
    n == 0x1680 || (0x2000 <= n <= 0x200A) || n == 0x2028 || n == 0x2029 ||
    n == 0x202F || n == 0x205F || n == 0x3000
  }

  /** Drops the trailing whitespace. */
  function TrimEnd(s: string): (r: string)
    ensures |r| <= |s| && r == s[..|r|]
    ensures r == [] || !IsSpace(r[|r| - 1])
    ensures forall i :: |r| <= i < |s| ==> IsSpace(s[i])
  {
    if |s| > 0 && IsSpace(s[|s| - 1]) then TrimEnd(s[..|s| - 1]) else s
  }

  /** Python's `s.strip()`: `s` with the whitespace cut from both ends. */
  function Strip(s: string): (r: string)
    ensures r == [] || (!IsSpace(r[0]) && !IsSpace(r[|r| - 1]))
  {
    if |s| > 0 && IsSpace(s[0]) then Strip(s[1..]) else TrimEnd(s)
  }

  /** `r` sits at offset `k` of `s` with only whitespace around it. */
  predicate BlankPadded(s: string, r: string, k: int) {
    0 <= k <= |s| - |r| && r == s[k..k + |r|] &&
    (forall i :: 0 <= i < k ==> IsSpace(s[i])) &&
    (forall i :: k + |r| <= i < |s| ==> IsSpace(s[i]))
  }

  /** What `strip` keeps is a piece of the text with only whitespace cut
      from before and after it. */
  lemma {:induction false} StripPadded(s: string)
    ensures exists k :: BlankPadded(s, Strip(s), k)
  {
    if |s| > 0 && IsSpace(s[0]) {
      StripPadded(s[1..]);
      var k :| BlankPadded(s[1..], Strip(s[1..]), k);
      PaddedAfterSpace(s, Strip(s[1..]), k);
      assert Strip(s) == Strip(s[1..]);
      assert BlankPadded(s, Strip(s), k + 1);
    } else {
      var r := TrimEnd(s);
      assert Strip(s) == r;
      assert r == s[0..|r|];
      assert BlankPadded(s, r, 0);
    }
  }

  /** A blank in front of a padded text only widens the padding. */
  lemma PaddedAfterSpace(s: string, r: string, k: int)
    requires |s| > 0 && IsSpace(s[0]) && BlankPadded(s[1..], r, k)
    ensures BlankPadded(s, r, k + 1)
  {
    var t := s[1..];
    forall j | 0 <= j < |r| ensures r[j] == s[k + 1 + j] {
      assert r[j] == t[k + j];
    }
    assert r == s[k + 1..k + 1 + |r|];
    forall i | 0 <= i < k + 1 ensures IsSpace(s[i]) {
      if i > 0 {
        assert s[i] == t[i - 1];
      }
    }
    forall i | k + 1 + |r| <= i < |s| ensures IsSpace(s[i]) {
      assert s[i] == t[i - 1];
    }
  }

  /** A string that neither starts nor ends with whitespace is its own strip. */
  lemma StripNoSpaceEnds(s: string)
    requires s == [] || (!IsSpace(s[0]) && !IsSpace(s[|s| - 1]))
    ensures Strip(s) == s
  {
  }

  /** Stripping ignores a trailing blank, such as a line terminator. */
  lemma {:induction false} StripTrailingSpace(s: string, c: char)
    requires IsSpace(c)
    ensures Strip(s + [c]) == Strip(s)
  {
    if s == [] {
      assert Strip([c]) == Strip([c][1..]);
    } else if IsSpace(s[0]) {
      assert (s + [c])[1..] == s[1..] + [c];
      StripTrailingSpace(s[1..], c);
    } else {
      assert (s + [c])[..|s|] == s;
    }
  }

  /** Stripping never brings in a character the text did not have. */
  lemma StripKeepsAbsent(s: string, c: char)
    requires c !in s
    ensures c !in Strip(s)
  {
    StripPadded(s);
  }

  /** Number of occurrences of `c` in `s`. */
  function Count(s: string, c: char): nat {
    if s == [] then 0 else (if s[0] == c then 1 else 0) + Count(s[1..], c)
  }

  lemma {:induction false} CountZero(s: string, c: char)
    ensures Count(s, c) == 0 <==> c !in s
  {
    if s != [] {
      CountZero(s[1..], c);
      assert s == [s[0]] + s[1..];
    }
  }

  lemma {:induction false} CountAppend(a: string, b: string, c: char)
    ensures Count(a + b, c) == Count(a, c) + Count(b, c)
  {
    if a != [] {
      assert (a + b)[1..] == a[1..] + b;
      CountAppend(a[1..], b, c);
    } else {
      assert a + b == b;
    }
  }

  /** Python's `s.split(sep)` with a one-character separator: the pieces
      between consecutive separators, so there is always at least one. */
  function Split(s: string, sep: char): (r: seq<string>)
    ensures |r| == Count(s, sep) + 1
    ensures forall i :: 0 <= i < |r| ==> sep !in r[i]
  {
    if s == [] then [[]]
    else
      var rest := Split(s[1..], sep);
      if s[0] == sep then [[]] + rest
      else [[s[0]] + rest[0]] + rest[1..]
  }

  /** Python's `sep.join(pieces)`. */
  function Join(pieces: seq<string>, sep: char): string
    requires |pieces| > 0
  {
    if |pieces| == 1 then pieces[0] else pieces[0] + [sep] + Join(pieces[1..], sep)
  }

  /** Splitting loses nothing: joining the pieces gives the string back. */
  lemma {:induction false} JoinSplit(s: string, sep: char)
    ensures Join(Split(s, sep), sep) == s
  {
    if s != [] {
      var rest := Split(s[1..], sep);
      JoinSplit(s[1..], sep);
      if s[0] == sep {
        assert Split(s, sep)[1..] == rest;
      } else {
        var r := Split(s, sep);
        assert r[1..] == rest[1..];
        if |rest| == 1 {
          assert Join(r, sep) == [s[0]] + rest[0];
        } else {
          assert Join(rest, sep) == rest[0] + [sep] + Join(rest[1..], sep);
        }
      }
    }
  }

  /** Splitting never brings in a character the text did not have. */
  lemma {:induction false} SplitKeepsAbsent(s: string, sep: char, c: char)
    requires c !in s
    ensures forall i :: 0 <= i < |Split(s, sep)| ==> c !in Split(s, sep)[i]
  {
    if s != [] {
      SplitKeepsAbsent(s[1..], sep, c);
      assert s[0] != c;
    }
  }

  /** A string without the separator is one piece. */
  lemma {:induction false} SplitNoSep(s: string, sep: char)
    requires sep !in s
    ensures Split(s, sep) == [s]
  {
    if s != [] {
      SplitNoSep(s[1..], sep);
      assert [s[0]] + s[1..] == s;
    }
  }

  /** Splitting distributes over a separator between two strings. */
  lemma {:induction false} SplitAround(a: string, sep: char, b: string)
    ensures Split(a + [sep] + b, sep) == Split(a, sep) + Split(b, sep)
  {
    if a == [] {
      assert [] + [sep] + b == [sep] + b;
      assert ([sep] + b)[1..] == b;
    } else {
      var s := a + [sep] + b;
      assert s[1..] == a[1..] + [sep] + b;
      SplitAround(a[1..], sep, b);
    }
  }

  /** The three fields `a`, `b`, `c` joined by separators come back out of `Split`. */
  lemma SplitThree(a: string, b: string, c: string, sep: char)
    requires sep !in a && sep !in b && sep !in c
    ensures Split(a + [sep] + b + [sep] + c, sep) == [a, b, c]
  {
    SplitAround(a + [sep] + b, sep, c);
    SplitAround(a, sep, b);
    SplitNoSep(a, sep);
    SplitNoSep(b, sep);
    SplitNoSep(c, sep);
  }

  // ---------------------------------------------------------------------
  // Decimal digits
  // ---------------------------------------------------------------------

  type Digit = d: int | 0 <= d < 10

  predicate IsDigit(c: char) { '0' <= c <= '9' }

  predicate AllDigits(s: string) { forall i :: 0 <= i < |s| ==> IsDigit(s[i]) }

  /** A digit string holds no separator or sign. */
  lemma NoSepInDigits(s: string, c: char)
    requires AllDigits(s) && !IsDigit(c)
    ensures c !in s
  {
  }

  function DigitChar(d: Digit): (c: char)
    ensures IsDigit(c) && DigitValue(c) == d
  {
    (d + '0' as int) as char
  }

  function DigitValue(c: char): Digit
    requires IsDigit(c)
  {
    c as int - '0' as int
  }

  /** The value of a string of decimal digits, most significant first. */
  function DigitsToNat(s: string): nat
    requires AllDigits(s)
  {
    if s == [] then 0 else DigitsToNat(s[..|s| - 1]) * 10 + DigitValue(s[|s| - 1])
  }

  /** Python's `str(n)` for a natural number: no sign, no leading zero. */
  function NatToString(n: nat): (r: string)
    ensures |r| > 0 && AllDigits(r)
    ensures r[0] != '0' || n == 0
  {
    if n < 10 then [DigitChar(n)] else NatToString(n / 10) + [DigitChar(n % 10)]
  }

  /** Reading back the decimal form of `n` gives `n`. */
  lemma {:induction false} NatToStringRoundTrip(n: nat)
    ensures DigitsToNat(NatToString(n)) == n
  {
    var s := NatToString(n);
    if n >= 10 {
      NatToStringRoundTrip(n / 10);
      assert s[..|s| - 1] == NatToString(n / 10);
    } else {
      assert s[..0] == [];
    }
  }

  /** The two-digit zero-padded form of `n` (`%02d`). */
  function Pad2(n: nat): (r: string)
    requires n < 100
    ensures |r| == 2 && AllDigits(r)
  {
    [DigitChar(n / 10), DigitChar(n % 10)]
  }

  /** `t` is the digit string `body`, possibly after a sign, and denotes `v`. */
  predicate SignedDigits(t: string, body: string, v: int) {
    |body| > 0 && AllDigits(body) &&
    ((t == body && v == DigitsToNat(body)) ||
     (t == ['+'] + body && v == DigitsToNat(body)) ||
     (t == ['-'] + body && v == 0 - DigitsToNat(body)))
  }

  /** Python's `int(text)` on decimal text: surrounding whitespace, an
      optional sign and at least one ASCII digit. */
  function ParseInt(text: string): (r: Option<int>)
    ensures |Strip(text)| > 0 && AllDigits(Strip(text)) ==> r == Some(DigitsToNat(Strip(text)))
  {
    var t := Strip(text);
    var signed := |t| > 0 && (t[0] == '+' || t[0] == '-');
    var body := if signed then t[1..] else t;
    if |body| > 0 && AllDigits(body) then
      var v: int := DigitsToNat(body);
      Some(if signed && t[0] == '-' then -v else v)
    else None
  }

  /** Whatever `int` accepts is, once stripped, a digit string with at most
      a leading sign, and the number is the one those digits denote. */
  lemma ParseIntSound(text: string)
    requires ParseInt(text).Some?
    ensures exists body :: SignedDigits(Strip(text), body, ParseInt(text).value)
  {
    var t := Strip(text);
    var signed := |t| > 0 && (t[0] == '+' || t[0] == '-');
    var body := if signed then t[1..] else t;
    if signed {
      assert t == [t[0]] + body;
    }
    assert SignedDigits(t, body, ParseInt(text).value);
  }

  /** Every optionally signed digit string is accepted, with the number it
      denotes: with `ParseIntSound`, `int` accepts exactly these texts. */
  lemma ParseIntComplete(text: string, body: string, v: int)
    requires SignedDigits(Strip(text), body, v)
    ensures ParseInt(text) == Some(v)
  {
    var t := Strip(text);
    if t != body {
      assert t[1..] == body;
    }
  }

  /** The two digits of the zero-padded form denote the number. */
  lemma Pad2Value(n: nat)
    requires n < 100
    ensures DigitsToNat(Pad2(n)) == n
  {
    var s := Pad2(n);
    assert s[..1] == [s[0]];
    assert [s[0]][..0] == [];
    assert DigitsToNat(s) == DigitsToNat([s[0]]) * 10 + DigitValue(s[1]);
  }

  /** The zero-padded form parses back to the number. */
  lemma Pad2RoundTrip(n: nat)
    requires n < 100
    ensures ParseInt(Pad2(n)) == Some(n)
  {
    StripNoSpaceEnds(Pad2(n));
    Pad2Value(n);
  }
}
