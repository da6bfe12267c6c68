/** The dish record (DishBase.py, Dish.py): a name, a price and a preparation
    time of day, fixed at construction, and the line `name,price,HH:MM` that
    `Dish.__str__` writes for it. */
module Dishes {
  import opened Text

  // ---------------------------------------------------------------------
  // Price
  // ---------------------------------------------------------------------

  /** A price as a decimal in positional form: a sign, the whole part and
      the fractional digits, without trailing zeros except for the single
      `0` of a whole number (`450.0`). */
  datatype Decimal = Decimal(negative: bool, units: nat, fraction: seq<Digit>)
  {
    predicate Canonical() {
      |fraction| > 0 && (|fraction| == 1 || fraction[|fraction| - 1] != 0)
    }
  }

  type Price = d: Decimal | d.Canonical() witness Decimal(false, 0, [0])

  /** The number `0.d1 d2 d3 ...` that a run of fractional digits stands for. */
  function FracValue(ds: seq<Digit>): (v: real)
    ensures 0.0 <= v < 1.0
  {
    if ds == [] then 0.0 else (ds[0] as real + FracValue(ds[1..])) / 10.0
  }

  /** The number a price stands for. */
  function Value(p: Decimal): real {
    var magnitude := p.units as real + FracValue(p.fraction);
    if p.negative then -magnitude else magnitude
  }

  /** Fractional digits stand for zero exactly when they are all zero. */
  lemma {:induction false} FracValueZero(ds: seq<Digit>)
    ensures FracValue(ds) == 0.0 <==> forall i :: 0 <= i < |ds| ==> ds[i] == 0
  {
    if ds != [] {
      FracValueZero(ds[1..]);
      assert forall i :: 1 <= i < |ds| ==> ds[i] == ds[1..][i - 1];
    }
  }

  /** The test `price > 0` of the loader and of the add form, decided on the
      digits: exactly the prices whose value is above zero. */
  function IsPositive(p: Price): (b: bool)
    ensures b <==> Value(p) > 0.0
  {
    FracValueZero(p.fraction);
    !p.negative && (p.units > 0 || exists i :: 0 <= i < |p.fraction| && p.fraction[i] != 0)
  }

  /** Fractional digits without their trailing zeros, or `[0]` if none is left. */
  function Normalize(ds: seq<Digit>): (r: seq<Digit>)
    ensures Decimal(false, 0, r).Canonical()
    ensures FracValue(r) == FracValue(ds)
  {
    var t := DropTrailingZeros(ds);
    FracValueZero(t);
    if t == [] then [0] else t
  }

  function DropTrailingZeros(ds: seq<Digit>): (r: seq<Digit>)
    ensures r == [] || r[|r| - 1] != 0
    ensures FracValue(r) == FracValue(ds)
  {
    if ds == [] || ds[|ds| - 1] != 0 then ds
    else
      FracValueDropZero(ds[..|ds| - 1]);
      assert ds == ds[..|ds| - 1] + [0];
      DropTrailingZeros(ds[..|ds| - 1])
  }

  /** A trailing zero digit does not change the value. */
  lemma {:induction false} FracValueDropZero(ds: seq<Digit>)
    ensures FracValue(ds + [0]) == FracValue(ds)
  {
    if ds != [] {
      assert (ds + [0])[1..] == ds[1..] + [0];
      FracValueDropZero(ds[1..]);
    }
  }

  /** Digits are printed as the characters `0`..`9`. */
  function DigitsText(ds: seq<Digit>): (r: string)
    ensures |r| == |ds| && AllDigits(r)
    ensures forall i :: 0 <= i < |ds| ==> DigitValue(r[i]) == ds[i]
  {
    if ds == [] then [] else [DigitChar(ds[0])] + DigitsText(ds[1..])
  }

  function TextDigits(s: string): (r: seq<Digit>)
    requires AllDigits(s)
    ensures |r| == |s| && forall i :: 0 <= i < |s| ==> r[i] == DigitValue(s[i])
  {
    if s == [] then [] else [DigitValue(s[0])] + TextDigits(s[1..])
  }

  /** `str(price)`: the price as the file stores it, e.g. `450.0` or `-12.5`. */
  function Show(p: Price): (r: string)
    ensures |r| > 0 && (r[0] == '-' || IsDigit(r[0])) && IsDigit(r[|r| - 1])
    ensures ',' !in r && '\n' !in r && '\r' !in r
  {
    var sign := if p.negative then "-" else "";
    var w, f := NatToString(p.units), DigitsText(p.fraction);
    NoSepInDigits(w, ','); NoSepInDigits(f, ',');
    NoSepInDigits(w, '\n'); NoSepInDigits(f, '\n');
    NoSepInDigits(w, '\r'); NoSepInDigits(f, '\r');
    sign + w + "." + f
  }

  /** Python's `float(text)` on plain decimal text: surrounding whitespace,
      an optional sign, digits with at most one `.` and at least one digit. */
  function ParsePrice(text: string): Option<Price> {
    var t := Strip(text);
    if |t| > 0 && t[0] == '-' then ParseMagnitude(t[1..], true)
    else if |t| > 0 && t[0] == '+' then ParseMagnitude(t[1..], false)
    else ParseMagnitude(t, false)
  }

  /** The unsigned part of a decimal literal: digits with at most one `.`. */
  function ParseMagnitude(body: string, negative: bool): Option<Price> {
    var parts := Split(body, '.');
    if |parts| > 2 then None
    else
      var whole := parts[0];
      var frac := if |parts| == 2 then parts[1] else "";
      if AllDigits(whole) && AllDigits(frac) && |whole| + |frac| > 0 then
        Some(Decimal(negative, DigitsToNat(whole), Normalize(TextDigits(frac))))
      else None
  }

  /** Whatever `float` accepts after the sign is a run of digits with at
      most one point, and the number read is the one those digits denote. */
  lemma ParseMagnitudeSound(body: string, negative: bool)
    requires ParseMagnitude(body, negative).Some?
    ensures exists whole, frac ::
      (AllDigits(whole) && AllDigits(frac) && |whole| + |frac| > 0 &&
       (body == whole + "." + frac || (body == whole && frac == [])) &&
       Value(ParseMagnitude(body, negative).value) ==
         (if negative then -1.0 else 1.0) * (DigitsToNat(whole) as real + FracValue(TextDigits(frac))))
  {
    var parts := Split(body, '.');
    JoinSplit(body, '.');
    var whole := parts[0];
    var frac := if |parts| == 2 then parts[1] else "";
    if |parts| == 2 {
      assert parts[1..] == [parts[1]];
      assert body == whole + "." + frac;
    } else {
      assert body == whole;
    }
    var p := ParseMagnitude(body, negative).value;
    assert p == Decimal(negative, DigitsToNat(whole), Normalize(TextDigits(frac)));
  }

  /** `float` reads the stripped text as a sign, if any, followed by the
      literal that `ParseMagnitude` reads; a leading `-` makes it negative. */
  lemma ParsePriceSound(text: string)
    requires ParsePrice(text).Some?
    ensures exists body ::
      ((Strip(text) == body || Strip(text) == "+" + body) && ParseMagnitude(body, false) == ParsePrice(text)) ||
      (Strip(text) == "-" + body && ParseMagnitude(body, true) == ParsePrice(text))
  {
    var t := Strip(text);
    if |t| > 0 && (t[0] == '-' || t[0] == '+') {
      assert t == [t[0]] + t[1..];
      assert ParseMagnitude(t[1..], t[0] == '-') == ParsePrice(text);
    } else {
      assert ParseMagnitude(t, false) == ParsePrice(text);
    }
  }

  /** An accepted literal holds no sign and no space, and is not empty. */
  lemma MagnitudeChars(body: string, negative: bool, c: char)
    requires ParseMagnitude(body, negative).Some?
    requires !IsDigit(c) && c != '.'
    ensures body != [] && c !in body
  {
    ParseMagnitudeSound(body, negative);
    var whole, frac :| AllDigits(whole) && AllDigits(frac) && |whole| + |frac| > 0 &&
      (body == whole + "." + frac || (body == whole && frac == []));
    NoSepInDigits(whole, c);
    NoSepInDigits(frac, c);
  }

  /** `float` accepts a literal its magnitude reader accepts, with or
      without a sign, and only `-` makes it negative. */
  lemma ParsePriceComplete(text: string, body: string)
    requires ParseMagnitude(body, false).Some?
    requires Strip(text) == body || Strip(text) == "+" + body || Strip(text) == "-" + body
    ensures ParsePrice(text) == ParseMagnitude(body, Strip(text) == "-" + body)
    ensures ParsePrice(text).Some? && (ParsePrice(text).value.negative <==> Strip(text) == "-" + body)
  {
    var t := Strip(text);
    MagnitudeChars(body, false, '-');
    MagnitudeChars(body, false, '+');
    if t == body {
      assert t[0] in body;
      assert t != "-" + body;
    } else {
      assert t[1..] == body;
    }
  }

  /** A whole number without a point reads as itself with fraction `0`. */
  lemma MagnitudeWhole(whole: string, negative: bool)
    requires |whole| > 0 && AllDigits(whole)
    ensures ParseMagnitude(whole, negative) == Some(Decimal(negative, DigitsToNat(whole), [0]))
  {
    NoSepInDigits(whole, '.');
    SplitNoSep(whole, '.');
    assert TextDigits("") == [];
    assert DropTrailingZeros([]) == [];
  }

  /** A literal with a point reads as the number its digits denote. */
  lemma MagnitudeValue(whole: string, frac: string, negative: bool)
    requires AllDigits(whole) && AllDigits(frac) && |whole| + |frac| > 0
    ensures ParseMagnitude(whole + "." + frac, negative).Some?
    ensures var p := ParseMagnitude(whole + "." + frac, negative).value;
            p.negative == negative &&
            Value(p) == (if negative then -1.0 else 1.0) *
                        (DigitsToNat(whole) as real + FracValue(TextDigits(frac)))
  {
    SplitAroundDigits(whole, frac);
  }

  lemma TextDigitsText(ds: seq<Digit>)
    ensures TextDigits(DigitsText(ds)) == ds
  {
  }

  /** Whatever price is written out is read back unchanged. */
  lemma ShowRoundTrip(p: Price)
    ensures ParsePrice(Show(p)) == Some(p)
  {
    var s := Show(p);
    StripNoSpaceEnds(s);
    MagnitudeRoundTrip(p);
    if p.negative { ShowSigned(p); } else { ShowUnsigned(p); }
  }

  lemma ShowSigned(p: Price)
    requires p.negative && Strip(Show(p)) == Show(p)
    ensures ParsePrice(Show(p)) == ParseMagnitude(NatToString(p.units) + "." + DigitsText(p.fraction), true)
  {
    var s := Show(p);
    assert s[1..] == NatToString(p.units) + "." + DigitsText(p.fraction);
  }

  lemma ShowUnsigned(p: Price)
    requires !p.negative && Strip(Show(p)) == Show(p)
    ensures ParsePrice(Show(p)) == ParseMagnitude(NatToString(p.units) + "." + DigitsText(p.fraction), false)
  {
    var s := Show(p);
    assert s == NatToString(p.units) + "." + DigitsText(p.fraction);
    assert IsDigit(s[0]);
  }

  lemma MagnitudeRoundTrip(p: Price)
    ensures ParseMagnitude(NatToString(p.units) + "." + DigitsText(p.fraction), p.negative) == Some(p)
  {
    var w, f := NatToString(p.units), DigitsText(p.fraction);
    SplitAroundDigits(w, f);
    NatToStringRoundTrip(p.units);
    TextDigitsText(p.fraction);
    CanonicalNormalized(p.fraction);
  }

  lemma SplitAroundDigits(w: string, f: string)
    requires AllDigits(w) && AllDigits(f)
    ensures Split(w + "." + f, '.') == [w, f]
  {
    NoSepInDigits(w, '.');
    NoSepInDigits(f, '.');
    SplitAround(w, '.', f);
    SplitNoSep(w, '.');
    SplitNoSep(f, '.');
  }

  /** Canonical digits are already normalised. */
  lemma CanonicalNormalized(ds: seq<Digit>)
    requires Decimal(false, 0, ds).Canonical()
    ensures Normalize(ds) == ds
  {
    if |ds| == 1 && ds[0] == 0 {
      assert DropTrailingZeros(ds) == DropTrailingZeros([]);
    }
  }

  // ---------------------------------------------------------------------
  // Preparation time
  // ---------------------------------------------------------------------

  datatype Time = Time(hour: int, minute: int)

  /** A `datetime.time` to the minute: its constructor refuses an hour
      outside [0, 24) or a minute outside [0, 60). */
  type PrepTime = t: Time | 0 <= t.hour < 24 && 0 <= t.minute < 60 witness Time(0, 0)

  /** `strftime('%H:%M')`: always five characters, `HH:MM`, zero-padded. */
  function TimeText(t: PrepTime): (r: string)
    ensures |r| == 5 && r[2] == ':'
    ensures AllDigits(r[..2]) && AllDigits(r[3..])
    ensures DigitsToNat(r[..2]) == t.hour < 24 && DigitsToNat(r[3..]) == t.minute < 60
  {
    Pad2Value(t.hour);
    Pad2Value(t.minute);
    var r := Pad2(t.hour) + ":" + Pad2(t.minute);
    assert r[..2] == Pad2(t.hour) && r[3..] == Pad2(t.minute);
    r
  }

  /** The loader's time check: `hours, minutes = map(int, text.split(':'))`
      followed by the range test; `None` stands for the `ValueError`. */
  function ParseTime(text: string): Option<PrepTime> {
    var parts := Split(text, ':');
    if |parts| != 2 then None
    else
      match (ParseInt(parts[0]), ParseInt(parts[1]))
      case (Some(h), Some(m)) =>
        if 0 <= h < 24 && 0 <= m < 60 then Some(Time(h, m)) else None
      case _ => None
  }

  /** `text` is two `int` literals separated by one colon, worth `h` and `m`. */
  predicate TimeFields(text: string, h: int, m: int) {
    var parts := Split(text, ':');
    |parts| == 2 && ParseInt(parts[0]) == Some(h) && ParseInt(parts[1]) == Some(m)
  }

  /** The time check accepts a text as the time `h:m` exactly when the text
      is two `int` literals around one colon, worth `h` and `m`, and both
      are in range. */
  lemma ParseTimeExact(text: string, h: int, m: int)
    ensures (ParseTime(text).Some? && ParseTime(text).value == Time(h, m)) <==>
            (TimeFields(text, h, m) && 0 <= h < 24 && 0 <= m < 60)
  {
  }

  /** The time written by the encoder is read back unchanged. */
  lemma TimeRoundTrip(t: PrepTime)
    ensures ParseTime(TimeText(t)) == Some(t)
  {
    var a, b := Pad2(t.hour), Pad2(t.minute);
    NoSepInDigits(a, ':');
    NoSepInDigits(b, ':');
    SplitAround(a, ':', b);
    SplitNoSep(a, ':');
    SplitNoSep(b, ':');
    assert Split(TimeText(t), ':') == [a, b];
    Pad2RoundTrip(t.hour);
    Pad2RoundTrip(t.minute);
  }

  // ---------------------------------------------------------------------
  // The dish
  // ---------------------------------------------------------------------

  /** `Dish(name, price, prep_time)`: the constructor stores its three
      arguments unchecked and there are no setters, so a value of this
      datatype is exactly what `DishBase` holds. */
  datatype Dish = Dish(name: string, price: Price, prepTime: PrepTime)

  /** `Dish.__str__`: `name,price,HH:MM`, with no quoting or escaping. */
  function Encode(d: Dish): (r: string)
    ensures Count(r, ',') == Count(d.name, ',') + 2
  {
    var p, t := Show(d.price), TimeText(d.prepTime);
    assert ',' !in t;
    CountZero(p, ',');
    CountZero(t, ',');
    CountAppend(d.name + "," + p + ",", t, ',');
    CountAppend(d.name + "," + p, ",", ',');
    CountAppend(d.name + ",", p, ',');
    CountAppend(d.name, ",", ',');
    d.name + "," + p + "," + t
  }

  /** The encoding has exactly two commas more than the name, so a name
      without a comma gives exactly the three fields the loader expects. */
  lemma EncodeFields(d: Dish)
    ensures |Split(Encode(d), ',')| == Count(d.name, ',') + 3
    ensures ',' !in d.name ==> Split(Encode(d), ',') == [d.name, Show(d.price), TimeText(d.prepTime)]
  {
    var p, t := Show(d.price), TimeText(d.prepTime);
    assert ',' !in t;
    SplitAround(d.name + "," + p, ',', t);
    SplitAround(d.name, ',', p);
    SplitNoSep(p, ',');
    SplitNoSep(t, ',');
    if ',' !in d.name {
      SplitNoSep(d.name, ',');
    }
  }
}
