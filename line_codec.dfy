/** One line of a menu file: the per-line checks in the body of
    `MenuFileHandler.load_menu` (main.py) and how they relate to the
    encoder `Dish.__str__`. */
module LineCodec {
  import opened Text
  import opened Dishes

  /** Why a non-blank line is rejected. Each is a `ValueError` in the source;
      the payload is the text the log message quotes. */
  datatype Failure =
    | MalformedLine(fields: nat)          // `name, price_str, time_str = line.split(',')`
    | EmptyName                           // `if not name`
    | NotANumber(priceText: string)       // `float(price_str)`
    | NonPositivePrice(priceText: string) // `if price <= 0`
    | InvalidTime(timeText: string)       // `map(int, time_str.split(':'))` and the range test

  datatype Decoded = Ok(dish: Dish) | Err(failure: Failure)

  /** `line` is `name,price,time` with no comma inside any of the three. */
  predicate ThreeFields(line: string, name: string, priceText: string, timeText: string) {
    ',' !in name && ',' !in priceText && ',' !in timeText &&
    line == name + "," + priceText + "," + timeText
  }

  /** The checks applied to a stripped, non-blank line, in the source's order:
      field count, name, price syntax, price sign, time. */
  function Decode(line: string): (r: Decoded)
    ensures r.Ok? ==> (r.dish.name != [] && IsPositive(r.dish.price) &&
      exists pt, tt :: ThreeFields(line, r.dish.name, pt, tt) &&
        ParsePrice(pt) == Some(r.dish.price) && ParseTime(tt) == Some(r.dish.prepTime))
    ensures (r.Err? && r.failure.MalformedLine?) <==> Count(line, ',') != 2
  {
    var fields := Split(line, ',');
    if |fields| != 3 then Err(MalformedLine(|fields|))
    else
      SplitIntoThree(line);
      DecodeFields(fields[0], fields[1], fields[2])
  }

  /** The checks after the split, on the name, price and time fields. */
  function DecodeFields(name: string, pt: string, tt: string): (r: Decoded)
    ensures r.Err? ==> !r.failure.MalformedLine?
    ensures r.Ok? ==> (r.dish.name == name && r.dish.name != [] && IsPositive(r.dish.price) &&
      ParsePrice(pt) == Some(r.dish.price) && ParseTime(tt) == Some(r.dish.prepTime))
  {
    if name == [] then Err(EmptyName)
    else match ParsePrice(pt)
      case None => Err(NotANumber(pt))
      case Some(price) =>
        if !IsPositive(price) then Err(NonPositivePrice(pt))
        else match ParseTime(tt)
          case None => Err(InvalidTime(tt))
          case Some(t) => Ok(Dish(name, price, t))
  }

  /** Each failure of the field checks happens exactly when that check is
      the first to fail: name, then price, then its sign, then time. */
  lemma DecodeFieldsFailure(name: string, pt: string, tt: string)
    ensures DecodeFields(name, pt, tt) == Err(EmptyName) <==> name == []
    ensures DecodeFields(name, pt, tt) == Err(NotANumber(pt)) <==>
      name != [] && ParsePrice(pt).None?
    ensures DecodeFields(name, pt, tt) == Err(NonPositivePrice(pt)) <==>
      name != [] && ParsePrice(pt).Some? && !IsPositive(ParsePrice(pt).value)
    ensures DecodeFields(name, pt, tt) == Err(InvalidTime(tt)) <==>
      name != [] && ParsePrice(pt).Some? && IsPositive(ParsePrice(pt).value) && ParseTime(tt).None?
  {
  }

  /** A line with exactly two commas is its three fields joined by commas. */
  lemma SplitIntoThree(line: string)
    requires |Split(line, ',')| == 3
    ensures var f := Split(line, ',');
            ThreeFields(line, f[0], f[1], f[2])
  {
    var f := Split(line, ',');
    JoinSplit(line, ',');
    assert f[1..][1..] == [f[2]];
    assert Join(f[1..][1..], ',') == f[2];
    assert Join(f[1..], ',') == f[1] + [','] + f[2];
    assert Join(f, ',') == f[0] + [','] + (f[1] + [','] + f[2]);
  }

  /** Every line of three comma-free fields that pass the checks is accepted,
      with exactly those fields: with the ensures of `Decode`, a non-blank line
      yields a dish if and only if all the checks pass. */
  lemma DecodeComplete(name: string, pt: string, tt: string)
    requires ',' !in name && ',' !in pt && ',' !in tt
    requires name != []
    requires ParsePrice(pt).Some? && IsPositive(ParsePrice(pt).value)
    requires ParseTime(tt).Some?
    ensures Decode(name + "," + pt + "," + tt) ==
            Ok(Dish(name, ParsePrice(pt).value, ParseTime(tt).value))
  {
    SplitThree(name, pt, tt, ',');
  }

  /** The decoding of three comma-free fields joined by commas is the
      decoding of the fields. */
  lemma DecodeThree(name: string, pt: string, tt: string)
    requires ',' !in name && ',' !in pt && ',' !in tt
    ensures Decode(name + "," + pt + "," + tt) == DecodeFields(name, pt, tt)
  {
    SplitThree(name, pt, tt, ',');
  }

  /** The name of a decoded dish is the start of its line, so it holds no
      character the line does not. */
  lemma DecodedNameAbsent(line: string, c: char)
    requires c !in line && Decode(line).Ok?
    ensures c !in Decode(line).dish.name
  {
    var name := Decode(line).dish.name;
    var pt, tt :| ThreeFields(line, name, pt, tt);
    forall i | 0 <= i < |name| ensures name[i] == line[i] {
    }
  }

  /** What the loader does with one raw line of the file. */
  datatype LineOutcome = Blank | Accepted(dish: Dish) | Rejected(line: string, failure: Failure)

  /** `line = line.strip()`, skip it when empty, otherwise decode it. A
      rejected line carries the stripped text that the log message quotes. */
  function Classify(raw: string): LineOutcome {
    var line := Strip(raw);
    if line == [] then Blank
    else match Decode(line)
      case Ok(d) => Accepted(d)
      case Err(f) => Rejected(line, f)
  }

  /** A line is skipped exactly when it is all whitespace; an accepted line
      names a dish whose name starts with a non-blank; a rejected line carries
      its stripped text and the failure of the checks on it. */
  lemma ClassifySpec(raw: string)
    ensures Classify(raw).Blank? <==> forall i :: 0 <= i < |raw| ==> IsSpace(raw[i])
    ensures Classify(raw).Accepted? ==>
      Classify(raw).dish.name != [] && !IsSpace(Classify(raw).dish.name[0])
    ensures Classify(raw).Rejected? ==>
      Classify(raw).line == Strip(raw) && Decode(Classify(raw).line) == Err(Classify(raw).failure)
  {
    var line := Strip(raw);
    AllSpaceStrip(raw);
    if line != [] && Decode(line).Ok? {
      assert Decode(line).dish.name[0] == line[0];
    }
  }

  /** A line strips to nothing exactly when it is all whitespace. */
  lemma AllSpaceStrip(s: string)
    ensures Strip(s) == [] <==> forall i :: 0 <= i < |s| ==> IsSpace(s[i])
  {
    var r := Strip(s);
    StripPadded(s);
    var k :| BlankPadded(s, r, k);
    if r != [] {
      assert !IsSpace(s[k]);
    }
  }

  /** The dishes the encoder and the loader agree on: a name that is not
      empty, has no comma and does not start with whitespace (the loader
      strips the line), and a positive price. */
  predicate LineSafe(d: Dish) {
    d.name != [] && ',' !in d.name && !IsSpace(d.name[0]) && IsPositive(d.price)
  }

  /** Round trip: the encoding of a line-safe dish is loaded back as the same dish. */
  lemma RoundTrip(d: Dish)
    requires LineSafe(d)
    ensures Classify(Encode(d)) == Accepted(d)
  {
    EncodeStripped(d);
    DecodeEncode(d);
  }

  /** The encoding of a dish whose name starts with a non-blank is already stripped. */
  lemma EncodeStripped(d: Dish)
    requires d.name != [] && !IsSpace(d.name[0])
    ensures Strip(Encode(d)) == Encode(d) != []
  {
    var line := Encode(d);
    assert line[0] == d.name[0];
    assert IsDigit(line[|line| - 1]);
    StripNoSpaceEnds(line);
  }

  /** The fields written by the encoder pass every check of the decoder. */
  lemma DecodeEncode(d: Dish)
    requires d.name != [] && ',' !in d.name && IsPositive(d.price)
    ensures Decode(Encode(d)) == Ok(d)
  {
    var pt, tt := Show(d.price), TimeText(d.prepTime);
    ShowRoundTrip(d.price);
    TimeRoundTrip(d.prepTime);
    assert ',' !in tt;
    DecodeComplete(d.name, pt, tt);
  }

  /** Whatever the loader accepts is line-safe, so decoding is idempotent:
      re-encoding an accepted dish and loading it again gives the same dish. */
  lemma AcceptedIsLineSafe(raw: string)
    requires Classify(raw).Accepted?
    ensures LineSafe(Classify(raw).dish)
    ensures Classify(Encode(Classify(raw).dish)) == Classify(raw)
  {
    var d := Classify(raw).dish;
    var line := Strip(raw);
    var pt, tt :| ThreeFields(line, d.name, pt, tt);
    RoundTrip(d);
  }

  /** The loader strips the whole line, so a name that starts with
      whitespace never comes back as written. */
  lemma LeadingSpaceLost(d: Dish)
    requires d.name != [] && IsSpace(d.name[0])
    ensures Classify(Encode(d)) != Accepted(d)
  {
    ClassifySpec(Encode(d));
  }

  /** A comma in the name makes the encoding split into more than three
      fields, and the loader rejects it. */
  lemma CommaInNameRejected(d: Dish)
    requires ',' in d.name
    ensures Classify(Encode(d)).Rejected?
    ensures Classify(Encode(d)).failure == MalformedLine(Count(d.name, ',') + 3)
  {
    var line := Encode(d);
    EncodeFields(d);
    CountZero(d.name, ',');
    assert Count(line, ',') == Count(d.name, ',') + 2;
    CommasRejected(line);
  }

  /** A line with a comma count other than two is rejected as malformed,
      with one field more than it has commas. */
  lemma CommasRejected(raw: string)
    requires Count(raw, ',') != 2
    ensures Classify(raw) == Rejected(Strip(raw), MalformedLine(Count(raw, ',') + 1))
           || (Count(raw, ',') == 0 && Classify(raw).Blank?)
  {
    var r := Strip(raw);
    StripKeepsCount(raw, ',');
    if r != [] {
      assert Decode(r) == Err(MalformedLine(Count(raw, ',') + 1));
    }
  }

  /** The loader strips every line, so the terminator a line is read with
      (`\n`) never changes what the line gives. */
  lemma TerminatorIgnored(raw: string)
    ensures Classify(raw + "\n") == Classify(raw)
  {
    StripTrailingSpace(raw, '\n');
  }

  /** Stripping whitespace never removes a comma. */
  lemma StripKeepsCount(s: string, c: char)
    requires !IsSpace(c)
    ensures Count(Strip(s), c) == Count(s, c)
  {
    var r := Strip(s);
    StripPadded(s);
    var k :| BlankPadded(s, r, k);
    var pre, post := s[..k], s[k + |r|..];
    assert s == pre + r + post;
    CountAppend(pre + r, post, c);
    CountAppend(pre, r, c);
    CountZero(pre, c);
    CountZero(post, c);
  }
}
