/** The situations the repository's unit tests and its file format describe,
    stated on the model: the sample dish `Паста Карбонара, 450.0, 00:20` and
    the three malformed files the loader must reject with one log entry. */
module Scenarios {
  import opened Text
  import opened Dishes
  import opened LineCodec
  import opened Log
  import opened MenuFile
  import opened Window

  const Price450: Price := Decimal(false, 450, [0])
  const CarbonaraName: string := "Паста Карбонара"
  const Carbonara: Dish := Dish(CarbonaraName, Price450, Time(0, 20))

  /** The lines of the three malformed files of the tests. */
  const EmptyNameText: string := ",450.0,00:20"
  const NegativePriceText: string := CarbonaraName + ",-450.0,00:20"
  const BadHourText: string := CarbonaraName + ",450.0,25:20"

  /** The line of the first malformed file holds no line break. */
  lemma EmptyNameTextClean()
    ensures '\n' !in EmptyNameText && '\r' !in EmptyNameText
  {
  }

  /** The sample name holds no comma and no line break. */
  lemma CarbonaraNameClean()
    ensures ',' !in CarbonaraName && '\n' !in CarbonaraName && '\r' !in CarbonaraName
  {
  }

  /** A line made of the sample name and two more fields, the last not
      ending in whitespace, is classified by the checks on its fields. */
  lemma CarbonaraFields(pt: string, tt: string)
    requires ',' !in pt && ',' !in tt && tt != [] && !IsSpace(tt[|tt| - 1])
    ensures var line := CarbonaraName + "," + pt + "," + tt;
            Classify(line) == match DecodeFields(CarbonaraName, pt, tt)
                              case Ok(d) => Accepted(d)
                              case Err(f) => Rejected(line, f)
  {
    var line := CarbonaraName + "," + pt + "," + tt;
    assert line[0] == 'П' && line[|line| - 1] == tt[|tt| - 1];
    StripNoSpaceEnds(line);
    CarbonaraNameClean();
    DecodeThree(CarbonaraName, pt, tt);
  }

  /** A file holding one line and its terminator is loaded as that one line,
      numbered 1. */
  lemma OneLineFile(line: string)
    requires '\n' !in line && '\r' !in line
    ensures LoadedDishes(line + "\n") == DishesFor(Classify(line))
    ensures Diagnostics(line + "\n") == DiagnosticsFor(Classify(line), 1)
  {
    assert Terminated([line]) == line + "\n";
    TerminatedNoCR([line]);
    LinesTerminated([line]);
    assert FileLines(line + "\n") == [line];
    assert [line][..0] == [];
    var outs := Outcomes([line]);
    assert outs == [Classify(line)];
    assert outs[..0] == [];
    assert DishesOf(outs) == DishesFor(Classify(line));
    assert DiagnosticsOf(outs) == DiagnosticsFor(Classify(line), 1);
  }

  /** `str(dish)` of the sample dish. */
  lemma CarbonaraLine()
    ensures Encode(Carbonara) == "Паста Карбонара,450.0,00:20"
  {
    assert NatToString(4) == "4";
    assert NatToString(45) == "45";
    assert Show(Price450) == "450.0";
    assert TimeText(Time(0, 20)) == "00:20";
    assert Encode(Carbonara) == CarbonaraName + "," + "450.0" + "," + "00:20";
    CarbonaraLiteral();
  }

  /** The sample line, written as its pieces. */
  lemma CarbonaraLiteral()
    ensures CarbonaraName + "," + "450.0" + "," + "00:20" == "Паста Карбонара,450.0,00:20"
  {
  }

  /** Saving the sample menu and loading it back gives the same menu and
      logs nothing. */
  lemma CarbonaraSavedAndLoaded()
    ensures LoadedDishes(SaveText([Carbonara])) == [Carbonara]
    ensures Diagnostics(SaveText([Carbonara])) == []
  {
    assert IsPositive(Price450);
    assert FileSafe(Carbonara);
    SaveLoadRoundTrip([Carbonara]);
  }

  /** `450.0` reads as the sample price, with or without a minus sign. */
  lemma Price450Text(negative: bool)
    ensures ParseMagnitude("450.0", negative).Some?
    ensures var p := ParseMagnitude("450.0", negative).value;
            IsPositive(p) == !negative && (!negative ==> p == Price450)
  {
    assert "450.0" == "450" + "." + "0";
    SplitAroundDigits("450", "0");
    assert "450"[..2] == "45" && "45"[..1] == "4" && "4"[..0] == "";
    assert DigitsToNat("450") == 450;
    assert TextDigits("0") == [0];
    CanonicalNormalized([0]);
  }

  /** `,450.0,00:20`: the name field is empty. */
  lemma EmptyNameLine()
    ensures Classify(EmptyNameText) == Rejected(EmptyNameText, EmptyName)
  {
    var line := EmptyNameText;
    StripNoSpaceEnds(line);
    assert line == "" + [','] + "450.0" + [','] + "00:20";
    SplitThree("", "450.0", "00:20", ',');
  }

  /** `-450.0` is a number, and not a positive one. */
  lemma NegativePriceField()
    ensures ParsePrice("-450.0").Some? && !IsPositive(ParsePrice("-450.0").value)
  {
    StripNoSpaceEnds("-450.0");
    assert "-450.0"[1..] == "450.0";
    Price450Text(true);
  }

  /** `450.0` is the sample price. */
  lemma PriceField()
    ensures ParsePrice("450.0") == Some(Price450)
  {
    StripNoSpaceEnds("450.0");
    Price450Text(false);
  }

  /** `25:20` is the two integers 25 and 20, but 25 is not an hour. */
  lemma HourOutOfRangeField()
    ensures TimeFields("25:20", 25, 20)
    ensures ParseTime("25:20") == None
  {
    SplitTwentyFive();
    TwoDigits('2', '5');
    TwoDigits('2', '0');
    assert "25" == ['2', '5'] && "20" == ['2', '0'];
  }

  /** `25:20` splits at its colon into `25` and `20`. */
  lemma SplitTwentyFive()
    ensures Split("25:20", ':') == ["25", "20"]
  {
    assert "25:20" == "25" + [':'] + "20";
    SplitAround("25", ':', "20");
    SplitNoSep("25", ':');
    SplitNoSep("20", ':');
  }

  /** A two-digit field is worth ten times its first digit plus its second. */
  lemma TwoDigits(a: char, b: char)
    requires IsDigit(a) && IsDigit(b)
    ensures ParseInt([a, b]) == Some(DigitValue(a) * 10 + DigitValue(b))
  {
    var s := [a, b];
    StripNoSpaceEnds(s);
    assert AllDigits(s);
    assert s[..1] == [a] && [a][..0] == [];
    assert DigitsToNat([a]) == DigitsToNat([]) * 10 + DigitValue(a);
    assert DigitsToNat(s) == DigitsToNat([a]) * 10 + DigitValue(b);
  }

  /** `Паста Карбонара,-450.0,00:20`: the price is negative. */
  lemma NegativePriceLine()
    ensures Classify(NegativePriceText) == Rejected(NegativePriceText, NonPositivePrice("-450.0"))
  {
    assert NegativePriceText == CarbonaraName + "," + "-450.0" + "," + "00:20";
    CarbonaraFields("-450.0", "00:20");
    NegativePriceField();
  }

  /** `Паста Карбонара,450.0,25:20`: the hour is out of range. */
  lemma HourOutOfRangeLine()
    ensures Classify(BadHourText) == Rejected(BadHourText, InvalidTime("25:20"))
  {
    assert BadHourText == CarbonaraName + "," + "450.0" + "," + "25:20";
    CarbonaraFields("450.0", "25:20");
    PriceField();
    assert IsPositive(Price450);
    HourOutOfRangeField();
  }

  /** Each malformed file of the tests loads no dish and logs exactly one
      error, for its line 1. */
  lemma EmptyNameFile()
    ensures LoadedDishes(EmptyNameText + "\n") == []
    ensures Diagnostics(EmptyNameText + "\n") == [Diagnostic(1, EmptyNameText, EmptyName)]
  {
    EmptyNameTextClean();
    EmptyNameLine();
    OneLineFile(EmptyNameText);
  }

  lemma NegativePriceFile()
    ensures LoadedDishes(NegativePriceText + "\n") == []
    ensures Diagnostics(NegativePriceText + "\n") ==
            [Diagnostic(1, NegativePriceText, NonPositivePrice("-450.0"))]
  {
    NegativePriceLine();
    CarbonaraNameClean();
    OneLineFile(NegativePriceText);
  }

  lemma BadHourFile()
    ensures LoadedDishes(BadHourText + "\n") == []
    ensures Diagnostics(BadHourText + "\n") == [Diagnostic(1, BadHourText, InvalidTime("25:20"))]
  {
    HourOutOfRangeLine();
    CarbonaraNameClean();
    OneLineFile(BadHourText);
  }

  /** A one-digit field is its digit's value: `int('7') == 7`. */
  lemma OneDigit(c: char)
    requires IsDigit(c)
    ensures ParseInt([c]) == Some(DigitValue(c))
  {
    var s := [c];
    StripNoSpaceEnds(s);
    assert AllDigits(s);
    assert s[..0] == [];
    assert DigitsToNat(s) == DigitsToNat([]) * 10 + DigitValue(c);
  }

  /** The time field need not be zero-padded: `h:m` with single digits is
      read as that time, and written back padded, so encoding after
      decoding is not the identity on the text. */
  lemma UnpaddedTime(h: Digit, m: Digit)
    ensures ParseTime([DigitChar(h), ':', DigitChar(m)]) == Some(Time(h, m))
    ensures TimeText(Time(h, m)) == ['0', DigitChar(h), ':', '0', DigitChar(m)]
  {
    UnpaddedSplit(DigitChar(h), DigitChar(m));
    OneDigit(DigitChar(h));
    OneDigit(DigitChar(m));
    assert Pad2(h) == ['0', DigitChar(h)] && Pad2(m) == ['0', DigitChar(m)];
  }

  /** Two single digits around a colon split into the two digits. */
  lemma UnpaddedSplit(a: char, b: char)
    requires IsDigit(a) && IsDigit(b)
    ensures Split([a, ':', b], ':') == [[a], [b]]
  {
    assert [a, ':', b] == [a] + [':'] + [b];
    SplitAround([a], ':', [b]);
    SplitNoSep([a], ':');
    SplitNoSep([b], ':');
  }

  /** The instance `0:5`, which is stored again as `00:05`. */
  lemma ZeroFiveMinutes()
    ensures ParseTime("0:5") == Some(Time(0, 5))
    ensures TimeText(Time(0, 5)) == "00:05"
  {
    UnpaddedTime(0, 5);
  }

  /** The window tests: the sample dish is added from the form and deleted
      again after confirmation. */
  method AddThenDelete() returns (afterAdd: seq<Dish>, afterDelete: seq<Dish>)
    ensures afterAdd == [Carbonara] && afterDelete == []
  {
    var window := new MenuWindow();
    StripNoSpaceEnds(CarbonaraName);
    assert IsPositive(Price450);
    window.AddDish(CarbonaraName, Price450, Time(0, 20));
    afterAdd := window.manager.dishes;
    window.DeleteDish(Some(0), true);
    afterDelete := window.manager.dishes;
  }

  /** The window tests that must leave the menu empty: an empty name is
      refused with a warning, and a failed load is logged as an error. */
  method Refusals() returns (menu: seq<Dish>, log: seq<Entry>)
    ensures menu == []
    ensures log == [Entry(WarningLevel, EmptyNameWarning), Entry(ErrorLevel, LoadFailure("Тестовая ошибка"))]
  {
    var window := new MenuWindow();
    window.AddDish("", Price450, Time(0, 20));
    window.LoadMenu("test.txt", Unreadable("Тестовая ошибка"));
    menu := window.manager.dishes;
    log := window.logger.entries;
  }

  /** Loading a saved copy of the sample menu into the window replaces its
      menu by the sample menu and logs nothing. */
  method LoadSaved() returns (menu: seq<Dish>, log: seq<Entry>)
    ensures menu == [Carbonara] && log == []
  {
    var window := new MenuWindow();
    CarbonaraSavedAndLoaded();
    window.LoadMenu("test.txt", Readable(SaveText([Carbonara])));
    menu := window.manager.dishes;
    log := window.logger.entries;
  }
}
