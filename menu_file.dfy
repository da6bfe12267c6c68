/** `MenuFileHandler` (main.py): saving a menu as one encoded line per dish
    and loading it back line by line, skipping blank lines and logging each
    line it cannot decode. A file is its text; opening it is not modelled. */
module MenuFile {
  import opened Text
  import opened Dishes
  import opened LineCodec
  import opened Log

  // ---------------------------------------------------------------------
  // File text and lines
  // ---------------------------------------------------------------------

  /** Reading in text mode with universal newlines: `\r\n` and a lone `\r`
      both come through as `\n`. */
  function TranslateNewlines(text: string): (r: string)
    ensures '\r' !in r
    ensures '\r' !in text ==> r == text
    decreases |text|
  {
    if text == [] then []
    else if text[0] == '\r' then
      "\n" + TranslateNewlines(if |text| > 1 && text[1] == '\n' then text[2..] else text[1..])
    else [text[0]] + TranslateNewlines(text[1..])
  }

  /** `for line in file`: the pieces between newlines, a final piece only when
      it is not empty. The terminator itself is dropped; the loader strips
      every line, which removes it anyway (`TerminatorIgnored`). */
  function Lines(text: string): (r: seq<string>)
    ensures forall i :: 0 <= i < |r| ==> '\n' !in r[i]
  {
    var pieces := Split(text, '\n');
    if pieces[|pieces| - 1] == [] then pieces[..|pieces| - 1] else pieces
  }

  /** Text without `\r` is read as written. */
  lemma {:induction false} TranslatePrefix(a: string, b: string)
    requires '\r' !in a
    ensures TranslateNewlines(a + b) == a + TranslateNewlines(b)
    decreases |a|
  {
    if a == [] {
      assert a + b == b;
    } else {
      assert (a + b)[0] == a[0];
      assert (a + b)[1..] == a[1..] + b;
      TranslatePrefix(a[1..], b);
      assert a == [a[0]] + a[1..];
    }
  }

  /** A `\r\n` pair is read as one `\n`. */
  lemma TranslateCRLF(a: string, b: string)
    requires '\r' !in a
    ensures TranslateNewlines(a + "\r\n" + b) == a + "\n" + TranslateNewlines(b)
  {
    assert a + "\r\n" + b == a + ("\r\n" + b);
    TranslatePrefix(a, "\r\n" + b);
    assert ("\r\n" + b)[2..] == b;
  }

  /** A `\r` that is not followed by `\n` is read as `\n`. */
  lemma TranslateLoneCR(a: string, b: string)
    requires '\r' !in a
    requires b == [] || b[0] != '\n'
    ensures TranslateNewlines(a + "\r" + b) == a + "\n" + TranslateNewlines(b)
  {
    assert a + "\r" + b == a + ("\r" + b);
    TranslatePrefix(a, "\r" + b);
    assert ("\r" + b)[1..] == b;
  }

  /** The lines the loader sees when it opens a file holding `text`. */
  function FileLines(text: string): seq<string> {
    Lines(TranslateNewlines(text))
  }

  /** Lines written one after another, each followed by `\n`. */
  function Terminated(lines: seq<string>): string {
    if lines == [] then [] else lines[0] + "\n" + Terminated(lines[1..])
  }

  /** Joining pieces with newlines is writing all but the last with a
      terminator, then the last one bare. */
  lemma {:induction false} JoinSnoc(pieces: seq<string>, last: string)
    ensures Join(pieces + [last], '\n') == Terminated(pieces) + last
  {
    if pieces == [] {
      assert pieces + [last] == [last];
    } else {
      assert (pieces + [last])[1..] == pieces[1..] + [last];
      JoinSnoc(pieces[1..], last);
    }
  }

  /** The lines cover the whole text: it is the lines each written with a
      terminator, except that a last line without one may end the text. */
  lemma LinesCover(text: string)
    ensures var ls := Lines(text);
      text == Terminated(ls) ||
      (ls != [] && ls[|ls| - 1] != [] && text == Terminated(ls[..|ls| - 1]) + ls[|ls| - 1])
  {
    var pieces := Split(text, '\n');
    var n := |pieces|;
    JoinSplit(text, '\n');
    assert pieces == pieces[..n - 1] + [pieces[n - 1]];
    JoinSnoc(pieces[..n - 1], pieces[n - 1]);
    if pieces[n - 1] == [] {
      assert text == Terminated(pieces[..n - 1]) + [];
    }
  }

  lemma {:induction false} TerminatedSnoc(lines: seq<string>, line: string)
    ensures Terminated(lines + [line]) == Terminated(lines) + line + "\n"
  {
    if lines == [] {
      assert [] + [line] == [line];
    } else {
      assert (lines + [line])[1..] == lines[1..] + [line];
      TerminatedSnoc(lines[1..], line);
    }
  }

  /** Reading back lines that were written with terminators gives the same
      lines, as long as none of them holds a newline itself. */
  lemma LinesTerminated(lines: seq<string>)
    requires forall i :: 0 <= i < |lines| ==> '\n' !in lines[i]
    ensures Lines(Terminated(lines)) == lines
  {
    SplitTerminated(lines);
    assert (lines + [[]])[..|lines|] == lines;
  }

  lemma {:induction false} SplitTerminated(lines: seq<string>)
    requires forall i :: 0 <= i < |lines| ==> '\n' !in lines[i]
    ensures Split(Terminated(lines), '\n') == lines + [[]]
  {
    if lines != [] {
      SplitTerminated(lines[1..]);
      SplitAround(lines[0], '\n', Terminated(lines[1..]));
      SplitNoSep(lines[0], '\n');
      assert lines == [lines[0]] + lines[1..];
    }
  }

  // ---------------------------------------------------------------------
  // Saving
  // ---------------------------------------------------------------------

  /** The encoded line of every dish, in order. */
  function EncodeAll(dishes: seq<Dish>): seq<string> {
    seq(|dishes|, i requires 0 <= i < |dishes| => Encode(dishes[i]))
  }

  /** What `save_menu` writes: `str(dish) + "\n"` for each dish, nothing else. */
  function SaveText(dishes: seq<Dish>): string {
    Terminated(EncodeAll(dishes))
  }

  /** Lines each followed by `\r\n`: what text mode writes where the line
      separator is `\r\n`. */
  function TerminatedCRLF(lines: seq<string>): string {
    if lines == [] then [] else lines[0] + "\r\n" + TerminatedCRLF(lines[1..])
  }

  /** What `save_menu` leaves on disk where the line separator is `\r\n`. */
  function SaveTextCRLF(dishes: seq<Dish>): string {
    TerminatedCRLF(EncodeAll(dishes))
  }

  /** Reading back `\r\n`-terminated lines gives the `\n`-terminated text. */
  lemma {:induction false} CRLFRead(lines: seq<string>)
    requires forall i :: 0 <= i < |lines| ==> '\r' !in lines[i]
    ensures TranslateNewlines(TerminatedCRLF(lines)) == Terminated(lines)
  {
    if lines != [] {
      CRLFRead(lines[1..]);
      TranslateCRLF(lines[0], TerminatedCRLF(lines[1..]));
    }
  }

  // ---------------------------------------------------------------------
  // Loading
  // ---------------------------------------------------------------------

  /** One rejected line: its 1-based number, its stripped text and why. */
  datatype Diagnostic = Diagnostic(lineNumber: nat, line: string, failure: Failure)

  /** What the loader makes of each line of the file, in order. */
  function Outcomes(lines: seq<string>): (r: seq<LineOutcome>)
    ensures |r| == |lines|
  {
    if lines == [] then [] else Outcomes(lines[..|lines| - 1]) + [Classify(lines[|lines| - 1])]
  }

  /** The outcome of each line is that line classified on its own. */
  lemma {:induction false} OutcomesAt(lines: seq<string>)
    ensures forall i :: 0 <= i < |lines| ==> Outcomes(lines)[i] == Classify(lines[i])
  {
    if lines != [] {
      var n := |lines|;
      var init := lines[..n - 1];
      OutcomesAt(init);
      forall i | 0 <= i < n ensures Outcomes(lines)[i] == Classify(lines[i]) {
        if i < n - 1 {
          assert lines[i] == init[i];
        }
      }
    }
  }

  /** The dishes of the accepted lines, in file order. */
  function DishesOf(outs: seq<LineOutcome>): seq<Dish> {
    if outs == [] then []
    else
      var n := |outs|;
      DishesOf(outs[..n - 1]) + if outs[n - 1].Accepted? then [outs[n - 1].dish] else []
  }

  /** One diagnostic per rejected line, numbered from 1, in file order. */
  function DiagnosticsOf(outs: seq<LineOutcome>): seq<Diagnostic> {
    if outs == [] then []
    else
      var n := |outs|;
      DiagnosticsOf(outs[..n - 1]) +
        if outs[n - 1].Rejected? then [Diagnostic(n, outs[n - 1].line, outs[n - 1].failure)] else []
  }

  /** Positions (0-based) of the lines that yield a dish. */
  function AcceptedPositions(outs: seq<LineOutcome>): seq<nat> {
    if outs == [] then []
    else
      var n := |outs|;
      AcceptedPositions(outs[..n - 1]) + if outs[n - 1].Accepted? then [n - 1] else []
  }

  /** Number of lines that are not blank after stripping. */
  function NonBlank(outs: seq<LineOutcome>): nat {
    if outs == [] then 0
    else NonBlank(outs[..|outs| - 1]) + if outs[|outs| - 1].Blank? then 0 else 1
  }

  /** The dishes `load_menu` returns for a file holding `text`. */
  function LoadedDishes(text: string): seq<Dish> {
    DishesOf(Outcomes(FileLines(text)))
  }

  /** The rejected lines `load_menu` logs for a file holding `text`. */
  function Diagnostics(text: string): seq<Diagnostic> {
    DiagnosticsOf(Outcomes(FileLines(text)))
  }

  /** The exception text `str(e)` for each kind of rejection. */
  function Reason(f: Failure): string {
    match f
    case MalformedLine(n) =>
      if n < 3 then "not enough values to unpack (expected 3, got " + NatToString(n) + ")"
      else "too many values to unpack (expected 3)"
    case EmptyName => "Название блюда не может быть пустым"
    case NotANumber(pt) => "could not convert string to float: '" + pt + "'"
    case NonPositivePrice(pt) => "Цена должна быть положительной: " + pt
    case InvalidTime(tt) => "Неверный формат времени: " + tt
  }

  /** The log message written for a rejected line. */
  function Message(d: Diagnostic): string {
    "Не удалось разобрать строку " + NatToString(d.lineNumber) + ": " + d.line + ". Ошибка: " + Reason(d.failure)
  }

  /** The log entries for a run of diagnostics, one each, in order. */
  function Messages(ds: seq<Diagnostic>): (r: seq<Entry>)
    ensures |r| == |ds|
  {
    if ds == [] then [] else Messages(ds[..|ds| - 1]) + [Entry(ErrorLevel, Message(ds[|ds| - 1]))]
  }

  /** The entry logged for the `k`-th diagnostic is the error entry with
      its message. */
  lemma {:induction false} MessageAt(ds: seq<Diagnostic>, k: nat)
    requires k < |ds|
    ensures Messages(ds)[k] == Entry(ErrorLevel, Message(ds[k]))
  {
    var n := |ds|;
    var init := ds[..n - 1];
    if k < n - 1 {
      MessageAt(init, k);
      assert Messages(ds)[k] == Messages(init)[k];
      assert init[k] == ds[k];
    }
  }

  /** The log has one error entry per diagnostic, in the same order. */
  lemma MessagesAt(ds: seq<Diagnostic>)
    ensures forall k :: 0 <= k < |ds| ==> Messages(ds)[k] == Entry(ErrorLevel, Message(ds[k]))
  {
    forall k | 0 <= k < |ds| ensures Messages(ds)[k] == Entry(ErrorLevel, Message(ds[k])) {
      MessageAt(ds, k);
    }
  }

  /** Logging two runs of diagnostics one after the other logs their concatenation. */
  lemma {:induction false} MessagesAppend(a: seq<Diagnostic>, b: seq<Diagnostic>)
    ensures Messages(a + b) == Messages(a) + Messages(b)
  {
    if b != [] {
      var n := |b|;
      assert (a + b)[..|a + b| - 1] == a + b[..n - 1];
      MessagesAppend(a, b[..n - 1]);
    } else {
      assert a + b == a;
    }
  }

  // ---------------------------------------------------------------------
  // Properties of a load
  // ---------------------------------------------------------------------

  /** Every non-blank line is either a dish or a diagnostic, never both:
      N non-blank lines with K rejected give N - K dishes. */
  lemma {:induction false} LoadCounts(outs: seq<LineOutcome>)
    ensures |DishesOf(outs)| + |DiagnosticsOf(outs)| == NonBlank(outs)
  {
    if outs != [] {
      LoadCounts(outs[..|outs| - 1]);
    }
  }

  /** Each diagnostic names a rejected line, by its 1-based number, with
      that line's stripped text and its failure. */
  lemma {:induction false} DiagnosticsSound(outs: seq<LineOutcome>)
    ensures forall k :: 0 <= k < |DiagnosticsOf(outs)| ==>
      var d := DiagnosticsOf(outs)[k];
      1 <= d.lineNumber <= |outs| && outs[d.lineNumber - 1] == Rejected(d.line, d.failure)
  {
    if outs != [] {
      var n := |outs|;
      var init := outs[..n - 1];
      DiagnosticsSound(init);
      var ds, di := DiagnosticsOf(outs), DiagnosticsOf(init);
      assert ds[..|di|] == di;
      forall k | 0 <= k < |di|
        ensures 1 <= ds[k].lineNumber <= n && outs[ds[k].lineNumber - 1] == Rejected(ds[k].line, ds[k].failure)
      {
        assert ds[k] == di[k];
        assert outs[di[k].lineNumber - 1] == init[di[k].lineNumber - 1];
      }
    }
  }

  /** The diagnostics come in file order: their line numbers strictly increase. */
  lemma {:induction false} DiagnosticsOrdered(outs: seq<LineOutcome>)
    ensures forall k, k' :: 0 <= k < k' < |DiagnosticsOf(outs)| ==>
      DiagnosticsOf(outs)[k].lineNumber < DiagnosticsOf(outs)[k'].lineNumber
  {
    if outs != [] {
      var n := |outs|;
      var init := outs[..n - 1];
      DiagnosticsOrdered(init);
      DiagnosticsSound(init);
      var ds, di := DiagnosticsOf(outs), DiagnosticsOf(init);
      assert ds[..|di|] == di;
      forall k, k' | 0 <= k < k' < |ds| ensures ds[k].lineNumber < ds[k'].lineNumber {
        assert ds[k] == di[k] && di[k].lineNumber <= n - 1;
        if k' < |di| {
          assert ds[k'] == di[k'];
        } else {
          assert ds[k'].lineNumber == n;
        }
      }
    }
  }

  /** Some diagnostic of `ds` is about line `lineNumber`. */
  predicate Reported(ds: seq<Diagnostic>, lineNumber: nat) {
    exists k :: 0 <= k < |ds| && ds[k].lineNumber == lineNumber
  }

  /** No rejected line is missed: each has a diagnostic carrying its number. */
  lemma {:induction false} DiagnosticsComplete(outs: seq<LineOutcome>)
    ensures forall j :: 0 <= j < |outs| && outs[j].Rejected? ==> Reported(DiagnosticsOf(outs), j + 1)
  {
    if outs != [] {
      var n := |outs|;
      var init := outs[..n - 1];
      DiagnosticsComplete(init);
      var ds, di := DiagnosticsOf(outs), DiagnosticsOf(init);
      assert ds[..|di|] == di;
      forall j | 0 <= j < n && outs[j].Rejected? ensures Reported(ds, j + 1) {
        if j < n - 1 {
          assert outs[j] == init[j];
          assert Reported(di, j + 1);
          var k :| 0 <= k < |di| && di[k].lineNumber == j + 1;
          assert ds[k] == di[k];
        } else {
          assert ds[|ds| - 1].lineNumber == n;
        }
      }
    }
  }

  /** The dishes are exactly those of the accepted lines, in file order. */
  lemma {:induction false} DishesExact(outs: seq<LineOutcome>)
    ensures |AcceptedPositions(outs)| == |DishesOf(outs)|
    ensures forall k :: 0 <= k < |AcceptedPositions(outs)| ==>
      AcceptedPositions(outs)[k] < |outs| &&
      outs[AcceptedPositions(outs)[k]] == Accepted(DishesOf(outs)[k])
    ensures forall k, k' :: 0 <= k < k' < |AcceptedPositions(outs)| ==>
      AcceptedPositions(outs)[k] < AcceptedPositions(outs)[k']
    ensures forall j :: 0 <= j < |outs| && outs[j].Accepted? ==> j in AcceptedPositions(outs)
  {
    if outs != [] {
      var n := |outs|;
      var init := outs[..n - 1];
      DishesExact(init);
      var ix, ii := AcceptedPositions(outs), AcceptedPositions(init);
      var ds, di := DishesOf(outs), DishesOf(init);
      assert ix[..|ii|] == ii && ds[..|di|] == di;
      forall k | 0 <= k < |ii|
        ensures outs[ix[k]] == Accepted(ds[k])
      {
        assert outs[ii[k]] == init[ii[k]];
      }
      forall j | 0 <= j < n && outs[j].Accepted?
        ensures j in ix
      {
        if j < n - 1 {
          assert outs[j] == init[j];
        }
      }
    }
  }

  /** The dish, if any, that a line with outcome `o` contributes. */
  function DishesFor(o: LineOutcome): seq<Dish> {
    if o.Accepted? then [o.dish] else []
  }

  /** The diagnostic, if any, for the line numbered `n` with outcome `o`. */
  function DiagnosticsFor(o: LineOutcome, n: nat): seq<Diagnostic> {
    if o.Rejected? then [Diagnostic(n, o.line, o.failure)] else []
  }

  /** What line `i` adds to the dishes and diagnostics of the lines before it. */
  lemma LoadStep(lines: seq<string>, i: nat)
    requires i < |lines|
    ensures DishesOf(Outcomes(lines[..i + 1])) ==
      DishesOf(Outcomes(lines[..i])) + DishesFor(Classify(lines[i]))
    ensures DiagnosticsOf(Outcomes(lines[..i + 1])) ==
      DiagnosticsOf(Outcomes(lines[..i])) + DiagnosticsFor(Classify(lines[i]), i + 1)
  {
    assert lines[..i + 1][..i] == lines[..i];
    var outs := Outcomes(lines[..i + 1]);
    assert outs[..i] == Outcomes(lines[..i]);
  }

  /** A blank line (empty after stripping) yields no dish and no log entry. */
  lemma BlankLineSilent(lines: seq<string>, blank: string)
    requires forall i :: 0 <= i < |blank| ==> IsSpace(blank[i])
    ensures DishesOf(Outcomes(lines + [blank])) == DishesOf(Outcomes(lines))
    ensures DiagnosticsOf(Outcomes(lines + [blank])) == DiagnosticsOf(Outcomes(lines))
  {
    ClassifySpec(blank);
    var outs := Outcomes(lines + [blank]);
    assert (lines + [blank])[..|lines|] == lines;
    assert outs[..|lines|] == Outcomes(lines);
  }

  // ---------------------------------------------------------------------
  // Save, then load
  // ---------------------------------------------------------------------

  /** The dishes a file round-trips: line-safe, and no line break in the name. */
  predicate FileSafe(d: Dish) {
    LineSafe(d) && '\n' !in d.name && '\r' !in d.name
  }

  /** No line break in the line of a dish whose name has none. */
  lemma EncodeNoBreak(d: Dish)
    requires '\n' !in d.name && '\r' !in d.name
    ensures '\n' !in Encode(d) && '\r' !in Encode(d)
  {
    var t := TimeText(d.prepTime);
    assert '\n' !in t && '\r' !in t;
  }

  lemma {:induction false} TerminatedNoCR(lines: seq<string>)
    requires forall i :: 0 <= i < |lines| ==> '\r' !in lines[i]
    ensures '\r' !in Terminated(lines)
  {
    if lines != [] {
      TerminatedNoCR(lines[1..]);
    }
  }

  /** A prefix is the one before it plus its last element. */
  lemma PrefixSnoc<T>(s: seq<T>, i: nat)
    requires 0 < i <= |s|
    ensures s[..i] == s[..i - 1] + [s[i - 1]]
  {
    assert s[..i - 1] + [s[i - 1]] == s[..i];
  }

  /** A file whose every line decodes to the matching dish loads, prefix by
      prefix, exactly those dishes and reports nothing. */
  lemma {:induction false} AllAccepted(lines: seq<string>, dishes: seq<Dish>, i: nat)
    requires |lines| == |dishes| && i <= |lines|
    requires forall j :: 0 <= j < |lines| ==> Classify(lines[j]) == Accepted(dishes[j])
    ensures DishesOf(Outcomes(lines[..i])) == dishes[..i]
    ensures DiagnosticsOf(Outcomes(lines[..i])) == []
  {
    if i == 0 {
      assert lines[..0] == [];
    } else {
      AllAccepted(lines, dishes, i - 1);
      LoadStep(lines, i - 1);
      PrefixSnoc(dishes, i);
    }
  }

  /** The loader reads back, line for line, the lines `save_menu` wrote,
      as long as no name holds a line break. */
  lemma SavedLines(dishes: seq<Dish>)
    requires forall i :: 0 <= i < |dishes| ==> '\n' !in dishes[i].name && '\r' !in dishes[i].name
    ensures FileLines(SaveText(dishes)) == EncodeAll(dishes)
  {
    var lines := EncodeAll(dishes);
    forall i | 0 <= i < |lines| ensures '\n' !in lines[i] && '\r' !in lines[i] {
      EncodeNoBreak(dishes[i]);
    }
    TerminatedNoCR(lines);
    LinesTerminated(lines);
  }

  /** A line without line breaks that the loader accepts gives a dish the
      file format carries. */
  lemma AcceptedFileSafe(raw: string)
    requires '\n' !in raw && '\r' !in raw
    requires Classify(raw).Accepted?
    ensures FileSafe(Classify(raw).dish)
  {
    AcceptedIsLineSafe(raw);
    var line := Strip(raw);
    StripKeepsAbsent(raw, '\n');
    StripKeepsAbsent(raw, '\r');
    assert Classify(raw).dish == Decode(line).dish;
    DecodedNameAbsent(line, '\n');
    DecodedNameAbsent(line, '\r');
  }

  /** Whatever the loader returns, from any file, is a dish the file format
      carries: saving it and loading it again gives it back. */
  lemma LoadedFileSafe(text: string, k: nat)
    requires k < |LoadedDishes(text)|
    ensures FileSafe(LoadedDishes(text)[k])
  {
    var lines := FileLines(text);
    var outs := Outcomes(lines);
    DishesExact(outs);
    var j := AcceptedPositions(outs)[k];
    OutcomesAt(lines);
    assert Classify(lines[j]) == Accepted(LoadedDishes(text)[k]);
    SplitKeepsAbsent(TranslateNewlines(text), '\n', '\r');
    assert '\r' !in lines[j];
    AcceptedFileSafe(lines[j]);
  }

  /** Save then load: a menu of file-safe dishes comes back equal, in the
      same order, and the load logs nothing. */
  lemma SaveLoadRoundTrip(dishes: seq<Dish>)
    requires forall i :: 0 <= i < |dishes| ==> FileSafe(dishes[i])
    ensures LoadedDishes(SaveText(dishes)) == dishes
    ensures Diagnostics(SaveText(dishes)) == []
  {
    var lines := EncodeAll(dishes);
    SavedLines(dishes);
    forall j | 0 <= j < |lines| ensures Classify(lines[j]) == Accepted(dishes[j]) {
      RoundTrip(dishes[j]);
    }
    AllAccepted(lines, dishes, |lines|);
    assert lines[..|lines|] == lines && dishes[..|dishes|] == dishes;
  }

  /** The same round trip where saving writes `\r\n` after each line. */
  lemma SaveLoadRoundTripCRLF(dishes: seq<Dish>)
    requires forall i :: 0 <= i < |dishes| ==> FileSafe(dishes[i])
    ensures LoadedDishes(SaveTextCRLF(dishes)) == dishes
    ensures Diagnostics(SaveTextCRLF(dishes)) == []
  {
    var lines := EncodeAll(dishes);
    forall i | 0 <= i < |lines| ensures '\r' !in lines[i] {
      EncodeNoBreak(dishes[i]);
    }
    CRLFRead(lines);
    TerminatedNoCR(lines);
    assert FileLines(SaveTextCRLF(dishes)) == FileLines(SaveText(dishes));
    SaveLoadRoundTrip(dishes);
  }

  // ---------------------------------------------------------------------
  // The handler
  // ---------------------------------------------------------------------

  class MenuFileHandler {
    /** The logger handed in at construction; the window passes its own. */
    const logger: Logger

    constructor (logger: Logger)
      ensures this.logger == logger
    {
      this.logger := logger;
    }

    /** `save_menu`: the text written is one encoded line per dish, in order. */
    method SaveMenu(dishes: seq<Dish>) returns (text: string)
      ensures text == SaveText(dishes)
    {
      text := [];
      for i := 0 to |dishes|
        invariant text == SaveText(dishes[..i])
      {
        assert EncodeAll(dishes[..i + 1]) == EncodeAll(dishes[..i]) + [Encode(dishes[i])];
        TerminatedSnoc(EncodeAll(dishes[..i]), Encode(dishes[i]));
        text := text + Encode(dishes[i]) + "\n";
      }
      assert dishes[..|dishes|] == dishes;
    }

    /** The body of the loader's loop for one raw line, numbered `n`: the
      dish it yields, if any, and the log entry for a rejected line. */
    method LoadLine(raw: string, n: nat) returns (added: seq<Dish>)
      modifies logger
      ensures added == DishesFor(Classify(raw))
      ensures logger.entries == old(logger.entries) + Messages(DiagnosticsFor(Classify(raw), n))
    {
      var outcome := Classify(raw);
      added := [];
      if outcome.Accepted? {
        added := [outcome.dish];
      } else if outcome.Rejected? {
        logger.LogMessage(ErrorLevel, Message(Diagnostic(n, outcome.line, outcome.failure)));
      }
    }

    /** `load_menu`: the accepted dishes in file order, with exactly one log
      entry per rejected line and none for a blank or accepted one. */
    method LoadMenu(text: string) returns (dishes: seq<Dish>)
      modifies logger
      ensures dishes == LoadedDishes(text)
      ensures logger.entries == old(logger.entries) + Messages(Diagnostics(text))
    {
      dishes := LoadLines(FileLines(text));
    }

    /** The loader's loop over the lines of the file. */
    method LoadLines(lines: seq<string>) returns (dishes: seq<Dish>)
      modifies logger
      ensures dishes == DishesOf(Outcomes(lines))
      ensures logger.entries == old(logger.entries) + Messages(DiagnosticsOf(Outcomes(lines)))
    {
      ghost var logged: seq<Diagnostic> := [];
      dishes := [];
      for i := 0 to |lines|
        invariant dishes == DishesOf(Outcomes(lines[..i]))
        invariant logged == DiagnosticsOf(Outcomes(lines[..i]))
        invariant logger.entries == old(logger.entries) + Messages(logged)
      {
        LoadStep(lines, i);
        var added := LoadLine(lines[i], i + 1);
        ghost var step := DiagnosticsFor(Classify(lines[i]), i + 1);
        MessagesAppend(logged, step);
        dishes := dishes + added;
        logged := logged + step;
      }
      assert lines[..|lines|] == lines;
    }
  }
}
