# Restaurant menu: dishes, the menu and its text file

A Dafny model of the core of a small PyQt menu editor.

- **The dish record.** `DishBase` and `Dish` hold a name, a price and a preparation time of day. `Dish.__str__` writes the line `name,price,HH:MM`. This is module `Dishes` in `dishes.dfy`.
- **Python built-ins the format relies on.** `str.strip()`, `str.split(sep)`, `str(n)` and `int(text)` are in module `Text`.
- **The in-memory menu.** `MenuManager` is a class over a `seq<Dish>` in module `Menu`.
- **The logger.** `Logger` is seen as an append-only list of (level, message) entries, in module `Log`.
- **The file handler.** `MenuFileHandler` is in module `MenuFile`.
  - `save_menu` writes one encoded line per dish.
  - `load_menu` strips every line and skips the blank ones. It decodes the rest (module `LineCodec`) and logs exactly one error entry for each line it rejects.
- **The window.** What the buttons of `MenuWindow` do to the menu and to the log is in module `Window`. The dialogs are replaced by the values they return:
  - the chosen file name (empty when cancelled);
  - the selected row;
  - the answer to the confirmation;
  - the file's text, or the reason it could not be read.
- **The situations the unit tests describe.** These are stated and proved in module `Scenarios`.

How the model represents the source's values:

- **Prices.** A price is a decimal with a sign, a whole part and fractional digits without trailing zeros (`450.0`, `-12.5`). It is written in the positional form Python's `str` uses for a float between 1e-4 and 1e16; Python switches to exponent notation outside that range, and the model does not (see "## Left out"). `float(text)` is modelled on plain decimal text: surrounding whitespace, an optional sign, and digits with at most one point.
- **Times.** A preparation time is an hour in [0, 24) and a minute in [0, 60). These are the values `datetime.time` accepts.
- **Files.** A file is its text. Reading it translates `\r\n` and a lone `\r` to `\n`, as text mode does, and then cuts it into lines.

The main results:

- Saving a menu of dishes that the format can carry and loading it back gives the same menu and logs nothing (`MenuFile.SaveLoadRoundTrip`). Such a dish has a non-empty name with no comma, no line break and no leading whitespace, and a positive price.
- Whatever the loader returns, from any file, is such a dish (`MenuFile.LoadedFileSafe`), and encoding it again gives the same outcome (`LineCodec.AcceptedIsLineSafe`).
- A non-blank line yields a dish exactly when it has three fields, a non-empty name, a positive price and a valid time (`LineCodec.Decode` and `LineCodec.DecodeComplete`).
- The loader returns the accepted dishes in file order. It logs one error per rejected line, in order, each quoting the line's number and text, and nothing for other lines (`MenuFile.MenuFileHandler.LoadMenu` together with the `Diagnostics*`, `DishesExact` and `LoadCounts` lemmas).
- `MenuManager` and `MenuWindow` state exactly how each operation changes the menu and the log, and that nothing else changes.

Differences between the description of the program and its code are resolved in favour of the code:

- The empty-name test of the loader is made on the name field as split, not on a stripped name. The model does the same. Because the whole line is stripped first, a non-empty name field can never start with whitespace (`LineCodec.ClassifySpec`).
- `DishBase.__init__` validates nothing. `Dishes.Dish` accepts any name and any price, including a negative one. The price and time types only encode what a Python `float` decimal and a `datetime.time` can hold.

`DishBase`'s read-only `name`, `price` and `prep_time` properties are the fields of the `Dishes.Dish` datatype. A datatype value never changes after it is built, which is what the absence of setters gives.

## Model

| member | source | states |
|---|---|---|
| Text.Strip | main.py:214 | `line.strip()` leaves a string that neither starts nor ends with whitespace |
| Text.StripPadded | main.py:214 | what `strip` keeps is one contiguous piece of the line, and only whitespace is cut before and after it |
| Text.StripTrailingSpace | main.py:213-214 | a trailing blank such as the line terminator does not change the stripped line |
| Text.StripKeepsAbsent | main.py:180 | stripping the form's name never brings in a character the text did not have |
| Text.Split | main.py:218 | `split(sep)` gives one more piece than there are separators, and no piece holds the separator |
| Text.JoinSplit | main.py:218 | splitting loses nothing: joining the pieces with the separator gives the line back |
| Text.SplitThree | main.py:218 | three separator-free fields joined by the separator split back into exactly those three fields |
| Text.ParseInt | main.py:228 | `int` of a field whose stripped text is all digits is the number those digits denote |
| Text.ParseIntSound | main.py:228 | whatever `int` accepts is, once stripped, a digit string with at most one leading sign, and the result is the number it denotes |
| Text.ParseIntComplete | main.py:228 | every text that strips to a digit string with at most one leading sign, `-0` and `+5` included, is accepted by `int` with the number it denotes; with `ParseIntSound`, `int` accepts exactly these texts |
| Text.NatToString | main.py:237 | `str(n)` of a line number or of a price's whole part is at least one digit, with no leading zero unless n is 0 |
| Text.SplitKeepsAbsent | main.py:213 | no piece of a split holds a character the text did not have |
| Text.NatToStringRoundTrip | Dish.py:20 | the decimal digits printed for a whole number read back as that number |
| Text.Pad2Value | Dish.py:20 | the two zero-padded digits of `%H` or `%M` denote the number |
| Text.Pad2RoundTrip | Dish.py:20 | a zero-padded `%H` or `%M` field is read back by `int` as the same number |
| Dishes.IsPositive | main.py:224 | the sign test on the price digits holds exactly when the price's value is above zero |
| Dishes.Normalize | main.py:223 | the fraction digits `float` keeps are canonical and denote the same value as those written |
| Dishes.Show | Dish.py:20 | the price text starts with a sign or a digit, ends with a digit, and holds no comma or line break |
| Dishes.ParseMagnitudeSound | main.py:223 | whatever `float` accepts after the sign is a run of digits with at most one point, and the price read has the value those digits denote |
| Dishes.ParsePriceSound | main.py:223 | `float` reads the stripped field as an optional sign followed by such a literal, and a leading `-` makes the price negative |
| Dishes.ParsePriceComplete | main.py:223 | `float` accepts any literal its magnitude reader accepts, bare, after `+` or after `-`, with the same value, and the price is negative exactly after `-` |
| Dishes.MagnitudeChars | main.py:223 | an accepted literal is not empty and holds nothing but digits and the point, so no sign |
| Dishes.MagnitudeWhole | main.py:223 | a whole number without a point is read as that number with fraction `0` (`"450"` reads as `450.0`) |
| Dishes.MagnitudeValue | main.py:223 | a literal `whole.frac` is read as the signed number its digits denote |
| Dishes.ShowRoundTrip | main.py:223 | `float(str(price))` gives the same price for every price |
| Dishes.TimeText | Dish.py:20 | `strftime('%H:%M')` is five characters: two digits denoting the hour (below 24), a colon, and two digits denoting the minute (below 60) |
| Dishes.ParseTimeExact | main.py:227-233 | the time check accepts a field as the time h:m exactly when it is two `int` literals around one colon, worth h and m, with h in [0, 24) and m in [0, 60) |
| Dishes.TimeRoundTrip | main.py:226-233 | the time text the encoder writes passes the loader's time check and gives the same time |
| Dishes.Encode | Dish.py:18-20 | `str(dish)` holds exactly two commas more than the name: the price and time texts bring none |
| Dishes.EncodeFields | Dish.py:18-20 | the encoded line splits on `,` into the name's comma count plus three fields, and into exactly name, price and time when the name has no comma |
| LineCodec.Decode | main.py:217-235 | a decoded dish has a non-empty name and a positive price, and its line is three comma-free fields that parse to its price and time. The line is rejected as malformed exactly when it does not hold two commas |
| LineCodec.DecodeFields | main.py:219-235 | the field checks never report a field-count failure, and an accepted dish is built from exactly the fields that passed |
| LineCodec.DecodeFieldsFailure | main.py:219-235 | each failure is reported exactly when its check is the first to fail, in the source's order: empty name, price not a number, price not positive, time not valid |
| LineCodec.SplitIntoThree | main.py:218 | a line that splits into three pieces is those pieces joined by commas |
| LineCodec.DecodeComplete | main.py:218-235 | three comma-free fields that pass every check are accepted as exactly that dish. This is the converse of `Decode`'s ensures |
| LineCodec.DecodeThree | main.py:218 | a line of three comma-free fields decodes as its fields do |
| LineCodec.ClassifySpec | main.py:214-237 | the contract of `Classify`, the loop body's decision on one line: a line is skipped exactly when it is all whitespace; an accepted name starts with a non-blank; a rejected line carries its stripped text and the failure the checks report on it |
| LineCodec.AllSpaceStrip | main.py:214-215 | a line strips to nothing exactly when every character is whitespace |
| LineCodec.RoundTrip | main.py:214-235 | the encoding of a dish with a non-empty, comma-free name that does not start with whitespace and a positive price is accepted as that same dish |
| LineCodec.EncodeStripped | main.py:214 | the encoding of a dish whose name starts with a non-blank is unchanged by `strip` |
| LineCodec.DecodeEncode | main.py:218-235 | the fields the encoder writes pass every check of the decoder and give the same dish |
| LineCodec.AcceptedIsLineSafe | main.py:214-235 | every accepted dish can be encoded and reloaded: re-encoding it and loading again gives the same outcome |
| LineCodec.LeadingSpaceLost | main.py:214 | a dish whose name starts with whitespace never comes back from its own line as written |
| LineCodec.CommaInNameRejected | main.py:218 | a comma in the name makes its line split into more than three fields, so the loader rejects it as malformed with the field count |
| LineCodec.CommasRejected | main.py:218 | a line whose comma count is not two is rejected as malformed with one field more than it has commas, unless it is blank |
| LineCodec.StripKeepsCount | main.py:214 | stripping never removes or adds a comma |
| LineCodec.TerminatorIgnored | main.py:213-214 | a line read with its `\n` terminator gives the same outcome as the line without it |
| LineCodec.DecodedNameAbsent | main.py:218-235 | the name of an accepted line holds no character the stripped line does not hold |
| Menu.DeletedInRange | main.py:59-60 | deleting at an index in range gives one element fewer; the elements before keep their positions, the ones after move down by one, and only the element at the index is lost |
| Menu.DeletedOutOfRange | main.py:59 | deleting at an index out of range leaves the list unchanged |
| Menu.MenuManager.constructor | main.py:39-41 | a new manager holds an empty menu |
| Menu.MenuManager.AddDish | main.py:43-50 | the dish is appended at the end and the earlier dishes are unchanged |
| Menu.MenuManager.DeleteDish | main.py:52-60 | the menu becomes the list with the element at the index removed when it exists, and stays as it was otherwise |
| Menu.MenuManager.ClearMenu | main.py:62-64 | the menu is empty afterwards |
| Menu.MenuManager.GetMenu | main.py:66-68 | the returned list equals the current menu, which is not changed |
| Log.Logger.constructor | main.py:15-18 | a new logger has logged nothing |
| Log.Logger.LogMessage | main.py:20-34 | exactly one entry with the given level and message is added at the end |
| MenuFile.TranslateNewlines | main.py:212 | the text read in text mode holds no `\r`, and text without `\r` is read unchanged |
| MenuFile.TranslatePrefix | main.py:212 | a stretch without `\r` is read as written, whatever follows it |
| MenuFile.TranslateCRLF | main.py:212 | a `\r\n` pair is read as one `\n` |
| MenuFile.TranslateLoneCR | main.py:212 | a `\r` not followed by `\n` is read as `\n` |
| MenuFile.Lines | main.py:213 | no line handed to the loop holds a newline |
| MenuFile.LinesCover | main.py:213 | the lines cover the whole text: it is the lines each followed by `\n`, or that with a last, non-empty line without `\n` |
| MenuFile.JoinSnoc | main.py:213 | pieces joined by `\n` are all but the last with a terminator, then the last bare |
| MenuFile.LinesTerminated | main.py:213 | reading back lines written each with a terminator gives the same lines |
| MenuFile.TerminatedNoCR | main.py:198 | the saved text holds no `\r` when none of its lines does |
| MenuFile.CRLFRead | main.py:196-212 | lines written each with `\r\n` are read back in text mode as the same lines each with `\n` |
| MenuFile.EncodeNoBreak | Dish.py:20 | a dish whose name has no line break is written on exactly one line |
| MenuFile.Outcomes | main.py:213 | the loader reaches a decision for every line of the file |
| MenuFile.OutcomesAt | main.py:213-237 | each line's decision depends only on that line |
| MenuFile.Messages | main.py:237 | one log entry per diagnostic |
| MenuFile.MessageAt | main.py:237 | the entry for the k-th rejected line is an `ОШИБКА` entry whose message (`Message`) is the fixed text with its line number, its stripped text and the reason (`Reason`, the `str(e)` of the failure) |
| MenuFile.MessagesAt | main.py:237 | every entry is the `ОШИБКА` entry for the diagnostic at the same position |
| MenuFile.MessagesAppend | main.py:213-237 | logging the diagnostics of two runs of lines in turn logs their concatenation |
| MenuFile.LoadCounts | main.py:213-238 | every non-blank line gives a dish or a diagnostic, never both: dishes plus diagnostics equal the non-blank lines |
| MenuFile.DiagnosticsSound | main.py:236-237 | each diagnostic names, by its 1-based number, a line that was rejected, with that line's stripped text and failure |
| MenuFile.DiagnosticsOrdered | main.py:213-237 | diagnostics come in file order: their line numbers strictly increase |
| MenuFile.DiagnosticsComplete | main.py:236-237 | every rejected line has a diagnostic carrying its number |
| MenuFile.DishesExact | main.py:235 | the dishes returned are exactly those of the accepted lines, one per accepted line, in file order |
| MenuFile.LoadStep | main.py:213-237 | each line adds its own dish or diagnostic, if any, after those of the lines before it |
| MenuFile.BlankLineSilent | main.py:215-216 | a blank line adds no dish and no diagnostic |
| MenuFile.AllAccepted | main.py:213-238 | when every line is accepted, the loader returns the matching dishes in order and reports nothing |
| MenuFile.SavedLines | main.py:196-213 | the loader reads back, line for line, the encoded lines `save_menu` wrote, when no name holds a line break |
| MenuFile.AcceptedFileSafe | main.py:213-235 | a line without line breaks that the loader accepts gives a dish the file format carries |
| MenuFile.LoadedFileSafe | main.py:200-238 | every dish `load_menu` returns, from any file, has a non-empty name with no comma, no line break and no leading whitespace, and a positive price, so it survives another save and load |
| MenuFile.SaveLoadRoundTrip | main.py:188-238 | saving a menu of dishes the format carries and loading the file gives the same menu, in order, and logs nothing |
| MenuFile.SaveLoadRoundTripCRLF | main.py:188-238 | the same round trip holds where text mode writes each newline as `\r\n` |
| MenuFile.MenuFileHandler.constructor | main.py:185-186 | the handler logs to the logger it is given |
| MenuFile.MenuFileHandler.SaveMenu | main.py:188-198 | the text written is each dish's line followed by `\n`, in order, and nothing else |
| MenuFile.MenuFileHandler.LoadLine | main.py:214-237 | one line yields its dish if accepted, and logs exactly its one error entry if rejected |
| MenuFile.MenuFileHandler.LoadLines | main.py:210-238 | the loop returns the accepted dishes in order and appends exactly one error entry per rejected line, in order, to the log |
| MenuFile.MenuFileHandler.LoadMenu | main.py:200-238 | loading a file returns its accepted dishes and logs exactly its diagnostics, leaving earlier log entries in place |
| Window.FormDishFileSafe | main.py:304-319 | a dish the add form accepts, whose name has no comma and no line break, survives a save and a load |
| Window.MenuWindow.constructor | main.py:243-252 | a new window has an empty menu and an empty log, and its file handler logs to the window's logger |
| Window.MenuWindow.AddDish | main.py:302-320 | an empty stripped name logs the empty-name warning and a price that is not positive logs the price warning (`PriceWarning`: the fixed text and the price), both leaving the menu alone; otherwise the dish with the stripped name is appended and nothing is logged |
| Window.MenuWindow.DeleteDish | main.py:322-338 | with no selection, a warning and no change; with a selection, the dish at that row is removed when confirmed, nothing when not, and nothing is logged |
| Window.MenuWindow.SaveMenu | main.py:340-349 | nothing is written when the dialog is cancelled, otherwise exactly the save text of the current menu |
| Window.MenuWindow.LoadMenu | main.py:351-366 | a cancelled dialog changes nothing; an unreadable file logs one error (`LoadFailure`: the fixed text and the reason) and keeps the menu; a readable file replaces the menu by the dishes loaded from it and logs exactly its diagnostics |
| Window.MenuWindow.ReloadFrom | main.py:357-362 | after clearing and re-adding, the menu is exactly the loaded list in order |
| Scenarios.CarbonaraLine | test_main_units.py:25-27 | the sample dish is written as `Паста Карбонара,450.0,00:20` |
| Scenarios.CarbonaraSavedAndLoaded | test_main_units.py:129-139 | saving the sample menu and loading it gives the sample menu back and logs nothing |
| Scenarios.OneLineFile | main.py:213-237 | a file of one terminated line loads as that single line, numbered 1 |
| Scenarios.EmptyNameLine | main.py:220-221 | `,450.0,00:20` is rejected for its empty name |
| Scenarios.EmptyNameFile | test_main_units.py:141-148 | a file of that line loads no dish and logs exactly one error, for line 1 |
| Scenarios.PriceField | main.py:223 | `450.0` reads as the sample price |
| Scenarios.NegativePriceField | main.py:223-225 | `-450.0` is a number but not a positive one |
| Scenarios.NegativePriceLine | main.py:224-225 | `Паста Карбонара,-450.0,00:20` is rejected for its price |
| Scenarios.NegativePriceFile | test_main_units.py:150-157 | a file of that line loads no dish and logs exactly one error, for line 1 |
| Scenarios.HourOutOfRangeField | main.py:228-233 | `25:20` is the two integers 25 and 20, and fails the hour range check |
| Scenarios.HourOutOfRangeLine | main.py:229-233 | `Паста Карбонара,450.0,25:20` is rejected for its time |
| Scenarios.BadHourFile | test_main_units.py:159-166 | a file of that line loads no dish and logs exactly one error, for line 1 |
| Scenarios.OneDigit | main.py:228 | `int` of a single digit is that digit's value |
| Scenarios.TwoDigits | main.py:228 | `int` of two digits is ten times the first plus the second |
| Scenarios.UnpaddedTime | main.py:228-231 | an unpadded time `h:m` is accepted and written back zero-padded, so encoding after decoding changes the text |
| Scenarios.ZeroFiveMinutes | main.py:228-231 | `0:5` is read as 00:05 and stored again as `00:05` |
| Scenarios.AddThenDelete | test_main_units.py:178-213 | adding the sample dish through the window gives the one-dish menu, and confirming its deletion empties it again |
| Scenarios.Refusals | test_main_units.py:188-239 | an empty name and a failed load both leave the menu empty, with one warning and one error logged, in that order |
| Scenarios.LoadSaved | test_main_units.py:222-231 | loading a saved copy of the sample menu into the window gives the sample menu and logs nothing |

## Left out
- MenuFile.TerminatedNoCR: writing in text mode turns each `\n` into the platform's line separator (main.py:196). `SaveText` is the text on a platform whose separator is `\n`, and `SaveTextCRLF` the text where it is `\r\n`. Other separators are not modelled. `SaveLoadRoundTripCRLF` shows the `\r\n` case loads the same.

- The Qt user interface is not modelled: `MenuTableModel` (main.py:70-130), the widgets of `MenuFormManager`, message boxes, the table view and `layoutChanged` signals. The `:.2f` display of prices and the table headers belong to it.
- The price spin box is not modelled: its range 0.1–10000 and its clamping of values set outside it (main.py:160-162). `Window.MenuWindow.AddDish` takes any price, so its price guard is stated for prices the form would never produce.
- `Logger` only keeps its (level, message) entries. The `logs` directory, the file writes, the timestamps and the log file name are not modelled. The name comes from a default argument computed once at definition time (main.py:20).
- Files are their text. Failures to open or write a file are not modelled, except that a file which cannot be read at all reaches `Window.MenuWindow.LoadMenu` as `Unreadable`. A decoding error part-way through a file is not modelled either: the lines before it would already have been logged, and the menu would be kept.
- Dishes.Show: writes every price in positional notation. Python's `str` of a float uses exponent notation below 1e-4 and from 1e16 up (`1e-05`, `1e+16`), and the model does not reproduce that.
- Dishes.ParsePrice: models `float` on plain decimal text only. Exponents, `inf` and `nan`, `_` separators and non-ASCII digits are left out, so those texts are rejected where Python accepts them. Among them, NaN passes the `price <= 0` test. Binary floating point and its rounding are left out: a price is an exact decimal, compared with zero exactly.
- Text.ParseInt: models `int` on ASCII decimal digits with an optional sign and surrounding whitespace. `_` separators and non-ASCII digits are left out.
- LineCodec.Failure: the payload records what kind of error was raised and the field it quotes. The exact text of Python's unpacking error differs between Python versions, and `float`'s error message quotes the field with `repr` escaping. `MenuFile.Reason` gives the usual form of both.
- `DishBase.__str__` raising `NotImplementedError` is not modelled: only `Dish` is ever built, so every dish has the `Dish` encoding.
- Seconds in the `QTime` of the form are dropped, as `strftime('%H:%M')` drops them. The form's time is taken to the minute.
- `Window.MenuWindow.SaveMenu` returns the text it writes rather than writing a file. An exception raised by the write is not modelled.
