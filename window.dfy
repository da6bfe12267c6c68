/** `MenuWindow` (main.py): what its four buttons do to the menu and to the
    log. Dialogs, message boxes and the table view are replaced by the values
    they hand back: the file name chosen (empty when the dialog is
    cancelled), the row selected, the answer to the confirmation, and the
    contents of the file or the reason it could not be read. */
module Window {
  import opened Text
  import opened Dishes
  import opened LineCodec
  import opened Log
  import opened Menu
  import opened MenuFile

  /** What opening the chosen file gives: its text, or the `str(e)` of the
      exception that stopped the read. */
  datatype FileSource = Unreadable(reason: string) | Readable(text: string)

  const EmptyNameWarning: string := "Попытка добавить блюдо с пустым названием"
  const NoSelectionWarning: string := "Попытка удаления блюда без выбора"

  /** The warning logged when the price from the form is not positive. */
  function PriceWarning(price: Price): string {
    "Неверная цена: " + Show(price)
  }

  /** The error logged when the chosen file cannot be loaded. */
  function LoadFailure(reason: string): string {
    "Не удалось загрузить файл: " + reason
  }

  /** A dish entered through the form, with a name that has no comma and no
      line break, is one the file format carries: saving and loading a menu
      of such dishes gives the same menu back. */
  lemma FormDishFileSafe(formName: string, price: Price, prepTime: PrepTime)
    requires Strip(formName) != [] && IsPositive(price)
    requires ',' !in formName && '\n' !in formName && '\r' !in formName
    ensures FileSafe(Dish(Strip(formName), price, prepTime))
  {
    StripKeepsAbsent(formName, ',');
    StripKeepsAbsent(formName, '\n');
    StripKeepsAbsent(formName, '\r');
  }

  class MenuWindow {
    const manager: MenuManager
    const logger: Logger
    const fileHandler: MenuFileHandler

    /** The file handler logs to the window's own logger. */
    predicate Valid() {
      fileHandler.logger == logger
    }

    /** A new window: an empty menu, and a file handler sharing the logger. */
    constructor ()
      ensures Valid() && fresh(manager) && fresh(logger) && fresh(fileHandler)
      ensures manager.dishes == [] && logger.entries == []
    {
      manager := new MenuManager();
      var log := new Logger();
      logger := log;
      fileHandler := new MenuFileHandler(log);
    }

    /** `add_dish`: the name from the form is stripped; an empty name or a
      price that is not positive is refused with a warning and leaves the
      menu as it was, any other entry is appended to the menu unlogged. */
    method AddDish(formName: string, price: Price, prepTime: PrepTime)
      modifies manager, logger
      ensures var name := Strip(formName);
        if name == [] then
          manager.dishes == old(manager.dishes) &&
          logger.entries == old(logger.entries) + [Entry(WarningLevel, EmptyNameWarning)]
        else if !IsPositive(price) then
          manager.dishes == old(manager.dishes) &&
          logger.entries == old(logger.entries) + [Entry(WarningLevel, PriceWarning(price))]
        else
          manager.dishes == old(manager.dishes) + [Dish(name, price, prepTime)] &&
          logger.entries == old(logger.entries)
    {
      var name := Strip(formName);
      if name == [] {
        logger.LogMessage(WarningLevel, EmptyNameWarning);
        return;
      }
      if !IsPositive(price) {
        logger.LogMessage(WarningLevel, PriceWarning(price));
        return;
      }
      manager.AddDish(Dish(name, price, prepTime));
    }

    /** `delete_dish`: with no row selected, a warning and no change; with a
      row selected, the dish there is removed when the deletion is confirmed
      (a row past the end is ignored by the manager). */
    method DeleteDish(selection: Option<int>, confirmed: bool)
      modifies manager, logger
      ensures selection.None? ==>
        manager.dishes == old(manager.dishes) &&
        logger.entries == old(logger.entries) + [Entry(WarningLevel, NoSelectionWarning)]
      ensures selection.Some? ==>
        logger.entries == old(logger.entries) &&
        manager.dishes == if confirmed then Deleted(old(manager.dishes), selection.value)
                          else old(manager.dishes)
    {
      match selection
      case None =>
        logger.LogMessage(WarningLevel, NoSelectionWarning);
      case Some(row) =>
        if confirmed {
          manager.DeleteDish(row);
        }
    }

    /** `save_menu`: nothing is written when the dialog is cancelled;
      otherwise the file receives the current menu, one line per dish. */
    method SaveMenu(filename: string) returns (written: Option<string>)
      ensures filename == [] ==> written == None
      ensures filename != [] ==> written == Some(SaveText(manager.dishes))
    {
      written := None;
      if filename != [] {
        var menu := manager.GetMenu();
        var text := fileHandler.SaveMenu(menu);
        written := Some(text);
      }
    }

    /** `load_menu`: a cancelled dialog changes nothing; a file that cannot
      be read is logged as an error and leaves the menu alone; a readable
      file replaces the whole menu by the dishes loaded from it, the
      rejected lines having been logged by the file handler. */
    method LoadMenu(filename: string, source: FileSource)
      requires Valid()
      modifies manager, logger
      ensures filename == [] ==>
        manager.dishes == old(manager.dishes) && logger.entries == old(logger.entries)
      ensures filename != [] && source.Unreadable? ==>
        manager.dishes == old(manager.dishes) &&
        logger.entries == old(logger.entries) + [Entry(ErrorLevel, LoadFailure(source.reason))]
      ensures filename != [] && source.Readable? ==>
        manager.dishes == LoadedDishes(source.text) &&
        logger.entries == old(logger.entries) + Messages(Diagnostics(source.text))
    {
      if filename == [] {
        return;
      }
      match source
      case Unreadable(reason) =>
        logger.LogMessage(ErrorLevel, LoadFailure(reason));
      case Readable(text) =>
        ReloadFrom(text);
    }

    /** The `try` block of `load_menu` on a readable file: load, clear the
      menu, then add the loaded dishes one by one. */
    method ReloadFrom(text: string)
      requires Valid()
      modifies manager, logger
      ensures manager.dishes == LoadedDishes(text)
      ensures logger.entries == old(logger.entries) + Messages(Diagnostics(text))
    {
      var dishes := fileHandler.LoadMenu(text);
      manager.ClearMenu();
      for i := 0 to |dishes|
        invariant manager.dishes == dishes[..i]
        invariant logger.entries == old(logger.entries) + Messages(Diagnostics(text))
      {
        assert dishes[..i + 1] == dishes[..i] + [dishes[i]];
        manager.AddDish(dishes[i]);
      }
      assert dishes[..|dishes|] == dishes;
    }
  }
}
