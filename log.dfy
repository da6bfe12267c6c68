/** `Logger` (main.py) seen as what it leaves behind: an append-only list of
    (level, message) entries. Where the entries are written is not modelled. */
module Log {

  datatype Entry = Entry(level: string, message: string)

  /** The level the loader and the failed load use. */
  const ErrorLevel: string := "ОШИБКА"

  /** The level of the add and delete guards. */
  const WarningLevel: string := "ПРЕДУПРЕЖДЕНИЕ"

  class Logger {
    var entries: seq<Entry>

    constructor ()
      ensures entries == []
    {
      entries := [];
    }

    /** `log_message(level, message)`: one entry at the end, nothing else. */
    method LogMessage(level: string, message: string)
      modifies this
      ensures entries == old(entries) + [Entry(level, message)]
    {
      entries := entries + [Entry(level, message)];
    }
  }
}
