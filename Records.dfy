// The stored game record, as the launcher and the library handlers read it
// from and write it to the games file, electron/main.js lines 144-163.

module Records {
  /** The loosely typed `args` field of a stored record: an array of strings,
      a single string, or anything else (absent, null, a number, ...). */
  datatype ArgsField = ArgList(items: seq<string>) | ArgText(text: string) | NoArgs

  /** A game record as the launch path reads it. A field the program keeps
      as text is a string here; `id` 0 stands for a missing id, since
      `game.id || Date.now()` treats 0 and a missing id alike. Cover art,
      colour, icon, play time and the favourite flag are not modelled. */
  datatype Game = Game(
    id: int,
    title: string,
    titleEn: string,
    steamAppId: string,
    execPath: string,
    args: ArgsField,
    workingDir: string,
    lastPlayed: string,
    isRecent: bool)
}
