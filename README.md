# TuneSphere track catalog and transport, in Dafny

TuneSphere is a small desktop music library. Its main window keeps a
catalog of tracks backed by a text file, `DB.txt`, with one record per
line: six comma-separated fields, `id,title,author,duration,audioFile,cover`.
The window can:

- load the file into the catalog;
- add a track, after checking the four user fields and probing the audio
  file for its length;
- delete a track by id, which rewrites the whole file;
- play, pause and stop the media player.

This project models that core (`TuneSphere/MainWindow.xaml.cs`) and proves
properties of the model.

Modules, one file each:

- `Fields` (`fields.dfy`) models `String.Split` and the joining of record
  fields. Empty parts are kept, so a text with n separators has n + 1 parts.
- `Numbers` (`numbers.dfy`) models the decimal text of a C# `int`, writing
  it and parsing it back with `int.Parse`.
- `Durations` (`durations.dfy`) models durations as whole seconds, with
  three texts:
  - the display text `hh:mm:ss`, written with the custom format
    `hh\:mm\:ss`, whose hours are the hours component (0 to 23);
  - the `TimeSpan.ToString()` text `[d.]hh:mm:ss`;
  - the `TimeSpan.Parse` reading of both.
- `Records` (`records.dfy`) models the entry (`Track`), the two ways a
  record line is written, and how one line is read.
  - Add writes `AddLine`; delete writes `TrackLine`.
  - `ReadLine` reads one line: a line that does not split into six fields
    is skipped, and a six-field line whose id or duration does not parse
    raises.
  - `Clean` and `Decoded` describe what loading a whole file gives.
- `IdPolicy` (`idpolicy.dfy`) models how add numbers a track: `Max + 1`,
  or 1 for an empty catalog. It has two versions, the code as written
  (unchecked 32-bit addition) and a corrected one.
- `Catalog` (`catalog.dfy`) models the window's catalog as a class.
  - It has two fields: `tracks`, the list shown to the user, and `file`,
    the track file's lines, `None` while the file does not exist.
  - Its methods are `Load`, `Add`, `FindFirst` and `Delete`.
  - Each method is specified by a function on values: `LoadFrom`,
    `PlanAdd` and `RemoveFirst`/`Render`.
  - `Synced()` states that reloading the file now would rebuild exactly
    the catalog.
  - The duration probe (`AudioFileHelper.GetAudioDuration`) is modelled as
    `GetAudioDuration`. The decoder's verdict is an input (`Decoder`),
    because the decoder itself is a third-party library.
- `Transport` (`transport.dfy`) models the `isPlaying` flag as a class,
  together with the commands the window sends to the media player.

Behaviours of the code worth noting. Each one departs from what a reader
would expect of a track store; the model keeps the code's behaviour:

- A reader would expect the delete rewrite to write the cover path, as add
  does at line 73. Line 127 writes `t.CoverImage` instead, and that is a
  decoded bitmap. The model gives the catalog a constant `coverText`: the
  text a cover bitmap renders as. Every delete property is proved for any
  such function. Exact round-trips are proved for the case where it gives
  back the path.
- A reader would expect a load to skip a bad record or to report it. At
  lines 99 and 102, a six-field line whose id or duration does not parse
  raises an exception instead. Nothing catches it: the load runs inside the
  window constructor (line 25), so the exception leaves the constructor and
  the window does not open. `Load` returns `Aborted(k)` in that case, naming
  the first such line; the entries it has appended by then are never shown.
- A reader would expect a duration written by add to come back unchanged
  after a delete rewrite. That holds only below one day. Add writes
  `TimeSpan.ToString()` (`1.02:03:04`) at line 73. The catalog keeps the
  `hh:mm:ss` text (`02:03:04`) at line 80, and delete writes that text back.
  `Durations.ParseTimeSpanText`, `Durations.ParseFormatHms` and
  `Durations.WithinADay` prove what each text reads back as. A reload shows
  the same catalog either way, because the display text drops the days.

One place where the model does not follow the code: the id add gives a
track. The code's unchecked `Max + 1` at line 72 can hand out an id already
in use (see "## Findings"). `Catalog.PlanAdd` and `Catalog.Catalog.Add` use
the corrected policy `IdPolicy.NextId` instead, and `IdPolicy.NextIdAsWritten`
keeps the code as written.

## Model

| member | source | states |
|---|---|---|
| Fields.Split | TuneSphere/MainWindow.xaml.cs:95 | splitting on ',' gives at least one part, and no part holds the separator |
| Fields.SplitCount | TuneSphere/MainWindow.xaml.cs:95-97 | a line has exactly one more part than it has commas, so six fields means five commas |
| Fields.SplitJoin | TuneSphere/MainWindow.xaml.cs:73 | separator-free fields joined by ',' split back into exactly those fields |
| Fields.JoinSplit | TuneSphere/MainWindow.xaml.cs:95 | joining the parts of any line with ',' gives the line back, so splitting loses nothing |
| Numbers.ParseNat | TuneSphere/MainWindow.xaml.cs:99 | a number is read exactly when the text is one or more decimal digits |
| Numbers.NatToString | TuneSphere/MainWindow.xaml.cs:73 | the decimal text of a number is non-empty and all digits |
| Numbers.IntToString | TuneSphere/MainWindow.xaml.cs:73 | an id's text is digits with at most a leading '-' |
| Numbers.ParseInt32 | TuneSphere/MainWindow.xaml.cs:99 | whatever int.Parse accepts lies in the 32-bit range |
| Numbers.NatRoundTrip | TuneSphere/MainWindow.xaml.cs:99 | reading back the decimal text of a number gives the number |
| Numbers.IntRoundTrip | TuneSphere/MainWindow.xaml.cs:99 | every 32-bit id written into a record is parsed back as the same id |
| Numbers.NoOtherChar | TuneSphere/MainWindow.xaml.cs:73 | an id's text never contains ',' (or any character other than digits and '-') |
| Durations.Pad2 | TuneSphere/MainWindow.xaml.cs:80 | a two-digit component is two digits whose value is the component |
| Durations.TimeOfDayParts | TuneSphere/MainWindow.xaml.cs:80 | hours component, minutes and seconds are unaffected by whole days |
| Durations.FormatHmsOfDay | TuneSphere/MainWindow.xaml.cs:110 | the hh:mm:ss display text of a duration is that of its time of day |
| Durations.Recompose | TuneSphere/MainWindow.xaml.cs:102 | days, hours, minutes and seconds recombine into the duration |
| Durations.ParseDayPrefix | TuneSphere/MainWindow.xaml.cs:102 | the "d." day prefix and hours of ToString() are read back as the day count and hours |
| Durations.ParseClock | TuneSphere/MainWindow.xaml.cs:102 | a clock text with valid hours, minutes and seconds parses to their total |
| Durations.ParseTimeSpanText | TuneSphere/MainWindow.xaml.cs:102 | the duration text add writes parses back as the same duration, days included |
| Durations.ParseFormatHms | TuneSphere/MainWindow.xaml.cs:127 | the display text delete writes parses back as the duration modulo one day |
| Durations.WithinADay | TuneSphere/MainWindow.xaml.cs:73-80 | below one day the text add writes equals the display text |
| Durations.NoComma | TuneSphere/MainWindow.xaml.cs:73 | neither duration text contains ',' so it cannot break a record |
| Records.ReadLine | TuneSphere/MainWindow.xaml.cs:95-113 | a line is skipped exactly when it does not split into six fields |
| Records.ReadAddLine | TuneSphere/MainWindow.xaml.cs:73-113 | the record add writes for comma-free fields reads back as the entry add puts in the catalog |
| Records.ReadTrackLine | TuneSphere/MainWindow.xaml.cs:127 | the record delete rewrites for a storable entry reads back as that entry, with its cover as written |
| Records.RowsAreStorable | TuneSphere/MainWindow.xaml.cs:99-110 | every entry a line loads has a 32-bit id, comma-free fields and a canonical display duration |
| Records.DecodedStorable | TuneSphere/MainWindow.xaml.cs:92-115 | every entry of a whole load can be stored |
| Records.DecodedAppend | TuneSphere/MainWindow.xaml.cs:93-115 | loading two runs of lines gives the first run's entries followed by the second's |
| Records.CleanAppend | TuneSphere/MainWindow.xaml.cs:93-115 | two runs of lines load without raising exactly when each does |
| Records.DecodedSingle | TuneSphere/MainWindow.xaml.cs:93-115 | a file of one line holds that line's entry, if any |
| Records.SkippedLine | TuneSphere/MainWindow.xaml.cs:95-97 | a line without six fields contributes nothing and does not disturb the entries around it |
| Records.SkippedLineClean | TuneSphere/MainWindow.xaml.cs:95-97 | such a line never makes a load raise |
| Records.RenderClean | TuneSphere/MainWindow.xaml.cs:127 | a file rewritten from rewritable entries loads without raising |
| Records.RereadRender | TuneSphere/MainWindow.xaml.cs:127 | a file rewritten from rewritable entries reloads as those entries in order, covers as written |
| Records.EntriesOfTrackLine | TuneSphere/MainWindow.xaml.cs:127 | a rewritten record contributes exactly its entry to a load |
| Records.RenderSnoc | TuneSphere/MainWindow.xaml.cs:127 | rewriting one more entry adds its record at the end of the file |
| Records.RereadSnoc | TuneSphere/MainWindow.xaml.cs:127 | rereading one more entry adds it at the end |
| IdPolicy.MaxId | TuneSphere/MainWindow.xaml.cs:72 | the maximum id is the id of some entry and no id exceeds it |
| IdPolicy.Wrap32 | TuneSphere/MainWindow.xaml.cs:72 | unchecked int addition lands in the 32-bit range and leaves in-range values alone |
| IdPolicy.NextIdAsWrittenRepeats | TuneSphere/MainWindow.xaml.cs:72 | once a catalog holds int.MaxValue the code's next id is int.MinValue, not above any id |
| IdPolicy.OverflowDuplicatesId | TuneSphere/MainWindow.xaml.cs:72 | for ids {int.MinValue, int.MaxValue} the code hands out an id already in use |
| IdPolicy.NextId | TuneSphere/MainWindow.xaml.cs:72 | 1 for an empty catalog; otherwise an id above every id, a 32-bit one, and none exactly when some id is int.MaxValue |
| IdPolicy.NextIdAgrees | TuneSphere/MainWindow.xaml.cs:72 | wherever the corrected policy gives an id it is the code's Max + 1 |
| IdPolicy.NextIdKeepsUnique | TuneSphere/MainWindow.xaml.cs:72-83 | a track numbered by the policy keeps the ids unique |
| Catalog.GetAudioDuration | TuneSphere/MainWindow.xaml.cs:181-191 | an empty path fails before the decoder is asked; otherwise success exactly when the decoder reads the file, with its length |
| Catalog.PlanAdd | TuneSphere/MainWindow.xaml.cs:49-83 | an empty field refuses, a failed probe refuses; add succeeds exactly when all four fields are non-empty, the audio file decodes and an id is left, and refuses for want of an id only when some id is int.MaxValue; success builds the entry with the display duration and the record with the raw duration, under an id above every existing one |
| Catalog.AddedLineReadsBack | TuneSphere/MainWindow.xaml.cs:73-83 | the record add appends reads back as the entry it appends |
| Catalog.AddKeepsUnique | TuneSphere/MainWindow.xaml.cs:72-83 | add keeps the ids unique |
| Catalog.AddKeepsSync | TuneSphere/MainWindow.xaml.cs:74-83 | if the file reloaded as the catalog before add, it reloads as the grown catalog after it |
| Catalog.RemoveFirstAt | TuneSphere/MainWindow.xaml.cs:122-126 | deleting removes exactly the first entry with the id, the others keeping their order |
| Catalog.RemoveFirstAbsent | TuneSphere/MainWindow.xaml.cs:122-126 | deleting an unknown id leaves the catalog unchanged |
| Catalog.DeletePresent | TuneSphere/MainWindow.xaml.cs:122-126 | with unique ids, deleting a present id leaves one entry fewer, none with that id, ids still unique |
| Catalog.RemoveFirstFrom | TuneSphere/MainWindow.xaml.cs:122-126 | every entry left by a delete was there before |
| Catalog.RereadIdentity | TuneSphere/MainWindow.xaml.cs:127 | when the cover text is the path, rereading rewritten entries gives the entries themselves |
| Catalog.DeleteRereads | TuneSphere/MainWindow.xaml.cs:122-127 | the rewritten file reloads as the remaining entries with covers as written, and exactly as them when covers are written as paths |
| Catalog.ReadAll | TuneSphere/MainWindow.xaml.cs:92-95 | one reading per line of the file |
| Catalog.ReadAllAt | TuneSphere/MainWindow.xaml.cs:93-95 | reading k of a file is how line k reads |
| Catalog.ReadAllMeaning | TuneSphere/MainWindow.xaml.cs:92-115 | no reading stops the load exactly when the file is clean, and the records read are the file's entries |
| Catalog.LoadFromComplete | TuneSphere/MainWindow.xaml.cs:93-115 | a load loop that runs to the end raised on no line and added one entry per record in order |
| Catalog.LoadFromAborted | TuneSphere/MainWindow.xaml.cs:93-115 | a load loop that raises does so at the first six-field line whose id or duration does not parse, keeping the entries of the lines before it |
| Catalog.LoadComplete | TuneSphere/MainWindow.xaml.cs:86-117 | loading a whole file completes exactly when no line raises, and then gives the file's entries in order |
| Fields.Join | TuneSphere/MainWindow.xaml.cs:73 | models the interpolation of the six fields with ',' between them; its round-trips with Split are Fields.SplitJoin and Fields.JoinSplit |
| Durations.FormatHms | TuneSphere/MainWindow.xaml.cs:80 | models the `hh\:mm\:ss` custom format, also used at line 110; specified by Durations.FormatHmsOfDay and Durations.ParseFormatHms |
| Durations.TimeSpanText | TuneSphere/MainWindow.xaml.cs:73 | models `TimeSpan.ToString()` of whole seconds; specified by Durations.ParseTimeSpanText and Durations.WithinADay |
| Durations.ParseDuration | TuneSphere/MainWindow.xaml.cs:102 | models `TimeSpan.Parse` on the forms the program writes; specified by Durations.ParseTimeSpanText and Durations.ParseFormatHms |
| Records.AddLine | TuneSphere/MainWindow.xaml.cs:73 | models the record add writes; specified by Records.ReadAddLine |
| Records.TrackLine | TuneSphere/MainWindow.xaml.cs:127 | models the record the delete rewrite writes for one entry; specified by Records.ReadTrackLine |
| Records.Render | TuneSphere/MainWindow.xaml.cs:127 | one rewritten record per entry, in catalog order; specified by Records.RenderClean and Records.RereadRender |
| Records.Decoded | TuneSphere/MainWindow.xaml.cs:93-115 | the entries a load of the lines builds, one per six-field line in file order; specified by Records.DecodedAppend, Records.SkippedLine and Catalog.LoadComplete |
| IdPolicy.NextIdAsWritten | TuneSphere/MainWindow.xaml.cs:72 | models the id policy as the code computes it; specified by IdPolicy.NextIdAsWrittenRepeats, IdPolicy.OverflowDuplicatesId and IdPolicy.NextIdAgrees |
| Catalog.RemoveFirst | TuneSphere/MainWindow.xaml.cs:122-125 | models the removal of the first entry with the id; specified by Catalog.RemoveFirstAt, Catalog.RemoveFirstAbsent and Catalog.DeletePresent |
| Catalog.LoadFrom | TuneSphere/MainWindow.xaml.cs:93-115 | models the foreach loop of the load over the reads of the lines; specified by Catalog.LoadFromComplete, Catalog.LoadFromAborted and Catalog.Catalog.Load |
| Catalog.Catalog.constructor | TuneSphere/MainWindow.xaml.cs:16-23 | a window starts with an empty catalog over the given file, before its first load |
| Catalog.Catalog.Load | TuneSphere/MainWindow.xaml.cs:86-117 | the catalog becomes the load loop's result over the file's lines; a missing file gives an empty catalog; a raise names an unparsable line; a completed load leaves the catalog in sync with the file |
| Catalog.Catalog.Add | TuneSphere/MainWindow.xaml.cs:49-85 | a refused add changes nothing; a successful one appends the record to the file and the entry to the catalog, keeping them in sync for comma-free fields |
| Catalog.Catalog.FindFirst | TuneSphere/MainWindow.xaml.cs:122 | finds the first entry with the id, or reports that none has it |
| Catalog.Catalog.Delete | TuneSphere/MainWindow.xaml.cs:118-129 | the catalog loses its first entry with the id and the file is rewritten from the rest; the file reloads as the catalog when covers are written as paths |
| Transport.Transport.constructor | TuneSphere/MainWindow.xaml.cs:18 | the window starts not playing, with no command sent |
| Transport.Transport.PlayPause | TuneSphere/MainWindow.xaml.cs:142-155 | pauses when playing and plays otherwise, flips the flag, and keeps the flag in step with the last command |
| Transport.Transport.Stop | TuneSphere/MainWindow.xaml.cs:156-161 | stops from either state and leaves the flag false, in step with the commands |

## Left out

- The WPF user interface, including file dialogs, message boxes, list
  binding, button glyphs and `ObservableCollection` change notifications.
  They are presentation only.
- NAudio's decoding. The decoder's verdict is an input of
  `Catalog.GetAudioDuration`. The scoped release of the reader is not
  observable in the model.
- Fractions of a second in a probed duration. Durations are whole seconds.
  `TimeSpan.ToString()` would add a `.fffffff` part, which the model does
  not write.
- Catalog.Catalog.Load: `int.Parse` also accepts surrounding white space and a
  leading '+', and `TimeSpan.Parse` accepts more forms (fractions, missing
  seconds). The model reads only the forms the program itself writes.
  It treats every other text as unparsable, so this contract is stated
  weaker than .NET's parsers on hand-edited files.
- Catalog.Catalog.Load: an `int.Parse` overflow and a bad `TimeSpan` are both the
  same exception, `Aborted`. The window constructor's failure that such an
  exception causes is left out.
- Catalog.Catalog.constructor: the program loads the file inside the window
  constructor (line 25), and a window exists only once that load has
  completed. The model's constructor does not load; `Load` is a separate
  method, and the object stays usable before any load and after an
  `Aborted` one. `Add` and `Delete` model the program only after a load
  that returned `Complete`. Called before it, `Add` numbers from an empty
  catalog; called after an `Aborted` load, `Delete` rewrites the file from
  the partial catalog and drops the lines after the bad one. The program
  can do neither.
- Numbers.ParseInt32: `int.Parse` also accepts surrounding white space and
  a leading '+'. The model refuses them, so it is weaker than .NET's parser
  on hand-edited ids; every id text the program writes is read as .NET
  reads it.
- Durations.ParseDuration: `TimeSpan.Parse` also accepts a leading '-', a
  lone integer read as a number of days, the `h:m` form without seconds,
  and fractions of a second. The model refuses them, so it is weaker than
  .NET's parser on hand-edited durations; both duration texts the program
  writes are read as .NET reads them.
- Building a `BitmapImage` from the cover path at lines 82 and 112. A bad
  URI raises after add has already appended the record. The model assumes
  the cover decodes. For the bitmap's text in the delete rewrite, see
  `coverText`.
- The file's encoding and line endings. The file is a sequence of lines,
  and the I/O failures of `File.*` (no store-unavailable path) are left
  out.
- Catalog.Catalog.Add: a title, author or path holding a line break
  (`'\n'` or `'\r'`) would make the record add appends into several lines
  when `File.ReadAllLines` reads it back. The model keeps the record as one
  line, so its sync guarantee for comma-free fields does not cover such
  fields.
- Catalog.PlanAdd: where some id is int.MaxValue, it refuses with
  `IdSpaceExhausted`. The code instead wraps to int.MinValue and appends a
  record and a track with that id (see "## Findings").
- Catalog.Catalog.Add: follows `Catalog.PlanAdd`, so it refuses and changes
  nothing where the code appends a track whose id wrapped to int.MinValue
  (see "## Findings").
- Atomicity. A crash between the file write and the catalog update is not
  modelled, and neither is concurrent access.
- Playback of a selected track (`PlayTrackButton_Click`) and the plain
  play button (`PlayButton_Click`). Neither changes `isPlaying`, and both
  only call the media player. The plain play button can leave the flag
  out of step with the player, which the model does not capture.
- The volume slider. It is floating point, feeds the media player only,
  and is not core.
- Catalog.Catalog.Delete: how a button is tagged with an id (line 120) is left out.
  The id is the method's parameter.

## Findings

| source | as written | input that shows it | evidently intended | confidence | as-written member | corrected member |
|---|---|---|---|---|---|---|
| TuneSphere/MainWindow.xaml.cs:72 | the new id is `Max + 1` in unchecked 32-bit arithmetic, so after int.MaxValue it wraps to int.MinValue | a catalog holding ids -2147483648 and 2147483647: the next id is -2147483648, already in use | a fresh id above every existing id, or a refused add when none is left | not executed | IdPolicy.OverflowDuplicatesId | IdPolicy.NextId |
