/**
 * The catalog entry and its one-line record in the track file: the six
 * fields id, title, author, duration, audio file and cover, joined by ','.
 */
module Records {
  import opened Wrappers
  import opened Fields
  import opened Numbers
  import opened Durations

  /** One catalog entry. audioLength is the "hh:mm:ss" display text; cover is
      the path the cover bitmap is decoded from. */
  datatype Track = Track(id: int, title: string, author: string, audioLength: string,
                         audioFile: string, cover: string)

  const Sep: char := ','

  /** The record written when a track is added: the duration is the raw
      TimeSpan text and the cover is the path the user chose. */
  function AddLine(id: int, title: string, author: string, secs: nat,
                   audioFile: string, cover: string): string
  {
    Join([IntToString(id), title, author, TimeSpanText(secs), audioFile, cover], Sep)
  }

  /** The record written for a catalog entry when the file is rewritten: the
      duration is the display text, and the cover field is whatever text the
      entry's cover bitmap renders as, given here by coverText. */
  function TrackLine(t: Track, coverText: string -> string): string {
    Join([IntToString(t.id), t.title, t.author, t.audioLength, t.audioFile, coverText(t.cover)], Sep)
  }

  /** What loading makes of one line: a line that does not split into six
      fields is skipped; a six-field line whose id or duration does not parse
      stops the load. */
  datatype LineRead = Skipped | Row(track: Track) | Unparsable

  function ReadLine(line: string): (r: LineRead)
    ensures r.Skipped? <==> |Split(line, Sep)| != 6
  {
    var parts := Split(line, Sep);
    if |parts| != 6 then Skipped
    else
      match (ParseInt32(parts[0]), ParseDuration(parts[3]))
      case (Some(id), Some(secs)) =>
        Row(Track(id, parts[1], parts[2], FormatHms(secs), parts[4], parts[5]))
      case _ => Unparsable
  }

  /** No line stops a load. */
  predicate Clean(lines: seq<string>) {
    lines == [] || (Clean(lines[..|lines| - 1]) && !ReadLine(lines[|lines| - 1]).Unparsable?)
  }

  /** The entries a load builds from the lines: one per six-field line, in
      file order. */
  function Decoded(lines: seq<string>): seq<Track> {
    if lines == [] then []
    else Decoded(lines[..|lines| - 1]) + Entries(lines[|lines| - 1])
  }

  /** The entry one line contributes, if any. */
  function Entries(line: string): seq<Track> {
    RowEntries(ReadLine(line))
  }

  /** The entry one read contributes: its track when it is a record. */
  function RowEntries(r: LineRead): seq<Track> {
    match r
    case Row(t) => [t]
    case _ => []
  }

  /** An entry that can be written as a record and read back unchanged: a
      32-bit id, no ',' in any text field, and a display duration in its
      canonical "hh:mm:ss" form. */
  predicate Storable(t: Track) {
    IsInt32(t.id) && Sep !in t.title && Sep !in t.author && Sep !in t.audioFile && Sep !in t.cover
    && match ParseDuration(t.audioLength)
       case Some(secs) => FormatHms(secs) == t.audioLength
       case None => false
  }

  /** The lines one per entry, in catalog order, as the file rewrite emits them. */
  function Render(ts: seq<Track>, coverText: string -> string): (lines: seq<string>)
    ensures |lines| == |ts|
  {
    seq(|ts|, i requires 0 <= i < |ts| => TrackLine(ts[i], coverText))
  }

  /** The entries as a reload of their rendered lines sees them. */
  function Reread(ts: seq<Track>, coverText: string -> string): seq<Track> {
    seq(|ts|, i requires 0 <= i < |ts| => ts[i].(cover := coverText(ts[i].cover)))
  }

  /** Loading lines one file after another builds the entries of the first
      followed by those of the second: a skipped line affects no other. */
  lemma {:induction false} DecodedAppend(a: seq<string>, b: seq<string>)
    ensures Decoded(a + b) == Decoded(a) + Decoded(b)
    decreases |b|
  {
    if b == [] {
      assert a + b == a;
    } else {
      var b' := b[..|b| - 1];
      assert (a + b)[..|a + b| - 1] == a + b';
      assert (a + b)[|a + b| - 1] == b[|b| - 1];
      DecodedAppend(a, b');
    }
  }

  /** A record written by add reads back as the entry add puts in the
      catalog, provided no text field holds a ','. */
  lemma ReadAddLine(id: int, title: string, author: string, secs: nat, audioFile: string, cover: string)
    requires IsInt32(id)
    requires Sep !in title && Sep !in author && Sep !in audioFile && Sep !in cover
    ensures ReadLine(AddLine(id, title, author, secs, audioFile, cover))
            == Row(Track(id, title, author, FormatHms(secs), audioFile, cover))
  {
    NoOtherChar(id, Sep);
    NoComma(secs);
    SplitJoin([IntToString(id), title, author, TimeSpanText(secs), audioFile, cover], Sep);
    IntRoundTrip(id);
    ParseTimeSpanText(secs);
  }

  /** A rewritten record reads back as the entry, with its cover replaced by
      the text the cover was written as. */
  lemma ReadTrackLine(t: Track, coverText: string -> string)
    requires Storable(t) && Sep !in coverText(t.cover)
    ensures ReadLine(TrackLine(t, coverText)) == Row(t.(cover := coverText(t.cover)))
  {
    var secs := ParseDuration(t.audioLength).value;
    NoOtherChar(t.id, Sep);
    NoComma(secs);
    SplitJoin([IntToString(t.id), t.title, t.author, t.audioLength, t.audioFile, coverText(t.cover)], Sep);
    IntRoundTrip(t.id);
    ParseFormatHms(secs);
    FormatHmsOfDay(secs);
  }

  /** Every entry a load builds can be written back and read again unchanged. */
  lemma RowsAreStorable(line: string)
    requires ReadLine(line).Row?
    ensures Storable(ReadLine(line).track)
  {
    var parts := Split(line, Sep);
    var secs := ParseDuration(parts[3]).value;
    ParseFormatHms(secs);
    FormatHmsOfDay(secs);
  }

  /** So is every entry of a whole load. */
  lemma {:induction false} DecodedStorable(lines: seq<string>)
    ensures forall i :: 0 <= i < |Decoded(lines)| ==> Storable(Decoded(lines)[i])
    decreases |lines|
  {
    if lines != [] {
      DecodedStorable(lines[..|lines| - 1]);
      var last := lines[|lines| - 1];
      if ReadLine(last).Row? {
        RowsAreStorable(last);
      }
    }
  }

  /** An entry whose rewritten record reads back whole. */
  predicate Rewritable(t: Track, coverText: string -> string) {
    Storable(t) && Sep !in coverText(t.cover)
  }

  /** No rewritten record of an entry that can be stored stops a load. */
  lemma {:induction false} RenderClean(ts: seq<Track>, coverText: string -> string)
    requires forall i :: 0 <= i < |ts| ==> Rewritable(ts[i], coverText)
    ensures Clean(Render(ts, coverText))
    decreases |ts|
  {
    if ts != [] {
      var n := |ts| - 1;
      assert forall i :: 0 <= i < n ==> ts[..n][i] == ts[i];
      RenderClean(ts[..n], coverText);
      RenderSnoc(ts, coverText);
      ReadTrackLine(ts[n], coverText);
      assert Render(ts, coverText)[..n] == Render(ts[..n], coverText);
    }
  }

  /** The entry a rewritten record contributes to a load. */
  lemma EntriesOfTrackLine(t: Track, coverText: string -> string)
    requires Rewritable(t, coverText)
    ensures Entries(TrackLine(t, coverText)) == [t.(cover := coverText(t.cover))]
  {
    ReadTrackLine(t, coverText);
  }

  /** Rendering one more entry adds its line at the end. */
  lemma RenderSnoc(ts: seq<Track>, coverText: string -> string)
    requires |ts| > 0
    ensures Render(ts, coverText) == Render(ts[..|ts| - 1], coverText) + [TrackLine(ts[|ts| - 1], coverText)]
  {
  }

  /** Rereading one more entry adds it at the end. */
  lemma RereadSnoc(ts: seq<Track>, coverText: string -> string)
    requires |ts| > 0
    ensures Reread(ts, coverText)
            == Reread(ts[..|ts| - 1], coverText) + [ts[|ts| - 1].(cover := coverText(ts[|ts| - 1].cover))]
  {
  }

  /** Rewriting entries that can be stored and reading the file again gives
      back the entries, each with its cover as it was written, in order. */
  lemma {:induction false} RereadRender(ts: seq<Track>, coverText: string -> string)
    requires forall i :: 0 <= i < |ts| ==> Rewritable(ts[i], coverText)
    ensures Decoded(Render(ts, coverText)) == Reread(ts, coverText)
    decreases |ts|
  {
    if ts != [] {
      var n := |ts| - 1;
      var init, line := ts[..n], TrackLine(ts[n], coverText);
      assert forall i :: 0 <= i < |init| ==> init[i] == ts[i];
      RereadRender(init, coverText);
      RenderSnoc(ts, coverText);
      DecodedAppend(Render(init, coverText), [line]);
      assert [line][..0] == [];
      EntriesOfTrackLine(ts[n], coverText);
      RereadSnoc(ts, coverText);
    }
  }

  /** Lines that do not stop a load, followed by more such lines. */
  lemma {:induction false} CleanAppend(a: seq<string>, b: seq<string>)
    ensures Clean(a + b) <==> Clean(a) && Clean(b)
    decreases |b|
  {
    if b == [] {
      assert a + b == a;
    } else {
      var b' := b[..|b| - 1];
      assert (a + b)[..|a + b| - 1] == a + b';
      assert (a + b)[|a + b| - 1] == b[|b| - 1];
      CleanAppend(a, b');
    }
  }

  /** A file of one line holds that line's entry, if any. */
  lemma DecodedSingle(line: string)
    ensures Decoded([line]) == Entries(line)
  {
    assert [line][..0] == [];
  }

  /** A line that does not split into six fields is skipped without
      affecting the entries of the lines before or after it. */
  lemma SkippedLine(a: seq<string>, line: string, b: seq<string>)
    requires |Split(line, Sep)| != 6
    ensures Decoded(a + [line] + b) == Decoded(a) + Decoded(b)
  {
    DecodedSingle(line);
    DecodedAppend(a, [line]);
    DecodedAppend(a + [line], b);
  }

  /** Nor does such a line stop a load. */
  lemma SkippedLineClean(a: seq<string>, line: string, b: seq<string>)
    requires |Split(line, Sep)| != 6
    ensures Clean(a + [line] + b) <==> Clean(a) && Clean(b)
  {
    assert [line][..0] == [];
    CleanAppend(a, [line]);
    CleanAppend(a + [line], b);
  }
}
