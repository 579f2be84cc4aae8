/**
 * The track catalog of the main window: the ordered list of entries shown
 * to the user and the track file behind it, with load, add and delete.
 */
module Catalog {
  import opened Wrappers
  import opened Fields
  import opened Numbers
  import opened Durations
  import opened Records
  import opened IdPolicy

  /** What the audio decoder makes of a file: its length in whole seconds,
      or an error. */
  datatype Decoder = Decodes(seconds: nat) | Rejects

  datatype ProbeError = EmptyPath | Undecodable

  /** The duration probe: an empty path is an argument error raised before
      the decoder is consulted; otherwise the decoder decides. */
  function GetAudioDuration(path: string, decoder: Decoder): (r: Result<nat, ProbeError>)
    ensures path == "" ==> r == Failure(EmptyPath)
    ensures path != "" ==> (r.Success? <==> decoder.Decodes?)
    ensures r.Success? ==> r.value == decoder.seconds
  {
    if path == "" then Failure(EmptyPath)
    else
      match decoder
      case Decodes(secs) => Success(secs)
      case Rejects => Failure(Undecodable)
  }

  /** Why add refused a track. */
  datatype AddError = MissingField | UnreadableAudio(cause: ProbeError) | IdSpaceExhausted

  /** The record add appends to the file and the entry it appends to the catalog. */
  datatype Entry = Entry(line: string, track: Track)

  predicate AnyEmpty(title: string, author: string, cover: string, audioFile: string) {
    title == "" || author == "" || cover == "" || audioFile == ""
  }

  /** What add does with the catalog ts and the user's four fields: validate,
      probe the audio file, number the track, and build its record and entry. */
  function PlanAdd(ts: seq<Track>, title: string, author: string, cover: string,
                   audioFile: string, decoder: Decoder): (r: Result<Entry, AddError>)
    ensures AnyEmpty(title, author, cover, audioFile) ==> r == Failure(MissingField)
    ensures !AnyEmpty(title, author, cover, audioFile) && decoder.Rejects?
            ==> r == Failure(UnreadableAudio(Undecodable))
    ensures r.Success? <==>
      !AnyEmpty(title, author, cover, audioFile) && decoder.Decodes? && NextId(ts).Some?
    ensures r == Failure(IdSpaceExhausted) ==> NextId(ts).None?
    ensures r.Success? ==>
      var t := r.value.track;
      t == Track(t.id, title, author, FormatHms(decoder.seconds), audioFile, cover) &&
      r.value.line == AddLine(t.id, title, author, decoder.seconds, audioFile, cover)
    ensures r.Success? ==> NextId(ts) == Some(r.value.track.id)
    ensures r.Success? ==> forall i :: 0 <= i < |ts| ==> ts[i].id < r.value.track.id
  {
    if AnyEmpty(title, author, cover, audioFile) then Failure(MissingField)
    else
      match GetAudioDuration(audioFile, decoder)
      case Failure(e) => Failure(UnreadableAudio(e))
      case Success(secs) =>
        match NextId(ts)
        case None => Failure(IdSpaceExhausted)
        case Some(id) =>
          Success(Entry(AddLine(id, title, author, secs, audioFile, cover),
                        Track(id, title, author, FormatHms(secs), audioFile, cover)))
  }

  /** No ',' in any of the user's four fields. */
  predicate FieldsFree(title: string, author: string, cover: string, audioFile: string) {
    Sep !in title && Sep !in author && Sep !in cover && Sep !in audioFile
  }

  /** The record add writes reads back as the entry add appends. */
  lemma AddedLineReadsBack(ts: seq<Track>, title: string, author: string, cover: string,
                           audioFile: string, decoder: Decoder)
    requires Int32Ids(ts) && FieldsFree(title, author, cover, audioFile)
    requires PlanAdd(ts, title, author, cover, audioFile, decoder).Success?
    ensures var e := PlanAdd(ts, title, author, cover, audioFile, decoder).value;
            ReadLine(e.line) == Row(e.track)
  {
    var e := PlanAdd(ts, title, author, cover, audioFile, decoder).value;
    ReadAddLine(e.track.id, title, author, decoder.seconds, audioFile, cover);
  }

  /** Add keeps the ids unique. */
  lemma AddKeepsUnique(ts: seq<Track>, title: string, author: string, cover: string,
                       audioFile: string, decoder: Decoder)
    requires UniqueIds(ts)
    requires PlanAdd(ts, title, author, cover, audioFile, decoder).Success?
    ensures UniqueIds(ts + [PlanAdd(ts, title, author, cover, audioFile, decoder).value.track])
  {
    NextIdKeepsUnique(ts, PlanAdd(ts, title, author, cover, audioFile, decoder).value.track);
  }

  /** If reloading the file gave the catalog before an add of comma-free
      fields, it gives the grown catalog after it. */
  lemma AddKeepsSync(lines: seq<string>, title: string, author: string, cover: string,
                     audioFile: string, decoder: Decoder)
    requires Clean(lines) && FieldsFree(title, author, cover, audioFile)
    requires PlanAdd(Decoded(lines), title, author, cover, audioFile, decoder).Success?
    ensures var e := PlanAdd(Decoded(lines), title, author, cover, audioFile, decoder).value;
            Clean(lines + [e.line]) && Decoded(lines + [e.line]) == Decoded(lines) + [e.track]
  {
    var ts := Decoded(lines);
    var e := PlanAdd(ts, title, author, cover, audioFile, decoder).value;
    DecodedStorable(lines);
    AddedLineReadsBack(ts, title, author, cover, audioFile, decoder);
    DecodedAppend(lines, [e.line]);
    assert [e.line][..0] == [];
    assert (lines + [e.line])[..|lines|] == lines;
  }

  /** The catalog without the first entry that has the id; the others keep
      their order. */
  function RemoveFirst(ts: seq<Track>, id: int): seq<Track> {
    if ts == [] then []
    else if ts[0].id == id then ts[1..]
    else [ts[0]] + RemoveFirst(ts[1..], id)
  }

  /** Removing the first match at k cuts out exactly position k. */
  lemma {:induction false} RemoveFirstAt(ts: seq<Track>, id: int, k: nat)
    requires k < |ts| && ts[k].id == id
    requires forall j :: 0 <= j < k ==> ts[j].id != id
    ensures RemoveFirst(ts, id) == ts[..k] + ts[k + 1..]
  {
    if k > 0 {
      RemoveFirstAt(ts[1..], id, k - 1);
      assert ts[1..][..k - 1] == ts[1..k];
      assert ts[1..][k..] == ts[k + 1..];
      assert [ts[0]] + ts[1..k] == ts[..k];
    }
  }

  /** An unknown id leaves the catalog as it is. */
  lemma {:induction false} RemoveFirstAbsent(ts: seq<Track>, id: int)
    requires forall j :: 0 <= j < |ts| ==> ts[j].id != id
    ensures RemoveFirst(ts, id) == ts
  {
    if ts != [] {
      RemoveFirstAbsent(ts[1..], id);
      assert [ts[0]] + ts[1..] == ts;
    }
  }

  /** Deleting a track that is in a catalog with unique ids leaves one entry
      fewer, none with that id, and the ids still unique. */
  lemma DeletePresent(ts: seq<Track>, k: nat)
    requires UniqueIds(ts) && k < |ts|
    ensures var rest := RemoveFirst(ts, ts[k].id);
            |rest| == |ts| - 1 && UniqueIds(rest) &&
            forall j :: 0 <= j < |rest| ==> rest[j].id != ts[k].id
  {
    RemoveFirstAt(ts, ts[k].id, k);
    var rest := ts[..k] + ts[k + 1..];
    assert forall j :: 0 <= j < |rest| ==> rest[j] == if j < k then ts[j] else ts[j + 1];
  }

  /** Every entry left by a delete was in the catalog before it. */
  lemma {:induction false} RemoveFirstFrom(ts: seq<Track>, id: int)
    ensures forall j :: 0 <= j < |RemoveFirst(ts, id)| ==> RemoveFirst(ts, id)[j] in ts
  {
    if ts != [] && ts[0].id != id {
      RemoveFirstFrom(ts[1..], id);
    }
  }

  /** With a cover text that gives back the cover path, rereading rewritten
      entries gives the entries themselves. */
  lemma RereadIdentity(ts: seq<Track>, coverText: string -> string)
    requires forall i :: 0 <= i < |ts| ==> coverText(ts[i].cover) == ts[i].cover
    ensures Reread(ts, coverText) == ts
  {
    assert forall i :: 0 <= i < |ts| ==> Reread(ts, coverText)[i] == ts[i];
  }

  /** After a delete from entries that can all be rewritten, reloading the
      rewritten file gives the remaining entries, each with its cover as it
      was written; with a cover text that gives back the path, exactly the
      remaining entries. */
  lemma DeleteRereads(ts: seq<Track>, id: int, coverText: string -> string)
    ensures var rest := RemoveFirst(ts, id);
      (forall i :: 0 <= i < |ts| ==> Rewritable(ts[i], coverText)) ==>
        Clean(Render(rest, coverText)) && Decoded(Render(rest, coverText)) == Reread(rest, coverText)
    ensures var rest := RemoveFirst(ts, id);
      (forall i :: 0 <= i < |ts| ==> Rewritable(ts[i], coverText) && coverText(ts[i].cover) == ts[i].cover) ==>
        Clean(Render(rest, coverText)) && Decoded(Render(rest, coverText)) == rest
  {
    var rest := RemoveFirst(ts, id);
    RemoveFirstFrom(ts, id);
    if forall i :: 0 <= i < |ts| ==> Rewritable(ts[i], coverText) {
      assert forall i :: 0 <= i < |rest| ==> Rewritable(rest[i], coverText);
      RenderClean(rest, coverText);
      RereadRender(rest, coverText);
      if forall i :: 0 <= i < |ts| ==> coverText(ts[i].cover) == ts[i].cover {
        RereadIdentity(rest, coverText);
      }
    }
  }

  /** How a load ended: every line read, or an exception at a six-field line
      whose id or duration did not parse. */
  datatype LoadStatus = Complete | Aborted(line: nat)

  /** The entries a load leaves in the catalog, and how it ended. */
  datatype Loaded = Loaded(tracks: seq<Track>, status: LoadStatus)

  /** How each line of a file reads, in file order. The load loop is
      specified over these reads rather than over the lines themselves:
      ReadAll, NoStop and Rows are a proof device that keeps the line parser
      out of the loop's induction. ReadAllMeaning ties them back to Clean
      and Decoded, the definition of a load over lines. */
  function ReadAll(lines: seq<string>): (rs: seq<LineRead>)
    ensures |rs| == |lines|
  {
    if lines == [] then []
    else ReadAll(lines[..|lines| - 1]) + [ReadLine(lines[|lines| - 1])]
  }

  lemma {:induction false} ReadAllAt(lines: seq<string>, i: nat)
    requires i < |lines|
    ensures ReadAll(lines)[i] == ReadLine(lines[i])
    decreases |lines|
  {
    if i < |lines| - 1 {
      ReadAllAt(lines[..|lines| - 1], i);
    }
  }

  /** No read stops a load: Clean, stated over reads (see ReadAll). */
  predicate NoStop(rs: seq<LineRead>) {
    forall i :: 0 <= i < |rs| ==> !rs[i].Unparsable?
  }

  /** The entries of the records among the reads, in order: Decoded, stated
      over reads (see ReadAll). */
  function Rows(rs: seq<LineRead>): seq<Track> {
    if rs == [] then []
    else RowEntries(rs[0]) + Rows(rs[1..])
  }

  /** The load loop from read start on, acc holding the entries built so
      far: each read is taken in turn, and the first one that stops the
      load ends it with the entries built before it. */
  function LoadFrom(rs: seq<LineRead>, start: nat, acc: seq<Track>): Loaded
    requires start <= |rs|
    decreases |rs| - start
  {
    if start == |rs| then Loaded(acc, Complete)
    else
      match rs[start]
      case Skipped => LoadFrom(rs, start + 1, acc)
      case Row(t) => LoadFrom(rs, start + 1, acc + [t])
      case Unparsable => Loaded(acc, Aborted(start))
  }

  lemma {:induction false} RowsAppend(a: seq<LineRead>, b: seq<LineRead>)
    ensures Rows(a + b) == Rows(a) + Rows(b)
    decreases |a|
  {
    if a == [] {
      assert a + b == b;
    } else {
      assert (a + b)[0] == a[0];
      assert (a + b)[1..] == a[1..] + b;
      RowsAppend(a[1..], b);
    }
  }

  lemma NoStopSnoc(rs: seq<LineRead>, r: LineRead)
    ensures NoStop(rs + [r]) <==> NoStop(rs) && !r.Unparsable?
  {
    var all := rs + [r];
    assert all[|rs|] == r;
    assert forall i :: 0 <= i < |rs| ==> all[i] == rs[i];
  }

  /** Reading a file line by line agrees with the file's own reading:
      no line stops the load exactly when the file is clean, and the
      records are the file's entries. */
  lemma {:induction false} ReadAllMeaning(lines: seq<string>)
    ensures NoStop(ReadAll(lines)) <==> Clean(lines)
    ensures Rows(ReadAll(lines)) == Decoded(lines)
    decreases |lines|
  {
    if lines != [] {
      var init, last := lines[..|lines| - 1], lines[|lines| - 1];
      var rs := ReadAll(init);
      ReadAllMeaning(init);
      RowsAppend(rs, [ReadLine(last)]);
      assert [ReadLine(last)][1..] == [];
      NoStopSnoc(rs, ReadLine(last));
    }
  }

  /** A load that completes has taken every remaining read and added one
      entry per record after acc. */
  lemma {:induction false} LoadFromComplete(rs: seq<LineRead>, start: nat, acc: seq<Track>)
    requires start <= |rs| && LoadFrom(rs, start, acc).status == Complete
    ensures NoStop(rs[start..])
    ensures LoadFrom(rs, start, acc).tracks == acc + Rows(rs[start..])
    decreases |rs| - start
  {
    if start == |rs| {
      assert rs[start..] == [];
    } else {
      assert rs[start..][1..] == rs[start + 1..];
      match rs[start]
      case Skipped =>
        LoadFromComplete(rs, start + 1, acc);
      case Row(t) =>
        LoadFromComplete(rs, start + 1, acc + [t]);
    }
  }

  /** A load that stops does so at the first read that stops it, with the
      entries of the reads before it after acc. */
  lemma {:induction false} LoadFromAborted(rs: seq<LineRead>, start: nat, acc: seq<Track>)
    requires start <= |rs| && LoadFrom(rs, start, acc).status.Aborted?
    ensures var k := LoadFrom(rs, start, acc).status.line;
      start <= k < |rs| && rs[k].Unparsable? &&
      NoStop(rs[start..k]) && LoadFrom(rs, start, acc).tracks == acc + Rows(rs[start..k])
    decreases |rs| - start
  {
    match rs[start]
    case Unparsable =>
      assert rs[start..start] == [];
    case Skipped =>
      LoadFromAborted(rs, start + 1, acc);
      var k := LoadFrom(rs, start, acc).status.line;
      assert rs[start..k][1..] == rs[start + 1..k];
    case Row(t) =>
      LoadFromAborted(rs, start + 1, acc + [t]);
      var k := LoadFrom(rs, start, acc).status.line;
      assert rs[start..k][1..] == rs[start + 1..k];
  }

  /** Loading a whole file completes exactly when no line of it stops the
      load, and then holds one entry per record, in file order. */
  lemma LoadComplete(lines: seq<string>)
    ensures LoadFrom(ReadAll(lines), 0, []).status == Complete <==> Clean(lines)
    ensures Clean(lines) ==> LoadFrom(ReadAll(lines), 0, []).tracks == Decoded(lines)
  {
    var rs := ReadAll(lines);
    assert rs[0..] == rs;
    ReadAllMeaning(lines);
    if LoadFrom(rs, 0, []).status == Complete {
      LoadFromComplete(rs, 0, []);
    } else {
      LoadFromAborted(rs, 0, []);
    }
  }

  class Catalog {
    /** The entries shown in the list, in order. */
    var tracks: seq<Track>
    /** The track file's lines; None while the file does not exist. */
    var file: Option<seq<string>>
    /** The text a cover bitmap renders as when it is written into a record. */
    const coverText: string -> string

    constructor (file: Option<seq<string>>, coverText: string -> string)
      ensures this.file == file && this.coverText == coverText && tracks == []
    {
      this.file := file;
      this.coverText := coverText;
      tracks := [];
    }

    /** The lines a read of the file sees; a missing file reads as none. */
    function Lines(): seq<string>
      reads this
    {
      match file
      case Some(lines) => lines
      case None => []
    }

    /** Reloading the file now would rebuild exactly the catalog. */
    predicate Synced()
      reads this
    {
      Clean(Lines()) && Decoded(Lines()) == tracks
    }

    /** Clear the catalog, then append one entry per six-field line of the
        file, in order. A six-field line whose id or duration does not parse
        raises, leaving the entries appended before it. */
    method Load() returns (status: LoadStatus)
      modifies this`tracks
      ensures Loaded(tracks, status) == LoadFrom(ReadAll(Lines()), 0, [])
      ensures file.None? ==> status == Complete && tracks == []
      ensures status.Aborted? ==> status.line < |Lines()| && ReadLine(Lines()[status.line]).Unparsable?
      ensures status == Complete ==> Synced()
    {
      tracks := [];
      status := Complete;
      if file.Some? {
        var lines := file.value;
        ghost var rs := ReadAll(lines);
        var i := 0;
        while i < |lines|
          invariant 0 <= i <= |lines|
          invariant LoadFrom(rs, i, tracks) == LoadFrom(rs, 0, [])
        {
          ReadAllAt(lines, i);
          match ReadLine(lines[i]) {
            case Skipped =>
            case Unparsable =>
              return Aborted(i);
            case Row(t) =>
              tracks := tracks + [t];
          }
          i := i + 1;
        }
      }
      LoadComplete(Lines());
    }

    /** Add a track: refuse it if a field is empty or the audio file cannot
        be probed; otherwise append its record to the file and its entry to
        the catalog. Nothing is written before the probe succeeds. */
    method Add(title: string, author: string, cover: string, audioFile: string, decoder: Decoder)
      returns (r: Result<Track, AddError>)
      modifies this
      ensures var plan := PlanAdd(old(tracks), title, author, cover, audioFile, decoder);
        if plan.Success? then
          r == Success(plan.value.track) && tracks == old(tracks) + [plan.value.track] &&
          file == Some(old(Lines()) + [plan.value.line])
        else
          r == Failure(plan.error) && tracks == old(tracks) && file == old(file)
      ensures old(Synced()) && r.Success? && FieldsFree(title, author, cover, audioFile) ==> Synced()
    {
      if AnyEmpty(title, author, cover, audioFile) {
        return Failure(MissingField);
      }
      var probed := GetAudioDuration(audioFile, decoder);
      if probed.Failure? {
        return Failure(UnreadableAudio(probed.error));
      }
      var next := NextId(tracks);
      if next.None? {
        return Failure(IdSpaceExhausted);
      }
      var line := AddLine(next.value, title, author, probed.value, audioFile, cover);
      if Synced() && FieldsFree(title, author, cover, audioFile) {
        AddKeepsSync(Lines(), title, author, cover, audioFile, decoder);
      }
      file := Some(Lines() + [line]);
      var t := Track(next.value, title, author, FormatHms(probed.value), audioFile, cover);
      tracks := tracks + [t];
      r := Success(t);
    }

    /** The position of the first entry with the id, if any. */
    method FindFirst(id: int) returns (k: Option<nat>)
      ensures k.Some? ==> k.value < |tracks| && tracks[k.value].id == id
      ensures k.Some? ==> forall j :: 0 <= j < k.value ==> tracks[j].id != id
      ensures k.None? ==> forall j :: 0 <= j < |tracks| ==> tracks[j].id != id
    {
      var i := 0;
      while i < |tracks|
        invariant 0 <= i <= |tracks|
        invariant forall j :: 0 <= j < i ==> tracks[j].id != id
      {
        if tracks[i].id == id {
          return Some(i);
        }
        i := i + 1;
      }
      return None;
    }

    /** Delete a track: remove the first entry with the id, if there is one,
        then rewrite the whole file with one record per remaining entry. */
    method Delete(id: int)
      modifies this
      ensures tracks == RemoveFirst(old(tracks), id)
      ensures file == Some(Render(tracks, coverText))
      ensures (forall i :: 0 <= i < |old(tracks)| ==> Rewritable(old(tracks)[i], coverText)) ==>
        Clean(Lines()) && Decoded(Lines()) == Reread(tracks, coverText)
      ensures (forall i :: 0 <= i < |old(tracks)| ==>
                 Rewritable(old(tracks)[i], coverText) && coverText(old(tracks)[i].cover) == old(tracks)[i].cover) ==>
        Synced()
    {
      var k := FindFirst(id);
      match k {
        case Some(at) =>
          RemoveFirstAt(tracks, id, at);
          tracks := tracks[..at] + tracks[at + 1..];
        case None =>
          RemoveFirstAbsent(tracks, id);
      }
      file := Some(Render(tracks, coverText));
      DeleteRereads(old(tracks), id, coverText);
    }
  }
}
