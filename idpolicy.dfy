/**
 * How add numbers a new track: 1 for an empty catalog, otherwise one more
 * than the largest id in the catalog.
 */
module IdPolicy {
  import opened Wrappers
  import opened Numbers
  import opened Records

  /** No two entries share an id. */
  predicate UniqueIds(ts: seq<Track>) {
    forall i, j :: 0 <= i < j < |ts| ==> ts[i].id != ts[j].id
  }

  /** Every id is a C# int. */
  predicate Int32Ids(ts: seq<Track>) {
    forall i :: 0 <= i < |ts| ==> IsInt32(ts[i].id)
  }

  /** The largest id (LINQ Max over the ids). */
  function MaxId(ts: seq<Track>): (m: int)
    requires |ts| > 0
    ensures exists i :: 0 <= i < |ts| && ts[i].id == m
    ensures forall i :: 0 <= i < |ts| ==> ts[i].id <= m
  {
    if |ts| == 1 then ts[0].id
    else
      var rest := MaxId(ts[1..]);
      if ts[0].id > rest then ts[0].id else rest
  }

  /** C#'s unchecked int addition: the result is taken modulo 2^32 into the
      32-bit range. */
  function Wrap32(x: int): (r: int)
    ensures IsInt32(r)
    ensures IsInt32(x) ==> r == x
  {
    (x - IntMin) % 0x1_0000_0000 + IntMin
  }

  /** The id policy as the program computes it: Max + 1 in unchecked 32-bit
      arithmetic, so the id after int.MaxValue is int.MinValue. */
  function NextIdAsWritten(ts: seq<Track>): int {
    if |ts| > 0 then Wrap32(MaxId(ts) + 1) else 1
  }

  /** Once the catalog holds int.MaxValue the policy as written hands out
      int.MinValue, below every id, and a catalog that already holds
      int.MinValue gets it a second time. */
  lemma NextIdAsWrittenRepeats(ts: seq<Track>)
    requires Int32Ids(ts)
    requires exists i :: 0 <= i < |ts| && ts[i].id == IntMax
    ensures NextIdAsWritten(ts) == IntMin
    ensures forall i :: 0 <= i < |ts| ==> NextIdAsWritten(ts) <= ts[i].id
  {
    assert MaxId(ts) == IntMax;
  }

  /** A concrete catalog whose next id as written duplicates an existing one:
      the tracks with ids int.MinValue and int.MaxValue. */
  lemma OverflowDuplicatesId()
    ensures var ts := [Track(IntMin, "a", "a", "00:00:01", "a", "a"),
                       Track(IntMax, "b", "b", "00:00:01", "b", "b")];
            UniqueIds(ts) && NextIdAsWritten(ts) == ts[0].id
  {
    var ts := [Track(IntMin, "a", "a", "00:00:01", "a", "a"),
               Track(IntMax, "b", "b", "00:00:01", "b", "b")];
    assert ts[1].id == IntMax;
    NextIdAsWrittenRepeats(ts);
  }

  /** The id policy as intended: 1 for an empty catalog, otherwise Max + 1,
      and no id at all when Max + 1 would leave the 32-bit range (checked
      arithmetic). */
  function NextId(ts: seq<Track>): (r: Option<int>)
    ensures |ts| == 0 ==> r == Some(1)
    ensures r.Some? ==> forall i :: 0 <= i < |ts| ==> ts[i].id < r.value
    ensures r.None? <==> exists i :: 0 <= i < |ts| && ts[i].id >= IntMax
    ensures Int32Ids(ts) && r.Some? ==> IsInt32(r.value)
  {
    if |ts| == 0 then Some(1)
    else
      var m := MaxId(ts);
      if m >= IntMax then None else Some(m + 1)
  }

  /** Where the intended policy yields an id, it is the one the program
      computes, and it is one more than an existing id or 1 for an empty
      catalog. */
  lemma NextIdAgrees(ts: seq<Track>)
    requires Int32Ids(ts) && NextId(ts).Some?
    ensures NextIdAsWritten(ts) == NextId(ts).value
    ensures |ts| > 0 ==> exists i :: 0 <= i < |ts| && ts[i].id + 1 == NextId(ts).value
  {
    if |ts| > 0 {
      var m := MaxId(ts);
      var i :| 0 <= i < |ts| && ts[i].id == m;
      assert ts[i].id + 1 == NextId(ts).value;
    }
  }

  /** A track numbered by the policy keeps the ids unique. */
  lemma NextIdKeepsUnique(ts: seq<Track>, t: Track)
    requires UniqueIds(ts) && NextId(ts) == Some(t.id)
    ensures UniqueIds(ts + [t])
  {
    forall i, j | 0 <= i < j < |ts + [t]|
      ensures (ts + [t])[i].id != (ts + [t])[j].id
    {
      if j == |ts| {
        assert (ts + [t])[i] == ts[i];
      } else {
        assert (ts + [t])[i] == ts[i] && (ts + [t])[j] == ts[j];
      }
    }
  }
}
