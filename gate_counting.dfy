/** The exactly-once counting step run after every tracker update: each track
    whose last move crosses an entry (exit) line is counted as an entry (exit),
    at most once per id and category over the life of the counter. */
module GateCounting {
  import opened Geometry
  import opened Crossing
  import TrackerSpec
  import CentroidTracking

  /** One counting category: its counter and the ids it has counted. */
  datatype Tally = Tally(count: nat, counted: set<nat>)

  /** The id counted once more, unless it already was. */
  function Record(t: Tally, id: nat): (t': Tally)
    ensures id in t'.counted
    ensures t.counted <= t'.counted
  {
    if id in t.counted then t else Tally(t.count + 1, t.counted + {id})
  }

  /** The loop over one category's lines for one track's last move: on each
      line the move crosses, the counter goes up and the id is recorded, unless
      the id is recorded already. */
  function CountLines(t: Tally, id: nat, prev: Point, curr: Point, lines: seq<GateLine>): (t': Tally)
    ensures t.counted <= t'.counted <= t.counted + {id}
    ensures t'.count == t.count + |t'.counted - t.counted|
    ensures id in t.counted ==> t' == t
    decreases |lines|
  {
    if lines == [] then t
    else
      var n := |lines| - 1;
      var t0 := CountLines(t, id, prev, curr, lines[..n]);
      if id !in t0.counted && CrossedLine(prev, curr, lines[n].axis, lines[n].coord)
      then Tally(t0.count + 1, t0.counted + {id})
      else t0
  }

  /** However many of the lines the move crosses, the id is counted at most
      once: exactly when it crosses one of them. */
  lemma {:induction false} CountLinesOnce(t: Tally, id: nat, prev: Point, curr: Point, lines: seq<GateLine>)
    ensures CountLines(t, id, prev, curr, lines) == if AnyCrossed(prev, curr, lines) then Record(t, id) else t
    decreases |lines|
  {
    if lines != [] {
      var n := |lines| - 1;
      CountLinesOnce(t, id, prev, curr, lines[..n]);
      var line := lines[n];
      if CrossedLine(prev, curr, line.axis, line.coord) {
        assert AnyCrossed(prev, curr, lines);
      } else {
        AnyCrossedPrefix(prev, curr, lines);
      }
    }
  }

  /** A line the last one does not cross adds nothing to `AnyCrossed`. */
  lemma AnyCrossedPrefix(prev: Point, curr: Point, lines: seq<GateLine>)
    requires |lines| > 0
    requires !CrossedLine(prev, curr, lines[|lines| - 1].axis, lines[|lines| - 1].coord)
    ensures AnyCrossed(prev, curr, lines) == AnyCrossed(prev, curr, lines[..|lines| - 1])
  {
    var n := |lines| - 1;
    if AnyCrossed(prev, curr, lines) {
      var i :| 0 <= i < |lines| && CrossedLine(prev, curr, lines[i].axis, lines[i].coord);
      assert lines[..n][i] == lines[i];
    }
    if AnyCrossed(prev, curr, lines[..n]) {
      var i :| 0 <= i < n && CrossedLine(prev, curr, lines[..n][i].axis, lines[..n][i].coord);
      assert lines[..n][i] == lines[i];
    }
  }

  /** A track's last move crosses one of the lines; a track with fewer than
      two positions has not moved. */
  ghost predicate Moved(history: seq<Point>, lines: seq<GateLine>) {
    |history| >= 2 && AnyCrossed(history[|history| - 2], history[|history| - 1], lines)
  }

  /** The body of the loop over the tracks, for one category. */
  function CountTrack(t: Tally, id: nat, history: seq<Point>, lines: seq<GateLine>): (t': Tally)
    ensures t.counted <= t'.counted <= t.counted + {id}
    ensures |history| < 2 ==> t' == t
  {
    if |history| >= 2 then CountLines(t, id, history[|history| - 2], history[|history| - 1], lines)
    else t
  }

  /** A track is counted exactly when it moved across a line. */
  lemma CountTrackOnce(t: Tally, id: nat, history: seq<Point>, lines: seq<GateLine>)
    ensures CountTrack(t, id, history, lines) == if Moved(history, lines) then Record(t, id) else t
  {
    if |history| >= 2 {
      CountLinesOnce(t, id, history[|history| - 2], history[|history| - 1], lines);
    }
  }

  /** The loop over the tracks in the given order, for one category. */
  function CountTracks(t: Tally, ids: seq<nat>, tracks: map<nat, seq<Point>>, lines: seq<GateLine>): (t': Tally)
    requires forall k :: 0 <= k < |ids| ==> ids[k] in tracks
    ensures t.counted <= t'.counted
    ensures forall x :: x in t'.counted ==> x in t.counted || x in ids
    decreases |ids|
  {
    if ids == [] then t
    else
      var n := |ids| - 1;
      CountTrack(CountTracks(t, ids[..n], tracks, lines), ids[n], tracks[ids[n]], lines)
  }

  /** One turn of the loop over the tracks. */
  lemma CountTracksStep(t: Tally, ids: seq<nat>, tracks: map<nat, seq<Point>>, lines: seq<GateLine>, i: nat)
    requires forall k :: 0 <= k < |ids| ==> ids[k] in tracks
    requires i < |ids|
    ensures forall k :: 0 <= k < i ==> ids[..i][k] in tracks
    ensures CountTracks(t, ids[..i + 1], tracks, lines)
            == CountTrack(CountTracks(t, ids[..i], tracks, lines), ids[i], tracks[ids[i]], lines)
  {
    assert ids[..i + 1][..i] == ids[..i];
  }

  /** The listed tracks whose last move crosses one of the lines. */
  ghost function Crossers(ids: seq<nat>, tracks: map<nat, seq<Point>>, lines: seq<GateLine>): set<nat>
    requires forall k :: 0 <= k < |ids| ==> ids[k] in tracks
    decreases |ids|
  {
    if ids == [] then {}
    else
      var n := |ids| - 1;
      Crossers(ids[..n], tracks, lines) + (if Moved(tracks[ids[n]], lines) then {ids[n]} else {})
  }

  /** The crossers are exactly the listed tracks that moved across a line. */
  lemma {:induction false} CrossersMembers(ids: seq<nat>, tracks: map<nat, seq<Point>>, lines: seq<GateLine>, x: nat)
    requires forall k :: 0 <= k < |ids| ==> ids[k] in tracks
    ensures x in Crossers(ids, tracks, lines) <==> x in ids && x in tracks && Moved(tracks[x], lines)
    decreases |ids|
  {
    if ids != [] {
      var n := |ids| - 1;
      CrossersMembers(ids[..n], tracks, lines, x);
      assert ids == ids[..n] + [ids[n]];
    }
  }

  /** After the loop the category has recorded every crosser, and its counter
      went up by the number of crossers it had not recorded before. */
  lemma {:induction false} CountTracksEffect(t: Tally, ids: seq<nat>, tracks: map<nat, seq<Point>>, lines: seq<GateLine>)
    requires forall k :: 0 <= k < |ids| ==> ids[k] in tracks
    ensures var t' := CountTracks(t, ids, tracks, lines);
            var c := Crossers(ids, tracks, lines);
            && t'.counted == t.counted + c
            && t'.count == t.count + |c - t.counted|
    decreases |ids|
  {
    if ids != [] {
      var n := |ids| - 1;
      var id := ids[n];
      CountTracksEffect(t, ids[..n], tracks, lines);
      var t0 := CountTracks(t, ids[..n], tracks, lines);
      CountTrackOnce(t0, id, tracks[id], lines);
      if Moved(tracks[id], lines) {
        RecordEffect(t, t0, Crossers(ids[..n], tracks, lines), id);
      }
    }
  }

  /** Recording one more crosser keeps the relation of `CountTracksEffect`. */
  lemma RecordEffect(t: Tally, t0: Tally, c0: set<nat>, id: nat)
    requires t0.counted == t.counted + c0 && t0.count == t.count + |c0 - t.counted|
    ensures Record(t0, id).counted == t.counted + (c0 + {id})
    ensures Record(t0, id).count == t.count + |(c0 + {id}) - t.counted|
  {
    if id !in t0.counted {
      assert (c0 + {id}) - t.counted == (c0 - t.counted) + {id};
    } else {
      assert (c0 + {id}) - t.counted == c0 - t.counted;
    }
  }

  /** A counter that equals the size of its id set still does after the loop. */
  lemma CountTracksConsistent(t: Tally, ids: seq<nat>, tracks: map<nat, seq<Point>>, lines: seq<GateLine>)
    requires forall k :: 0 <= k < |ids| ==> ids[k] in tracks
    requires t.count == |t.counted|
    ensures var t' := CountTracks(t, ids, tracks, lines);
            t'.count == |t'.counted| && t.counted <= t'.counted && t.count <= t'.count
  {
    CountTracksEffect(t, ids, tracks, lines);
    var c := Crossers(ids, tracks, lines);
    assert t.counted + c == t.counted + (c - t.counted);
    assert t.counted * (c - t.counted) == {};
  }

  /** An id already recorded is never counted again in that category. */
  lemma CountedStays(t: Tally, id: nat, history: seq<Point>, lines: seq<GateLine>)
    requires id in t.counted
    ensures CountTrack(t, id, history, lines) == t
  {
    CountTrackOnce(t, id, history, lines);
  }

  /** Evaluating the same tracks a second time counts nothing more. */
  lemma CountTracksIdempotent(t: Tally, ids: seq<nat>, tracks: map<nat, seq<Point>>, lines: seq<GateLine>)
    requires forall k :: 0 <= k < |ids| ==> ids[k] in tracks
    ensures var t' := CountTracks(t, ids, tracks, lines);
            CountTracks(t', ids, tracks, lines) == t'
  {
    var t' := CountTracks(t, ids, tracks, lines);
    CountTracksEffect(t, ids, tracks, lines);
    CountTracksEffect(t', ids, tracks, lines);
    var c := Crossers(ids, tracks, lines);
    assert c - t'.counted == {};
  }

  /** The two counters and the two counted-id sets of the counting step. */
  class GateCounter {
    var entryCount: nat
    var exitCount: nat
    var countedEntries: set<nat>
    var countedExits: set<nat>

    /** The entry category. */
    function Entries(): Tally
      reads this
    {
      Tally(entryCount, countedEntries)
    }

    /** The exit category. */
    function Exits(): Tally
      reads this
    {
      Tally(exitCount, countedExits)
    }

    /** Nothing counted yet. */
    constructor ()
      ensures Entries() == Tally(0, {}) && Exits() == Tally(0, {})
    {
      entryCount, exitCount := 0, 0;
      countedEntries, countedExits := {}, {};
    }

    /** The loop over the entry lines for one track's last move. */
    method CountEntries(objectId: nat, prevPos: Point, currPos: Point, lines: seq<GateLine>)
      modifies this
      ensures Entries() == CountLines(old(Entries()), objectId, prevPos, currPos, lines)
      ensures Exits() == old(Exits())
    {
      ghost var e0 := Entries();
      for j := 0 to |lines|
        invariant Entries() == CountLines(e0, objectId, prevPos, currPos, lines[..j])
        invariant Exits() == old(Exits())
      {
        assert lines[..j + 1][..j] == lines[..j];
        var line := lines[j];
        if objectId !in countedEntries && CrossedLine(prevPos, currPos, line.axis, line.coord) {
          entryCount := entryCount + 1;
          countedEntries := countedEntries + {objectId};
        }
      }
      assert lines[..|lines|] == lines;
    }

    /** The loop over the exit lines for one track's last move. */
    method CountExits(objectId: nat, prevPos: Point, currPos: Point, lines: seq<GateLine>)
      modifies this
      ensures Exits() == CountLines(old(Exits()), objectId, prevPos, currPos, lines)
      ensures Entries() == old(Entries())
    {
      ghost var x0 := Exits();
      for j := 0 to |lines|
        invariant Exits() == CountLines(x0, objectId, prevPos, currPos, lines[..j])
        invariant Entries() == old(Entries())
      {
        assert lines[..j + 1][..j] == lines[..j];
        var line := lines[j];
        if objectId !in countedExits && CrossedLine(prevPos, currPos, line.axis, line.coord) {
          exitCount := exitCount + 1;
          countedExits := countedExits + {objectId};
        }
      }
      assert lines[..|lines|] == lines;
    }

    /** The counting step over the tracker's histories, in key order: each
        category moves on by its own lines only. */
    method Evaluate(tracker: CentroidTracking.CentroidTracker, entryLines: seq<GateLine>, exitLines: seq<GateLine>)
      requires tracker.Valid()
      modifies this
      ensures var ids := TrackerSpec.ObjectIds(tracker.State());
              && (forall k :: 0 <= k < |ids| ==> ids[k] in tracker.trackHistory)
              && Entries() == CountTracks(old(Entries()), ids, tracker.trackHistory, entryLines)
              && Exits() == CountTracks(old(Exits()), ids, tracker.trackHistory, exitLines)
    {
      var ids := TrackerSpec.ObjectIds(tracker.State());
      var tracks := tracker.trackHistory;
      ghost var e0, x0 := Entries(), Exits();
      for i := 0 to |ids|
        invariant Entries() == CountTracks(e0, ids[..i], tracks, entryLines)
        invariant Exits() == CountTracks(x0, ids[..i], tracks, exitLines)
      {
        CountTracksStep(e0, ids, tracks, entryLines, i);
        CountTracksStep(x0, ids, tracks, exitLines, i);
        var objectId, history := ids[i], tracks[ids[i]];
        if |history| >= 2 {
          var prevPos, currPos := history[|history| - 2], history[|history| - 1];
          CountEntries(objectId, prevPos, currPos, entryLines);
          CountExits(objectId, prevPos, currPos, exitLines);
        }
      }
      assert ids[..|ids|] == ids;
    }
  }
}
