/** The centroid tracker as an object: its id counter and its three dictionaries
    are fields that `register`, `deregister` and `update` change in place. Each
    method is proved to leave the fields equal to the matching function of
    `TrackerSpec`/`TrackRegistry` applied to the old fields. */
module CentroidTracking {
  import opened Geometry
  import TrackRegistry
  import TrackerSpec

  class CentroidTracker {
    var nextObjectId: nat
    var objects: map<nat, Point>
    var disappeared: map<nat, nat>
    var trackHistory: map<nat, seq<Point>>
    const maxDisappeared: int

    /** The fields as a registry value. */
    function State(): TrackRegistry.Registry
      reads this
    {
      TrackRegistry.Registry(nextObjectId, objects, disappeared, trackHistory)
    }

    /** The registry invariant and the history invariant hold of the fields. */
    ghost predicate Valid()
      reads this
    {
      TrackRegistry.Valid(State()) && TrackRegistry.HistoriesEnd(State())
    }

    /** `__init__`: no tracks, next id 0. */
    constructor (maxDisappeared: int)
      ensures Valid()
      ensures State() == TrackRegistry.Initial()
      ensures this.maxDisappeared == maxDisappeared
    {
      nextObjectId := 0;
      objects := map[];
      disappeared := map[];
      trackHistory := map[];
      this.maxDisappeared := maxDisappeared;
    }

    /** `register`. */
    method Register(centroid: Point)
      requires Valid()
      modifies this
      ensures Valid()
      ensures State() == TrackRegistry.Register(old(State()), centroid)
    {
      ghost var s0 := State();
      objects := objects[nextObjectId := centroid];
      disappeared := disappeared[nextObjectId := 0];
      trackHistory := trackHistory[nextObjectId := [centroid]];
      nextObjectId := nextObjectId + 1;
      TrackRegistry.RegisterHistories(s0, centroid);
    }

    /** `deregister`. */
    method Deregister(objectId: nat)
      requires Valid() && objectId in objects
      modifies this
      ensures Valid()
      ensures State() == TrackRegistry.Deregister(old(State()), objectId)
    {
      objects := objects - {objectId};
      disappeared := disappeared - {objectId};
      trackHistory := trackHistory - {objectId};
    }

    /** The body shared by the two aging loops of `update`: the count goes up,
        and the track is deregistered once the count exceeds the limit. */
    method MissFrame(objectId: nat)
      requires Valid() && objectId in objects
      modifies this
      ensures Valid()
      ensures State() == TrackRegistry.Age(old(State()), objectId, maxDisappeared)
    {
      TrackRegistry.CountHistories(State(), objectId, disappeared[objectId] + 1);
      disappeared := disappeared[objectId := disappeared[objectId] + 1];
      if disappeared[objectId] > maxDisappeared {
        Deregister(objectId);
      }
    }

    /** `update`: returns the tracks after the frame, and the fields are those
        `TrackerSpec.Update` gives for the old fields and the inputs. */
    method Update(inputCentroids: seq<Point>) returns (tracks: map<nat, Point>)
      requires Valid()
      modifies this
      ensures Valid()
      ensures State() == TrackerSpec.Update(old(State()), inputCentroids, maxDisappeared)
      ensures tracks == objects
    {
      if |objects| == 0 {
        RegisterEach(inputCentroids);
        return objects;
      }

      var objectIds := TrackerSpec.ObjectIds(State());
      TrackerSpec.IncreasingDistinct(objectIds);
      if |inputCentroids| == 0 {
        AgeEach(objectIds);
        return objects;
      }
      UpdateMatching(objectIds, inputCentroids);
      return objects;
    }

    /** The third branch of `update`, from the matching loop on. */
    method UpdateMatching(objectIds: seq<nat>, inputCentroids: seq<Point>)
      requires Valid() && |inputCentroids| > 0 && objectIds == TrackerSpec.ObjectIds(State())
      modifies this
      ensures Valid()
      ensures State() == TrackerSpec.UpdateMatching(old(State()), inputCentroids, maxDisappeared)
    {
      ghost var s0 := State();
      var rows := TrackerSpec.MatchRows(State(), inputCentroids);
      var cols := TrackerSpec.MatchCols(State(), inputCentroids);
      var usedRows, usedCols := MatchPairs(objectIds, inputCentroids, rows, cols);
      ghost var m := TrackerSpec.Matching(State(), usedRows, usedCols);
      assert m == TrackerSpec.MatchPhase(s0, inputCentroids);

      var unusedRows := TrackerSpec.Unused(|objectIds|, usedRows);
      TrackerSpec.UnusedMembers(|objectIds|, usedRows);
      TrackerSpec.IncreasingDistinct(TrackerSpec.UnmatchedIds(objectIds, usedRows));
      AgeEach(TrackerSpec.Select(objectIds, unusedRows));
      assert State() == TrackerSpec.AgeUnmatched(s0, m, maxDisappeared);

      var unusedCols := TrackerSpec.Unused(|inputCentroids|, usedCols);
      TrackerSpec.UnusedMembers(|inputCentroids|, usedCols);
      RegisterEach(TrackerSpec.Select(inputCentroids, unusedCols));
    }

    /** A loop registering each centroid in turn. */
    method RegisterEach(cs: seq<Point>)
      requires Valid()
      modifies this
      ensures Valid()
      ensures State() == TrackRegistry.RegisterAll(old(State()), cs)
    {
      ghost var s0 := State();
      for i := 0 to |cs|
        invariant Valid()
        invariant State() == TrackRegistry.RegisterAll(s0, cs[..i])
      {
        assert cs[..i + 1][..i] == cs[..i];
        Register(cs[i]);
      }
      assert cs[..|cs|] == cs;
    }

    /** A loop giving each listed track a missed frame. */
    method AgeEach(objectIds: seq<nat>)
      requires Valid() && TrackRegistry.Distinct(objectIds)
      requires forall k :: 0 <= k < |objectIds| ==> objectIds[k] in objects
      modifies this
      ensures Valid()
      ensures State() == TrackRegistry.AgeAll(old(State()), objectIds, maxDisappeared)
    {
      ghost var s0 := State();
      for i := 0 to |objectIds|
        invariant Valid()
        invariant State() == TrackRegistry.AgeAll(s0, objectIds[..i], maxDisappeared)
      {
        TrackRegistry.AgeAllStep(s0, objectIds, maxDisappeared, i);
        MissFrame(objectIds[i]);
      }
      assert objectIds[..|objectIds|] == objectIds;
    }

    /** The body of the matching loop for a pair it takes: the track moves to
        the input, which is appended to its history, and its count is reset. */
    method Assign(objectId: nat, centroid: Point)
      requires Valid() && objectId in objects
      modifies this
      ensures Valid()
      ensures State() == TrackerSpec.Assign(old(State()), objectId, centroid)
    {
      TrackerSpec.AssignEffect(State(), objectId, centroid);
      objects := objects[objectId := centroid];
      trackHistory := trackHistory[objectId := trackHistory[objectId] + [centroid]];
      disappeared := disappeared[objectId := 0];
    }

    /** The matching loop over the pairs `zip(rows, cols)`: a pair whose row or
        column is already used is skipped; otherwise the row's track takes the
        column's input. */
    method MatchPairs(objectIds: seq<nat>, inputCentroids: seq<Point>, rows: seq<nat>, cols: seq<nat>)
      returns (usedRows: set<nat>, usedCols: set<nat>)
      requires Valid() && TrackerSpec.PairsFit(State(), objectIds, inputCentroids, rows, cols)
      modifies this
      ensures Valid()
      ensures TrackerSpec.Matching(State(), usedRows, usedCols)
              == TrackerSpec.Greedy(old(State()), objectIds, inputCentroids, rows, cols)
    {
      ghost var s0 := State();
      usedRows, usedCols := {}, {};
      for k := 0 to |rows|
        invariant Valid()
        invariant TrackerSpec.Matching(State(), usedRows, usedCols)
                  == TrackerSpec.Greedy(s0, objectIds, inputCentroids, rows[..k], cols[..k])
      {
        TrackerSpec.GreedyStep(s0, objectIds, inputCentroids, rows, cols, k);
        var row, col := rows[k], cols[k];
        if !(row in usedRows || col in usedCols) {
          var objectId := objectIds[row];
          Assign(objectId, inputCentroids[col]);
          usedRows := usedRows + {row};
          usedCols := usedCols + {col};
        }
      }
      assert rows[..|rows|] == rows && cols[..|cols|] == cols;
    }
  }
}
