/** The bookkeeping state of the centroid tracker, as a value, and the
    single-track operations on it: register, deregister, age. */
module TrackRegistry {
  import opened Geometry

  /** The tracker's state: the id counter and the tracker's three ordered
      dictionaries, keyed by track id. Their key order is insertion order, which
      is ascending id order because ids are handed out in increasing order and
      re-assigning an existing key keeps its position. */
  datatype Registry = Registry(
    nextObjectId: nat,
    objects: map<nat, Point>,
    disappeared: map<nat, nat>,
    trackHistory: map<nat, seq<Point>>)

  /** The registry invariant: one key set for the three dictionaries and every
      key below the next id. */
  ghost predicate Valid(r: Registry) {
    && r.disappeared.Keys == r.objects.Keys
    && r.trackHistory.Keys == r.objects.Keys
    && (forall id :: id in r.objects ==> id < r.nextObjectId)
  }

  /** The history invariant: every track's history is non-empty and ends at the
      track's current centroid. */
  ghost predicate HistoriesEnd(r: Registry)
    requires Valid(r)
  {
    forall id :: id in r.trackHistory ==>
      |r.trackHistory[id]| > 0 && Last(r.trackHistory[id]) == r.objects[id]
  }

  /** A freshly constructed tracker. */
  function Initial(): (r: Registry)
    ensures Valid(r) && HistoriesEnd(r) && r.objects == map[] && r.nextObjectId == 0
  {
    Registry(0, map[], map[], map[])
  }

  /** Track `id` has the same three entries in both registries. */
  ghost predicate SameTrack(r: Registry, r': Registry, id: nat)
    requires id in r.objects && id in r.disappeared && id in r.trackHistory
  {
    && id in r'.objects && id in r'.disappeared && id in r'.trackHistory
    && r'.objects[id] == r.objects[id]
    && r'.disappeared[id] == r.disappeared[id]
    && r'.trackHistory[id] == r.trackHistory[id]
  }

  /** `register`: a new track under the next id (which is not in use), then the
      id counter moves on. */
  function Register(r: Registry, c: Point): (r': Registry)
    requires Valid(r)
    ensures Valid(r')
    ensures r.nextObjectId !in r.objects
    ensures r'.nextObjectId == r.nextObjectId + 1
    ensures r'.objects.Keys == r.objects.Keys + {r.nextObjectId}
  {
    var id := r.nextObjectId;
    Registry(id + 1, r.objects[id := c], r.disappeared[id := 0], r.trackHistory[id := [c]])
  }

  /** The new track holds `c`, has disappeared count 0 and history `[c]`; no
      existing track changes. */
  lemma RegisterEffect(r: Registry, c: Point)
    requires Valid(r)
    ensures var r' := Register(r, c);
            && r'.objects[r.nextObjectId] == c
            && r'.disappeared[r.nextObjectId] == 0
            && r'.trackHistory[r.nextObjectId] == [c]
            && forall id :: id in r.objects ==> SameTrack(r, r', id)
  {
  }

  /** Pointwise form of the last clause. */
  lemma RegisterKeeps(r: Registry, c: Point, id: nat)
    requires Valid(r) && id in r.objects
    ensures SameTrack(r, Register(r, c), id)
  {
  }

  /** `deregister`: the three entries of `id` are deleted. */
  function Deregister(r: Registry, id: nat): (r': Registry)
    requires Valid(r) && id in r.objects
    ensures Valid(r')
    ensures r'.nextObjectId == r.nextObjectId
    ensures r'.objects.Keys == r.objects.Keys - {id}
  {
    Registry(r.nextObjectId, r.objects - {id}, r.disappeared - {id}, r.trackHistory - {id})
  }

  /** Nothing but the entries of `id` changes. */
  lemma DeregisterEffect(r: Registry, id: nat)
    requires Valid(r) && id in r.objects
    ensures var r' := Deregister(r, id);
            forall k :: k in r.objects && k != id ==> SameTrack(r, r', k)
  {
  }

  /** One missed frame for track `id`: the track stays exactly when its new
      disappeared count does not exceed `maxDisappeared`. */
  function Age(r: Registry, id: nat, maxDisappeared: int): (r': Registry)
    requires Valid(r) && id in r.objects
    ensures Valid(r')
    ensures r'.nextObjectId == r.nextObjectId
    ensures r'.objects.Keys == if r.disappeared[id] + 1 <= maxDisappeared then r.objects.Keys
                               else r.objects.Keys - {id}
  {
    var count := r.disappeared[id] + 1;
    var r1 := r.(disappeared := r.disappeared[id := count]);
    if count > maxDisappeared then Deregister(r1, id) else r1
  }

  /** A surviving track's count went up by exactly one and it keeps its centroid
      and history; the other tracks do not change. */
  lemma AgeEffect(r: Registry, id: nat, maxDisappeared: int)
    requires Valid(r) && id in r.objects
    ensures var r' := Age(r, id, maxDisappeared);
            && (id in r'.objects ==>
                  && r'.disappeared[id] == r.disappeared[id] + 1
                  && r'.objects[id] == r.objects[id]
                  && r'.trackHistory[id] == r.trackHistory[id])
            && forall k :: k in r.objects && k != id ==> SameTrack(r, r', k)
  {
    var r1 := r.(disappeared := r.disappeared[id := r.disappeared[id] + 1]);
    if r.disappeared[id] + 1 > maxDisappeared {
      DeregisterEffect(r1, id);
    }
  }

  /** Pointwise form of the last clause. */
  lemma AgeKeeps(r: Registry, id: nat, maxDisappeared: int, k: nat)
    requires Valid(r) && id in r.objects && k in r.objects && k != id
    ensures SameTrack(r, Age(r, id, maxDisappeared), k)
  {
    AgeEffect(r, id, maxDisappeared);
  }

  ghost predicate Distinct<T>(s: seq<T>) {
    forall i, j :: 0 <= i < j < |s| ==> s[i] != s[j]
  }

  lemma DistinctLast<T>(s: seq<T>)
    requires Distinct(s) && |s| > 0
    ensures Distinct(s[..|s| - 1]) && s[|s| - 1] !in s[..|s| - 1]
  {
    var n := |s| - 1;
    forall k | 0 <= k < n ensures s[..n][k] != s[n] {
      assert s[..n][k] == s[k];
    }
  }

  /** `register` applied to each centroid in turn. */
  function RegisterAll(r: Registry, cs: seq<Point>): (r': Registry)
    requires Valid(r)
    ensures Valid(r')
    ensures r'.nextObjectId == r.nextObjectId + |cs|
    decreases |cs|
  {
    if cs == [] then r
    else
      var n := |cs| - 1;
      Register(RegisterAll(r, cs[..n]), cs[n])
  }

  /** `Age` applied to each listed track in turn. */
  function AgeAll(r: Registry, ids: seq<nat>, maxDisappeared: int): (r': Registry)
    requires Valid(r) && Distinct(ids)
    requires forall k :: 0 <= k < |ids| ==> ids[k] in r.objects
    ensures Valid(r')
    ensures r'.nextObjectId == r.nextObjectId
    ensures r'.objects.Keys <= r.objects.Keys
    ensures forall id {:trigger id in r'.objects} :: id in r.objects && id !in ids ==> id in r'.objects
    decreases |ids|
  {
    if ids == [] then r
    else
      var n := |ids| - 1;
      DistinctLast(ids);
      Age(AgeAll(r, ids[..n], maxDisappeared), ids[n], maxDisappeared)
  }

  /** One turn of the aging loop: the next listed track is still there, and
      aging it extends the aged prefix by one. */
  lemma AgeAllStep(r: Registry, ids: seq<nat>, maxDisappeared: int, i: nat)
    requires Valid(r) && Distinct(ids)
    requires forall k :: 0 <= k < |ids| ==> ids[k] in r.objects
    requires i < |ids|
    ensures Distinct(ids[..i]) && Distinct(ids[..i + 1])
    ensures forall k :: 0 <= k < i ==> ids[..i][k] in r.objects
    ensures ids[i] in AgeAll(r, ids[..i], maxDisappeared).objects
    ensures AgeAll(r, ids[..i + 1], maxDisappeared) == Age(AgeAll(r, ids[..i], maxDisappeared), ids[i], maxDisappeared)
  {
    assert ids[..i + 1][..i] == ids[..i];
    assert ids[i] !in ids[..i];
  }

  /** Registering a sequence of centroids creates exactly the tracks with the
      consecutive ids that start at the old next id... */
  lemma {:induction false} RegisterAllKeys(r: Registry, cs: seq<Point>)
    requires Valid(r)
    ensures var r' := RegisterAll(r, cs);
            forall id :: id in r'.objects <==> id in r.objects || r.nextObjectId <= id < r'.nextObjectId
    decreases |cs|
  {
    if cs != [] {
      var n := |cs| - 1;
      RegisterAllKeys(r, cs[..n]);
      var r0 := RegisterAll(r, cs[..n]);
      var r' := Register(r0, cs[n]);
      forall id: nat ensures id in r'.objects <==> id in r.objects || r.nextObjectId <= id < r'.nextObjectId {
        assert id in r'.objects <==> id in r0.objects || id == r0.nextObjectId;
      }
    }
  }

  /** Track `id` was just registered with centroid `c`. */
  ghost predicate FreshTrack(r: Registry, id: nat, c: Point) {
    && id in r.objects && id in r.disappeared && id in r.trackHistory
    && r.objects[id] == c && r.disappeared[id] == 0 && r.trackHistory[id] == [c]
  }

  /** ...the i-th of them holding the i-th centroid, disappeared count 0 and a
      one-point history... */
  lemma {:induction false} RegisterAllTrack(r: Registry, cs: seq<Point>, i: nat)
    requires Valid(r) && i < |cs|
    ensures r.nextObjectId + i !in r.objects
    ensures FreshTrack(RegisterAll(r, cs), r.nextObjectId + i, cs[i])
    decreases |cs|
  {
    var n := |cs| - 1;
    var r0 := RegisterAll(r, cs[..n]);
    var r' := Register(r0, cs[n]);
    assert r' == RegisterAll(r, cs);
    if i < n {
      RegisterAllTrack(r, cs[..n], i);
      assert cs[..n][i] == cs[i];
      assert FreshTrack(r0, r.nextObjectId + i, cs[i]);
      RegisterKeeps(r0, cs[n], r.nextObjectId + i);
    } else {
      RegisterEffect(r0, cs[n]);
    }
  }

  lemma RegisterAllNew(r: Registry, cs: seq<Point>)
    requires Valid(r)
    ensures forall i :: 0 <= i < |cs| ==>
              r.nextObjectId + i !in r.objects && FreshTrack(RegisterAll(r, cs), r.nextObjectId + i, cs[i])
  {
    forall i | 0 <= i < |cs|
      ensures r.nextObjectId + i !in r.objects && FreshTrack(RegisterAll(r, cs), r.nextObjectId + i, cs[i])
    {
      RegisterAllTrack(r, cs, i);
    }
  }

  /** ...and leaves every existing track as it was. */
  lemma {:induction false} RegisterAllKeeps(r: Registry, cs: seq<Point>)
    requires Valid(r)
    ensures var r' := RegisterAll(r, cs);
            forall id :: id in r.objects ==> SameTrack(r, r', id)
    decreases |cs|
  {
    if cs != [] {
      var n := |cs| - 1;
      RegisterAllKeeps(r, cs[..n]);
      var r0 := RegisterAll(r, cs[..n]);
      RegisterEffect(r0, cs[n]);
      var r' := Register(r0, cs[n]);
      assert r' == RegisterAll(r, cs);
      forall id | id in r.objects ensures SameTrack(r, r', id) {
        assert SameTrack(r, r0, id);
        assert SameTrack(r0, r', id);
      }
    }
  }

  /** Aging leaves the tracks that are not listed as they were... */
  lemma {:induction false} AgeAllKeeps(r: Registry, ids: seq<nat>, maxDisappeared: int)
    requires Valid(r) && Distinct(ids)
    requires forall k :: 0 <= k < |ids| ==> ids[k] in r.objects
    ensures var r' := AgeAll(r, ids, maxDisappeared);
            forall id :: id in r.objects && id !in ids ==> SameTrack(r, r', id)
    decreases |ids|
  {
    if ids != [] {
      var n := |ids| - 1;
      DistinctLast(ids);
      AgeAllKeeps(r, ids[..n], maxDisappeared);
      var r0 := AgeAll(r, ids[..n], maxDisappeared);
      AgeEffect(r0, ids[n], maxDisappeared);
      var r' := Age(r0, ids[n], maxDisappeared);
      assert r' == AgeAll(r, ids, maxDisappeared);
      forall id | id in r.objects && id !in ids ensures SameTrack(r, r', id) {
        assert id !in ids[..n];
        assert SameTrack(r, r0, id);
        assert SameTrack(r0, r', id);
      }
    }
  }

  /** Track `id` of `r` missed one frame and survived it in `r'`. */
  ghost predicate AgedTrack(r: Registry, r': Registry, id: nat)
    requires id in r.objects && id in r.disappeared && id in r.trackHistory
  {
    && id in r'.objects && id in r'.disappeared && id in r'.trackHistory
    && r'.disappeared[id] == r.disappeared[id] + 1
    && r'.objects[id] == r.objects[id]
    && r'.trackHistory[id] == r.trackHistory[id]
  }

  /** A track aged in `r0` and left alone by the next step is still aged. */
  lemma AgedThenSame(r: Registry, r0: Registry, r': Registry, id: nat)
    requires id in r.objects && id in r.disappeared && id in r.trackHistory
    requires id in r0.objects && id in r0.disappeared && id in r0.trackHistory
    requires AgedTrack(r, r0, id) && SameTrack(r0, r', id)
    ensures AgedTrack(r, r', id)
  {
  }

  /** Aging another track keeps what is known about track `id`. */
  lemma AgeOther(r: Registry, r0: Registry, other: nat, maxDisappeared: int, id: nat)
    requires Valid(r) && Valid(r0) && id in r.objects && other in r0.objects && other != id
    requires id in r0.objects <==> r.disappeared[id] + 1 <= maxDisappeared
    requires id in r0.objects ==> AgedTrack(r, r0, id)
    ensures var r' := Age(r0, other, maxDisappeared);
            && (id in r'.objects <==> r.disappeared[id] + 1 <= maxDisappeared)
            && (id in r'.objects ==> AgedTrack(r, r', id))
  {
    if id in r0.objects {
      AgeKeeps(r0, other, maxDisappeared, id);
    }
  }

  /** Aging an untouched track makes it aged, or removes it. */
  lemma AgeFirst(r: Registry, r0: Registry, maxDisappeared: int, id: nat)
    requires Valid(r) && Valid(r0) && id in r.objects && SameTrack(r, r0, id)
    ensures var r' := Age(r0, id, maxDisappeared);
            && (id in r'.objects <==> r.disappeared[id] + 1 <= maxDisappeared)
            && (id in r'.objects ==> AgedTrack(r, r', id))
  {
    AgeEffect(r0, id, maxDisappeared);
  }

  /** ...and treats the k-th listed track as one missed frame would... */
  lemma {:induction false} AgeAllTrack(r: Registry, ids: seq<nat>, maxDisappeared: int, k: nat)
    requires Valid(r) && Distinct(ids)
    requires forall j :: 0 <= j < |ids| ==> ids[j] in r.objects
    requires k < |ids|
    ensures var r' := AgeAll(r, ids, maxDisappeared);
            && (ids[k] in r'.objects <==> r.disappeared[ids[k]] + 1 <= maxDisappeared)
            && (ids[k] in r'.objects ==> AgedTrack(r, r', ids[k]))
    decreases |ids|, 1
  {
    if k < |ids| - 1 {
      AgeAllTrackEarlier(r, ids, maxDisappeared, k);
    } else {
      AgeAllTrackLast(r, ids, maxDisappeared);
    }
  }

  /** The case of a track that is not the last one listed. */
  lemma {:induction false} AgeAllTrackEarlier(r: Registry, ids: seq<nat>, maxDisappeared: int, k: nat)
    requires Valid(r) && Distinct(ids)
    requires forall j :: 0 <= j < |ids| ==> ids[j] in r.objects
    requires k < |ids| - 1
    ensures var r' := AgeAll(r, ids, maxDisappeared);
            && (ids[k] in r'.objects <==> r.disappeared[ids[k]] + 1 <= maxDisappeared)
            && (ids[k] in r'.objects ==> AgedTrack(r, r', ids[k]))
    decreases |ids|, 0
  {
    var n := |ids| - 1;
    DistinctLast(ids);
    var r0 := AgeAll(r, ids[..n], maxDisappeared);
    assert Age(r0, ids[n], maxDisappeared) == AgeAll(r, ids, maxDisappeared);
    AgeAllTrack(r, ids[..n], maxDisappeared, k);
    assert ids[..n][k] == ids[k];
    AgeOther(r, r0, ids[n], maxDisappeared, ids[k]);
  }

  /** The case of the last listed track. */
  lemma {:induction false} AgeAllTrackLast(r: Registry, ids: seq<nat>, maxDisappeared: int)
    requires Valid(r) && Distinct(ids) && |ids| > 0
    requires forall j :: 0 <= j < |ids| ==> ids[j] in r.objects
    ensures var r' := AgeAll(r, ids, maxDisappeared);
            var id := ids[|ids| - 1];
            && (id in r'.objects <==> r.disappeared[id] + 1 <= maxDisappeared)
            && (id in r'.objects ==> AgedTrack(r, r', id))
  {
    var n := |ids| - 1;
    DistinctLast(ids);
    var r0 := AgeAll(r, ids[..n], maxDisappeared);
    assert Age(r0, ids[n], maxDisappeared) == AgeAll(r, ids, maxDisappeared);
    AgeAllKeeps(r, ids[..n], maxDisappeared);
    AgeFirst(r, r0, maxDisappeared, ids[n]);
  }

  /** ...so every listed track's disappeared count rises by exactly one, the
      track is deregistered exactly when the new count exceeds `maxDisappeared`,
      and a surviving track keeps its centroid and history. */
  lemma AgeAllEffect(r: Registry, ids: seq<nat>, maxDisappeared: int)
    requires Valid(r) && Distinct(ids)
    requires forall k :: 0 <= k < |ids| ==> ids[k] in r.objects
    ensures var r' := AgeAll(r, ids, maxDisappeared);
            forall k :: 0 <= k < |ids| ==>
              && (ids[k] in r'.objects <==> r.disappeared[ids[k]] + 1 <= maxDisappeared)
              && (ids[k] in r'.objects ==> AgedTrack(r, r', ids[k]))
  {
    forall k | 0 <= k < |ids|
      ensures var r' := AgeAll(r, ids, maxDisappeared);
              && (ids[k] in r'.objects <==> r.disappeared[ids[k]] + 1 <= maxDisappeared)
              && (ids[k] in r'.objects ==> AgedTrack(r, r', ids[k]))
    {
      AgeAllTrack(r, ids, maxDisappeared, k);
    }
  }

  /** Registering keeps every history ending at its track's centroid. */
  lemma RegisterHistories(r: Registry, c: Point)
    requires Valid(r) && HistoriesEnd(r)
    ensures HistoriesEnd(Register(r, c))
  {
    var r' := Register(r, c);
    forall id | id in r'.trackHistory
      ensures |r'.trackHistory[id]| > 0 && Last(r'.trackHistory[id]) == r'.objects[id]
    {
      if id != r.nextObjectId {
        assert r'.trackHistory[id] == r.trackHistory[id];
      }
    }
  }

  /** Changing a disappeared count leaves the histories alone. */
  lemma CountHistories(r: Registry, id: nat, count: nat)
    requires Valid(r) && HistoriesEnd(r) && id in r.objects
    ensures Valid(r.(disappeared := r.disappeared[id := count]))
    ensures HistoriesEnd(r.(disappeared := r.disappeared[id := count]))
  {
  }

  /** So does aging. */
  lemma AgeHistories(r: Registry, id: nat, maxDisappeared: int)
    requires Valid(r) && HistoriesEnd(r) && id in r.objects
    ensures HistoriesEnd(Age(r, id, maxDisappeared))
  {
    AgeEffect(r, id, maxDisappeared);
  }

  lemma {:induction false} RegisterAllHistories(r: Registry, cs: seq<Point>)
    requires Valid(r) && HistoriesEnd(r)
    ensures HistoriesEnd(RegisterAll(r, cs))
    decreases |cs|
  {
    if cs != [] {
      var n := |cs| - 1;
      RegisterAllHistories(r, cs[..n]);
      RegisterHistories(RegisterAll(r, cs[..n]), cs[n]);
    }
  }

  lemma {:induction false} AgeAllHistories(r: Registry, ids: seq<nat>, maxDisappeared: int)
    requires Valid(r) && HistoriesEnd(r) && Distinct(ids)
    requires forall k :: 0 <= k < |ids| ==> ids[k] in r.objects
    ensures HistoriesEnd(AgeAll(r, ids, maxDisappeared))
    decreases |ids|
  {
    if ids != [] {
      var n := |ids| - 1;
      DistinctLast(ids);
      AgeAllHistories(r, ids[..n], maxDisappeared);
      AgeHistories(AgeAll(r, ids[..n], maxDisappeared), ids[n], maxDisappeared);
    }
  }
}
