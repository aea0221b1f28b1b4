/**
 * The timeslot overlap index built at the end of the preprocessing step: for every timeslot id,
 * the set of ids whose slots clash with it in time.
 */
module OverlapIndex {
  import opened Text
  import opened Timetable

  type OverlapMap = map<SlotId, set<SlotId>>

  /** Minute `m` lies in the slot's half-open range `[startMin, endMin)`. */
  predicate Covers(s: SlotInfo, m: int)
  {
    s.startMin <= m < s.endMin
  }

  /**
   * Two slots clash in time: both carry a day label, the labels agree ignoring case, and each
   * starts before the other ends. For non-empty ranges that is: some minute lies in both half-open
   * ranges `[startMin, endMin)`. An empty range still clashes with a range around its start.
   */
  predicate SlotsConflict(a: SlotInfo, b: SlotInfo): (r: bool)
    ensures r ==> |a.day| > 0 && Lower(a.day) == Lower(b.day)
    ensures a.startMin < a.endMin && b.startMin < b.endMin ==>
              (r <==> && |a.day| > 0 && |b.day| > 0 && Lower(a.day) == Lower(b.day)
                      && exists m :: Covers(a, m) && Covers(b, m))
  {
    var latest := if a.startMin < b.startMin then b.startMin else a.startMin;
    assert && a.startMin < b.endMin && b.startMin < a.endMin && a.startMin < a.endMin && b.startMin < b.endMin
           ==> Covers(a, latest) && Covers(b, latest);
    |a.day| > 0 && |b.day| > 0 && Lower(a.day) == Lower(b.day)
    && a.startMin < b.endMin && b.startMin < a.endMin
  }

  /** `overlap_map.get(u, set())`: the slots that clash with `u`, or none for an unknown id. */
  function OverlapOf(overlap: OverlapMap, u: SlotId): set<SlotId>
  {
    if u in overlap then overlap[u] else {}
  }

  /** Clashing is mutual: `b` is listed under `a` exactly when `a` is listed under `b`. */
  ghost predicate Symmetric(overlap: OverlapMap)
  {
    forall a, b :: b in OverlapOf(overlap, a) <==> a in OverlapOf(overlap, b)
  }

  /** The id `a` occurs at least twice in the timeslot list. */
  ghost predicate Repeated(ts: seq<SlotId>, a: SlotId)
  {
    exists p, q :: 0 <= p < q < |ts| && ts[p] == a && ts[q] == a
  }

  /** The pair of list positions `p < q` holds the ids `a` and `b`, in either order. */
  ghost predicate PairAt(ts: seq<SlotId>, p: int, q: int, a: SlotId, b: SlotId)
  {
    0 <= p < q < |ts| && ((ts[p] == a && ts[q] == b) || (ts[p] == b && ts[q] == a))
  }

  /** Some pair with its first position below `i` holds `a` and `b`. */
  ghost predicate PairBefore(ts: seq<SlotId>, i: int, a: SlotId, b: SlotId)
  {
    exists p, q :: p < i && PairAt(ts, p, q, a, b)
  }

  /** Some pair `(i, q)` with `q < j` holds `a` and `b`. */
  ghost predicate PairInRow(ts: seq<SlotId>, i: int, j: int, a: SlotId, b: SlotId)
  {
    exists q :: q < j && PairAt(ts, i, q, a, b)
  }

  /**
   * `m` records the clashes among the pairs of positions visited so far: every pair whose first
   * position is below `i`, and the pairs `(i, q)` with `q < j`.
   */
  ghost predicate IndexedUpTo(ts: seq<SlotId>, info: map<SlotId, SlotInfo>, m: OverlapMap, i: int, j: int)
  {
    && m.Keys == (set t | t in ts)
    && forall a, b {:trigger b in m[a]} :: a in m ==>
         (b in m[a] <==> (PairBefore(ts, i, a, b) || PairInRow(ts, i, j, a, b))
                         && a in info && b in info && SlotsConflict(info[a], info[b]))
  }

  /**
   * The finished index: the keys are the listed ids, and `b` is listed under `a` exactly when `b`
   * is a listed id, the two are different list entries (different ids, or the same id listed
   * twice), and their slots clash.
   */
  ghost predicate IsOverlapIndex(ts: seq<SlotId>, info: map<SlotId, SlotInfo>, overlap: OverlapMap)
    requires forall t :: t in ts ==> t in info
  {
    && overlap.Keys == (set t | t in ts)
    && forall a, b :: a in overlap ==>
         (b in overlap[a] <==> b in ts && (a != b || Repeated(ts, a)) && SlotsConflict(info[a], info[b]))
  }

  lemma RowExtends(ts: seq<SlotId>, i: int, j: int, a: SlotId, b: SlotId)
    requires 0 <= i < j < |ts|
    ensures PairInRow(ts, i, j + 1, a, b) <==> PairInRow(ts, i, j, a, b) || PairAt(ts, i, j, a, b)
  {
  }

  lemma RowCompletes(ts: seq<SlotId>, i: int, a: SlotId, b: SlotId)
    requires 0 <= i < |ts|
    ensures PairBefore(ts, i + 1, a, b) <==> PairBefore(ts, i, a, b) || PairInRow(ts, i, |ts|, a, b)
  {
  }

  /** Once every row is visited, the pairs seen are the pairs of distinct list entries. */
  lemma {:induction false} AllPairs(ts: seq<SlotId>, a: SlotId, b: SlotId)
    ensures PairBefore(ts, |ts|, a, b) <==> a in ts && b in ts && (a != b || Repeated(ts, a))
  {
    if PairBefore(ts, |ts|, a, b) {
      var p, q :| p < |ts| && PairAt(ts, p, q, a, b);
      assert ts[p] in ts && ts[q] in ts;
      if a == b {
        assert ts[p] == a && ts[q] == a;
      }
    }
    if a in ts && b in ts && (a != b || Repeated(ts, a)) {
      if a == b {
        var p, q :| 0 <= p < q < |ts| && ts[p] == a && ts[q] == a;
        assert PairAt(ts, p, q, a, b);
      } else {
        var p :| 0 <= p < |ts| && ts[p] == a;
        var q :| 0 <= q < |ts| && ts[q] == b;
        if p < q {
          assert PairAt(ts, p, q, a, b);
        } else {
          assert PairAt(ts, q, p, a, b);
        }
      }
    }
  }

  /** Records a clash between `a` and `b`: each id is added to the other's set. */
  function Record(m: OverlapMap, a: SlotId, b: SlotId): (r: OverlapMap)
    requires a in m && b in m
    ensures r.Keys == m.Keys
  {
    var m1 := m[a := m[a] + {b}];
    m1[b := m1[b] + {a}]
  }

  /** Visiting the pair `(i, j)` and recording it when the slots clash extends the index by one pair. */
  lemma {:induction false} IndexStep(ts: seq<SlotId>, info: map<SlotId, SlotInfo>, m: OverlapMap, i: int, j: int)
    requires forall t :: t in ts ==> t in info
    requires 0 <= i < j < |ts| && IndexedUpTo(ts, info, m, i, j)
    ensures ts[i] in m && ts[j] in m
    ensures IndexedUpTo(ts, info, if SlotsConflict(info[ts[i]], info[ts[j]]) then Record(m, ts[i], ts[j]) else m, i, j + 1)
  {
    var a, b := ts[i], ts[j];
    assert a in m && b in m;
    var m' := if SlotsConflict(info[a], info[b]) then Record(m, a, b) else m;
    forall x, y | x in m'
      ensures y in m'[x] <==> (PairBefore(ts, i, x, y) || PairInRow(ts, i, j + 1, x, y))
                              && x in info && y in info && SlotsConflict(info[x], info[y])
    {
      RowExtends(ts, i, j, x, y);
      assert PairAt(ts, i, j, x, y) <==> (x == a && y == b) || (x == b && y == a);
    }
  }

  lemma {:induction false} IndexRowDone(ts: seq<SlotId>, info: map<SlotId, SlotInfo>, m: OverlapMap, i: int)
    requires 0 <= i < |ts| && IndexedUpTo(ts, info, m, i, |ts|)
    ensures IndexedUpTo(ts, info, m, i + 1, 0)
  {
  }

  lemma IndexRowStart(ts: seq<SlotId>, info: map<SlotId, SlotInfo>, m: OverlapMap, i: int, j: int)
    requires 0 <= i < |ts| && j == i + 1 && IndexedUpTo(ts, info, m, i, 0)
    ensures IndexedUpTo(ts, info, m, i, j)
  {
  }

  lemma IndexStart(ts: seq<SlotId>, info: map<SlotId, SlotInfo>)
    ensures IndexedUpTo(ts, info, map t | t in ts :: {}, 0, 0)
  {
  }

  lemma {:induction false} IndexDone(ts: seq<SlotId>, info: map<SlotId, SlotInfo>, m: OverlapMap)
    requires forall t :: t in ts ==> t in info
    requires IndexedUpTo(ts, info, m, |ts|, 0)
    ensures IsOverlapIndex(ts, info, m)
  {
    forall x, y ensures PairBefore(ts, |ts|, x, y) <==> x in ts && y in ts && (x != y || Repeated(ts, x)) {
      AllPairs(ts, x, y);
    }
    forall x, y ensures !PairInRow(ts, |ts|, 0, x, y) {
    }
  }

  /**
   * The overlap block of `preprocess`: start every listed id with an empty set, then compare each
   * pair of list positions `i < j` once and, when their slots clash, record each id under the other.
   */
  method BuildOverlap(timeslots: seq<SlotId>, info: map<SlotId, SlotInfo>) returns (overlap: OverlapMap)
    requires forall t :: t in timeslots ==> t in info
    ensures IsOverlapIndex(timeslots, info, overlap)
  {
    overlap := map t | t in timeslots :: {};
    IndexStart(timeslots, info);
    for i := 0 to |timeslots|
      invariant IndexedUpTo(timeslots, info, overlap, i, 0)
    {
      var a := timeslots[i];
      var ai := info[a];
      IndexRowStart(timeslots, info, overlap, i, i + 1);
      for j := i + 1 to |timeslots|
        invariant IndexedUpTo(timeslots, info, overlap, i, j)
      {
        var b := timeslots[j];
        var bi := info[b];
        IndexStep(timeslots, info, overlap, i, j);
        if |ai.day| > 0 && |bi.day| > 0 && Lower(ai.day) == Lower(bi.day) {
          if ai.startMin < bi.endMin && bi.startMin < ai.endMin {
            ghost var before := overlap;
            overlap := overlap[a := overlap[a] + {b}];
            overlap := overlap[b := overlap[b] + {a}];
            assert overlap == Record(before, a, b);
          }
        }
      }
      IndexRowDone(timeslots, info, overlap, i);
    }
    IndexDone(timeslots, info, overlap);
  }

  /** The index is symmetric. */
  lemma IndexSymmetric(ts: seq<SlotId>, info: map<SlotId, SlotInfo>, overlap: OverlapMap)
    requires forall t :: t in ts ==> t in info
    requires IsOverlapIndex(ts, info, overlap)
    ensures Symmetric(overlap)
  {
  }

  /**
   * With distinct ids, two listed slots are in each other's set exactly when they are different
   * slots that clash; in particular no slot is in its own set.
   */
  lemma IndexExact(ts: seq<SlotId>, info: map<SlotId, SlotInfo>, overlap: OverlapMap)
    requires forall t :: t in ts ==> t in info
    requires IsOverlapIndex(ts, info, overlap)
    requires Distinct(ts)
    ensures forall a, b :: a in ts && b in ts ==>
              (b in OverlapOf(overlap, a) <==> a != b && SlotsConflict(info[a], info[b]))
    ensures forall a :: a !in OverlapOf(overlap, a)
  {
  }
}
