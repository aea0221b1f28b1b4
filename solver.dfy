/**
 * `solve_timetable`: the greedy assignment engine. Variables are taken most-constrained first; for
 * each, its candidates are tried in preference order and the first one whose slot clashes with
 * nothing already held by the same room, instructor or section is committed for good. Variables
 * are named by their index in the variable list.
 */
module Solver {
  import opened Timetable
  import opened Ordering
  import opened OverlapIndex

  /** A read of a `defaultdict(set)`: a key never written holds the empty set. */
  function Used<K>(m: map<K, set<SlotId>>, k: K): set<SlotId>
  {
    if k in m then m[k] else {}
  }

  /** Slot `t` is slot `u` or is listed among the slots overlapping `u`. */
  predicate ClashesWithSlot(overlap: OverlapMap, t: SlotId, u: SlotId)
  {
    t == u || t in OverlapOf(overlap, u)
  }

  /** Some slot in `used` clashes with `t`. */
  predicate Clashes(overlap: OverlapMap, t: SlotId, used: set<SlotId>)
  {
    exists u :: u in used && ClashesWithSlot(overlap, t, u)
  }

  /** The three live usage indices: slots taken per room, per instructor and per section. */
  datatype Usage = Usage(rooms: map<RoomId, set<SlotId>>,
                         instructors: map<InstructorId, set<SlotId>>,
                         sections: map<SectionId, set<SlotId>>)

  /** A candidate for a variable of `section` passes all three conflict checks against `u`. */
  predicate Feasible(overlap: OverlapMap, u: Usage, section: SectionId, c: Candidate): (r: bool)
    ensures r ==> && c.slot !in Used(u.rooms, c.room)
                  && c.slot !in Used(u.instructors, c.instructor)
                  && c.slot !in Used(u.sections, section)
  {
    && !Clashes(overlap, c.slot, Used(u.rooms, c.room))
    && !Clashes(overlap, c.slot, Used(u.instructors, c.instructor))
    && !Clashes(overlap, c.slot, Used(u.sections, section))
  }

  /** Committing `c`: its slot is added to its room's, its instructor's and the section's sets, and to nothing else. */
  function Commit(u: Usage, section: SectionId, c: Candidate): (r: Usage)
    ensures forall k :: Used(r.rooms, k) == Used(u.rooms, k) + (if k == c.room then {c.slot} else {})
    ensures forall k :: Used(r.instructors, k) == Used(u.instructors, k) + (if k == c.instructor then {c.slot} else {})
    ensures forall k :: Used(r.sections, k) == Used(u.sections, k) + (if k == section then {c.slot} else {})
  {
    Usage(u.rooms[c.room := Used(u.rooms, c.room) + {c.slot}],
          u.instructors[c.instructor := Used(u.instructors, c.instructor) + {c.slot}],
          u.sections[section := Used(u.sections, section) + {c.slot}])
  }

  /** The index of the first feasible candidate, if there is one. */
  function FirstFeasible(overlap: OverlapMap, u: Usage, section: SectionId, cands: seq<Candidate>): (r: Option<nat>)
    ensures r.Some? ==> r.value < |cands| && Feasible(overlap, u, section, cands[r.value])
    ensures r.Some? ==> forall j :: 0 <= j < r.value ==> !Feasible(overlap, u, section, cands[j])
    ensures r.None? ==> forall j :: 0 <= j < |cands| ==> !Feasible(overlap, u, section, cands[j])
  {
    if cands == [] then None
    else if Feasible(overlap, u, section, cands[0]) then Some(0)
    else match FirstFeasible(overlap, u, section, cands[1..])
      case None => None
      case Some(k) => Some(k + 1)
  }

  /** `FirstFeasible` is the only answer meeting its contract. */
  lemma {:induction false} FirstFeasibleUnique(overlap: OverlapMap, u: Usage, section: SectionId, cands: seq<Candidate>,
                                              r: Option<nat>)
    requires r.Some? ==> r.value < |cands| && Feasible(overlap, u, section, cands[r.value])
    requires r.Some? ==> forall j :: 0 <= j < r.value ==> !Feasible(overlap, u, section, cands[j])
    requires r.None? ==> forall j :: 0 <= j < |cands| ==> !Feasible(overlap, u, section, cands[j])
    ensures r == FirstFeasible(overlap, u, section, cands)
  {
  }

  /** `rooms.get(room_id, {}).get("capacity", 9999)`: the capacity of the room with that id. */
  function CapacityOf(rooms: seq<Room>, id: RoomId): (cap: int)
    ensures (exists r :: r in rooms && r.id == id) ==> exists r :: r in rooms && r.id == id && cap == r.capacity
    ensures (forall r :: r in rooms ==> r.id != id) ==> cap == UnknownRoomCapacity
  {
    if rooms == [] then UnknownRoomCapacity
    else if rooms[0].id == id then rooms[0].capacity
    else
      assert forall r :: r in rooms[1..] ==> r in rooms;
      assert forall r :: r in rooms && r.id == id ==> r in rooms[1..];
      CapacityOf(rooms[1..], id)
  }

  function Abs(x: int): nat
  {
    if x < 0 then -x else x
  }

  /** How far the candidate's room is from a tight fit for `students`. */
  function Slack(rooms: seq<Room>, students: int, c: Candidate): nat
  {
    Abs(CapacityOf(rooms, c.room) - students)
  }

  /** Sort keys of a domain: not-preferred (0 before 1), then the room's slack. */
  function DomainRanks(dom: seq<Candidate>, students: int, rooms: seq<Room>): (r: seq<Rank>)
    ensures |r| == |dom|
  {
    seq(|dom|, p requires 0 <= p < |dom| =>
      Rank(if dom[p].preferred then 0 else 1, Slack(rooms, students, dom[p])))
  }

  /** Listing a domain by its sort keys puts preferred candidates first, then the tightest rooms. */
  lemma DomainOrderSorted(dom: seq<Candidate>, students: int, rooms: seq<Room>)
    ensures var r := Permute(dom, StableOrder(DomainRanks(dom, students, rooms), |dom|));
            forall a, b :: 0 <= a < b < |r| ==>
              && (r[b].preferred ==> r[a].preferred)
              && (r[a].preferred == r[b].preferred ==> Slack(rooms, students, r[a]) <= Slack(rooms, students, r[b]))
  {
    var ranks := DomainRanks(dom, students, rooms);
    var order := StableOrder(ranks, |dom|);
    var r := Permute(dom, order);
    forall a, b | 0 <= a < b < |r|
      ensures && (r[b].preferred ==> r[a].preferred)
              && (r[a].preferred == r[b].preferred ==> Slack(rooms, students, r[a]) <= Slack(rooms, students, r[b]))
    {
      assert Before(ranks, order[a], order[b]);
      assert r[a] == dom[order[a]] && r[b] == dom[order[b]];
    }
  }

  /**
   * The domain in the order the solver tries it: the same candidates, each as often, preferred ones
   * first, and within equal preference the tightest room first; ties keep domain order (see
   * `StableOrder`).
   */
  function SortedDomain(dom: seq<Candidate>, students: int, rooms: seq<Room>): (r: seq<Candidate>)
    ensures |r| == |dom|
    ensures multiset(r) == multiset(dom)
    ensures forall c :: c in r <==> c in dom
    ensures forall a, b :: 0 <= a < b < |r| && r[b].preferred ==> r[a].preferred
    ensures forall a, b :: 0 <= a < b < |r| && r[a].preferred == r[b].preferred ==>
              Slack(rooms, students, r[a]) <= Slack(rooms, students, r[b])
  {
    var ranks := DomainRanks(dom, students, rooms);
    OrderedPermutes(ranks, dom);
    DomainOrderSorted(dom, students, rooms);
    Permute(dom, StableOrder(ranks, |dom|))
  }

  /** Sort keys of the variables: more students first, then smaller domain. */
  function VariableRanks(variables: seq<LectureVar>, domains: seq<seq<Candidate>>): (r: seq<Rank>)
    requires |domains| == |variables|
    ensures |r| == |variables|
  {
    seq(|variables|, k requires 0 <= k < |variables| => Rank(-variables[k].students, |domains[k]|))
  }

  /**
   * `sorted_vars`, as positions in the variable list: every variable exactly once, by descending
   * student count, then ascending domain size, ties keeping input order (Python's sort is stable).
   */
  function VariableOrder(variables: seq<LectureVar>, domains: seq<seq<Candidate>>): (order: seq<nat>)
    requires |domains| == |variables|
    ensures |order| == |variables|
    ensures forall j :: 0 <= j < |order| ==> order[j] < |variables|
    ensures forall k: nat :: k in order <==> k < |variables|
    ensures Distinct(order)
    ensures forall a, b :: 0 <= a < b < |order| ==>
              var x, y := order[a], order[b];
              || variables[x].students > variables[y].students
              || (variables[x].students == variables[y].students && |domains[x]| < |domains[y]|)
              || (variables[x].students == variables[y].students && |domains[x]| == |domains[y]| && x < y)
  {
    var ranks := VariableRanks(variables, domains);
    var order := StableOrder(ranks, |variables|);
    assert forall a, b :: 0 <= a < b < |order| ==> Before(ranks, order[a], order[b]);
    order
  }

  /**
   * The solver's state: committed candidates and failed variables, both by position in the variable
   * list (a `LectureVar` is keyed by identity, so two equal rows are two variables), and the usage
   * indices.
   */
  datatype Outcome = Outcome(assignment: map<nat, Candidate>, failed: seq<nat>, usage: Usage)

  /**
   * Handling variable `k`: commit the first feasible candidate in sorted order, or record a failure.
   * Either way the step appends `k` to the failures and leaves the rest alone, or commits it to a
   * candidate from its own domain and records that candidate's slot.
   */
  function Step(o: Outcome, k: nat, variables: seq<LectureVar>, domains: seq<seq<Candidate>>,
                overlap: OverlapMap, rooms: seq<Room>): (after: Outcome)
    requires |domains| == |variables| && k < |variables|
    ensures || (after.assignment == o.assignment && after.failed == o.failed + [k] && after.usage == o.usage)
            || (&& after.failed == o.failed && k in after.assignment
                && after.assignment == o.assignment[k := after.assignment[k]]
                && after.assignment[k] in domains[k]
                && after.usage == Commit(o.usage, variables[k].section, after.assignment[k]))
  {
    var dom := domains[k];
    if dom == [] then Outcome(o.assignment, o.failed + [k], o.usage)
    else
      var sorted := SortedDomain(dom, variables[k].students, rooms);
      match FirstFeasible(overlap, o.usage, variables[k].section, sorted)
      case Some(j) =>
        Outcome(o.assignment[k := sorted[j]], o.failed, Commit(o.usage, variables[k].section, sorted[j]))
      case None => Outcome(o.assignment, o.failed + [k], o.usage)
  }

  ghost predicate InRange(order: seq<nat>, n: nat)
  {
    forall j :: 0 <= j < |order| ==> order[j] < n
  }

  /**
   * The state after handling the variables of `order`, one after the other, from empty usage:
   * every visited variable is reported, as committed or as failed, and nothing else is.
   */
  function Run(order: seq<nat>, variables: seq<LectureVar>, domains: seq<seq<Candidate>>,
               overlap: OverlapMap, rooms: seq<Room>): (o: Outcome)
    requires |domains| == |variables| && InRange(order, |variables|)
    ensures forall j :: 0 <= j < |order| ==> order[j] in o.assignment || order[j] in o.failed
    ensures forall k :: k in o.assignment ==> k in order
    ensures forall k :: k in o.failed ==> k in order
  {
    if order == [] then Outcome(map[], [], Usage(map[], map[], map[]))
    else
      var init, k := order[..|order| - 1], order[|order| - 1];
      assert order == init + [k];
      Step(Run(init, variables, domains, overlap, rooms), k, variables, domains, overlap, rooms)
  }

  /** Every committed slot is recorded against its room, its instructor and its section. */
  ghost predicate UsageCovers(o: Outcome, variables: seq<LectureVar>)
  {
    forall k :: k in o.assignment && k < |variables| ==>
      && o.assignment[k].slot in Used(o.usage.rooms, o.assignment[k].room)
      && o.assignment[k].slot in Used(o.usage.instructors, o.assignment[k].instructor)
      && o.assignment[k].slot in Used(o.usage.sections, variables[k].section)
  }

  /**
   * No double booking: two different committed variables that share a room, an instructor or a
   * section hold different slots, neither listed as overlapping the other.
   */
  ghost predicate NoClash(assignment: map<nat, Candidate>, variables: seq<LectureVar>, overlap: OverlapMap)
  {
    forall x, y :: x in assignment && y in assignment && x != y && x < |variables| && y < |variables|
                   && (|| assignment[x].room == assignment[y].room
                       || assignment[x].instructor == assignment[y].instructor
                       || variables[x].section == variables[y].section)
                   ==> assignment[x].slot != assignment[y].slot
                       && assignment[x].slot !in OverlapOf(overlap, assignment[y].slot)
  }

  /** Handling one more variable is one more step. */
  lemma RunSnoc(order: seq<nat>, i: nat, variables: seq<LectureVar>, domains: seq<seq<Candidate>>,
                overlap: OverlapMap, rooms: seq<Room>)
    requires |domains| == |variables| && InRange(order, |variables|) && i < |order|
    ensures Run(order[..i + 1], variables, domains, overlap, rooms)
            == Step(Run(order[..i], variables, domains, overlap, rooms), order[i], variables, domains, overlap, rooms)
  {
    assert order[..i + 1][..i] == order[..i];
  }

  /**
   * Every visited variable ends up in exactly one of the committed map and the failure list, and
   * nothing else does; the failure list has no repeats.
   */
  lemma {:induction false} RunPartition(order: seq<nat>, variables: seq<LectureVar>, domains: seq<seq<Candidate>>,
                                        overlap: OverlapMap, rooms: seq<Room>)
    requires |domains| == |variables| && InRange(order, |variables|) && Distinct(order)
    ensures var o := Run(order, variables, domains, overlap, rooms);
            && (forall k :: k in o.assignment ==> k in order)
            && (forall k :: k in o.failed ==> k in order)
            && (forall k :: k in order ==> (k in o.assignment <==> k !in o.failed))
            && Distinct(o.failed)
  {
    if order != [] {
      var init, k := order[..|order| - 1], order[|order| - 1];
      assert order == init + [k];
      RunPartition(init, variables, domains, overlap, rooms);
      var before := Run(init, variables, domains, overlap, rooms);
      assert k !in init;
      assert k !in before.assignment && k !in before.failed;
      var o := Run(order, variables, domains, overlap, rooms);
      if o.failed != before.failed {
        assert o.failed == before.failed + [k];
      }
    }
  }

  /** Each commitment comes from the variable's own domain and is recorded in the usage indices. */
  lemma {:induction false} RunCovers(order: seq<nat>, variables: seq<LectureVar>, domains: seq<seq<Candidate>>,
                                     overlap: OverlapMap, rooms: seq<Room>)
    requires |domains| == |variables| && InRange(order, |variables|)
    ensures var o := Run(order, variables, domains, overlap, rooms);
            && (forall k :: k in o.assignment && k < |domains| ==> o.assignment[k] in domains[k])
            && UsageCovers(o, variables)
  {
    if order != [] {
      var init, k := order[..|order| - 1], order[|order| - 1];
      RunCovers(init, variables, domains, overlap, rooms);
      var before := Run(init, variables, domains, overlap, rooms);
      var o := Run(order, variables, domains, overlap, rooms);
      if o.failed == before.failed {
        forall w | w in o.assignment && w < |variables|
          ensures && o.assignment[w].slot in Used(o.usage.rooms, o.assignment[w].room)
                  && o.assignment[w].slot in Used(o.usage.instructors, o.assignment[w].instructor)
                  && o.assignment[w].slot in Used(o.usage.sections, variables[w].section)
        {
          if w != k {
            assert o.assignment[w] == before.assignment[w];
          }
        }
      }
    }
  }

  /** The slots held by the commitments in room `r`. */
  ghost function RoomSlots(a: map<nat, Candidate>, r: RoomId): set<SlotId>
  {
    set k | k in a && a[k].room == r :: a[k].slot
  }

  /** The slots held by the commitments taught by instructor `i`. */
  ghost function InstructorSlots(a: map<nat, Candidate>, i: InstructorId): set<SlotId>
  {
    set k | k in a && a[k].instructor == i :: a[k].slot
  }

  /** The slots held by the commitments of variables of section `s`. */
  ghost function SectionSlots(a: map<nat, Candidate>, variables: seq<LectureVar>, s: SectionId): set<SlotId>
  {
    set k | k in a && k < |variables| && variables[k].section == s :: a[k].slot
  }

  /** Each usage index holds exactly the slots of the commitments for that room, instructor or section. */
  ghost predicate UsageExact(o: Outcome, variables: seq<LectureVar>)
  {
    && (forall r :: Used(o.usage.rooms, r) == RoomSlots(o.assignment, r))
    && (forall i :: Used(o.usage.instructors, i) == InstructorSlots(o.assignment, i))
    && (forall s :: Used(o.usage.sections, s) == SectionSlots(o.assignment, variables, s))
  }

  /** Committing a fresh variable adds its slot to the slots of its room, its instructor and its section. */
  lemma CommitSlots(a: map<nat, Candidate>, variables: seq<LectureVar>, k: nat, c: Candidate)
    requires k !in a && k < |variables|
    ensures forall r :: RoomSlots(a[k := c], r) == RoomSlots(a, r) + (if r == c.room then {c.slot} else {})
    ensures forall i :: InstructorSlots(a[k := c], i)
                        == InstructorSlots(a, i) + (if i == c.instructor then {c.slot} else {})
    ensures forall s :: SectionSlots(a[k := c], variables, s)
                        == SectionSlots(a, variables, s) + (if s == variables[k].section then {c.slot} else {})
  {
    var b := a[k := c];
    assert forall w :: w in a ==> w in b && b[w] == a[w];
    assert k in b && b[k] == c;
  }

  /** A step for a variable not yet committed keeps the usage indices exact. */
  lemma StepKeepsExact(o: Outcome, k: nat, variables: seq<LectureVar>, domains: seq<seq<Candidate>>,
                       overlap: OverlapMap, rooms: seq<Room>)
    requires |domains| == |variables| && k < |variables| && k !in o.assignment && UsageExact(o, variables)
    ensures UsageExact(Step(o, k, variables, domains, overlap, rooms), variables)
  {
    var after := Step(o, k, variables, domains, overlap, rooms);
    if after.failed == o.failed {
      CommitSlots(o.assignment, variables, k, after.assignment[k]);
    }
  }

  /**
   * Nothing but commitments is recorded: after any run over distinct variables, each usage index
   * holds exactly the slots committed for that room, instructor or section.
   */
  lemma {:induction false} RunUsageExact(order: seq<nat>, variables: seq<LectureVar>, domains: seq<seq<Candidate>>,
                                         overlap: OverlapMap, rooms: seq<Room>)
    requires |domains| == |variables| && InRange(order, |variables|) && Distinct(order)
    ensures UsageExact(Run(order, variables, domains, overlap, rooms), variables)
  {
    if order != [] {
      var init, k := order[..|order| - 1], order[|order| - 1];
      assert order == init + [k];
      RunUsageExact(init, variables, domains, overlap, rooms);
      assert k !in init;
      var before := Run(init, variables, domains, overlap, rooms);
      assert k !in before.assignment;
      StepKeepsExact(before, k, variables, domains, overlap, rooms);
    }
  }

  /** Some commitment sharing the candidate's room, its instructor or the section holds a clashing slot. */
  ghost predicate ClashesWithCommitment(a: map<nat, Candidate>, variables: seq<LectureVar>, overlap: OverlapMap,
                                        section: SectionId, c: Candidate)
  {
    exists w :: && w in a && w < |variables|
                && (a[w].room == c.room || a[w].instructor == c.instructor || variables[w].section == section)
                && ClashesWithSlot(overlap, c.slot, a[w].slot)
  }

  /** Against exact usage indices, a candidate passes the three checks exactly when no commitment clashes with it. */
  lemma FeasibleExact(o: Outcome, variables: seq<LectureVar>, overlap: OverlapMap, section: SectionId, c: Candidate)
    requires UsageExact(o, variables) && forall w :: w in o.assignment ==> w < |variables|
    ensures Feasible(overlap, o.usage, section, c) <==> !ClashesWithCommitment(o.assignment, variables, overlap, section, c)
  {
    var a := o.assignment;
    if ClashesWithCommitment(a, variables, overlap, section, c) {
      var w :| && w in a && w < |variables|
               && (a[w].room == c.room || a[w].instructor == c.instructor || variables[w].section == section)
               && ClashesWithSlot(overlap, c.slot, a[w].slot);
      assert a[w].room == c.room ==> a[w].slot in RoomSlots(a, c.room);
      assert a[w].instructor == c.instructor ==> a[w].slot in InstructorSlots(a, c.instructor);
      assert variables[w].section == section ==> a[w].slot in SectionSlots(a, variables, section);
    }
    if !Feasible(overlap, o.usage, section, c) {
      var u :| || (u in Used(o.usage.rooms, c.room) && ClashesWithSlot(overlap, c.slot, u))
               || (u in Used(o.usage.instructors, c.instructor) && ClashesWithSlot(overlap, c.slot, u))
               || (u in Used(o.usage.sections, section) && ClashesWithSlot(overlap, c.slot, u));
      var w :| && w in a && a[w].slot == u
               && (a[w].room == c.room || a[w].instructor == c.instructor
                   || (w < |variables| && variables[w].section == section))
               && ClashesWithSlot(overlap, c.slot, u);
    }
  }

  /**
   * One decision, restated against the commitments: given exact usage, committing the first
   * feasible candidate of `sorted` (a rearrangement of `dom`) fails exactly when every candidate
   * clashes with a commitment, and otherwise picks a clash-free one after clashing ones only.
   */
  lemma ChoiceAgainstCommitments(before: Outcome, variables: seq<LectureVar>, overlap: OverlapMap, section: SectionId,
                                 dom: seq<Candidate>, sorted: seq<Candidate>, after: map<nat, Candidate>, k: nat)
    requires UsageExact(before, variables) && forall w :: w in before.assignment ==> w < |variables|
    requires forall c :: c in sorted <==> c in dom
    requires var first := FirstFeasible(overlap, before.usage, section, sorted);
             && (k in after <==> dom != [] && first.Some?)
             && (k in after ==> first.Some? && after[k] == sorted[first.value])
    ensures k !in after <==> forall c :: c in dom ==> ClashesWithCommitment(before.assignment, variables, overlap, section, c)
    ensures k in after ==>
              exists j :: && 0 <= j < |sorted| && after[k] == sorted[j]
                          && !ClashesWithCommitment(before.assignment, variables, overlap, section, after[k])
                          && forall p :: 0 <= p < j ==> ClashesWithCommitment(before.assignment, variables, overlap, section, sorted[p])
  {
    var first := FirstFeasible(overlap, before.usage, section, sorted);
    forall c ensures Feasible(overlap, before.usage, section, c)
                     <==> !ClashesWithCommitment(before.assignment, variables, overlap, section, c)
    {
      FeasibleExact(before, variables, overlap, section, c);
    }
    if first.None? {
      forall c | c in dom ensures ClashesWithCommitment(before.assignment, variables, overlap, section, c) {
        var j :| 0 <= j < |sorted| && sorted[j] == c;
      }
    } else {
      assert sorted[first.value] in dom;
    }
  }

  /**
   * The greedy rule in terms of the sessions already placed: the `i`-th variable visited is left
   * out exactly when every candidate of its domain clashes with an earlier commitment sharing its
   * room, its instructor or its section; otherwise it holds a candidate that clashes with none of
   * them, and every candidate tried before it does clash with one.
   */
  lemma RunFailsOnlyOnClash(order: seq<nat>, i: nat, variables: seq<LectureVar>, domains: seq<seq<Candidate>>,
                            overlap: OverlapMap, rooms: seq<Room>)
    requires |domains| == |variables| && InRange(order, |variables|) && Distinct(order) && i < |order|
    ensures var k, before, after := order[i], Run(order[..i], variables, domains, overlap, rooms),
                                    Run(order, variables, domains, overlap, rooms);
            var section, sorted := variables[k].section, SortedDomain(domains[k], variables[k].students, rooms);
            && (k !in after.assignment <==>
                forall c :: c in domains[k] ==> ClashesWithCommitment(before.assignment, variables, overlap, section, c))
            && (k in after.assignment ==>
                exists j :: && 0 <= j < |sorted| && after.assignment[k] == sorted[j]
                            && !ClashesWithCommitment(before.assignment, variables, overlap, section, after.assignment[k])
                            && forall p :: 0 <= p < j ==> ClashesWithCommitment(before.assignment, variables, overlap, section, sorted[p]))
  {
    var k := order[i];
    var before := Run(order[..i], variables, domains, overlap, rooms);
    var after := Run(order, variables, domains, overlap, rooms);
    RunChoosesFirstFeasible(order, i, variables, domains, overlap, rooms);
    RunUsageExact(order[..i], variables, domains, overlap, rooms);
    assert forall w :: w in before.assignment ==> w < |variables|;
    ChoiceAgainstCommitments(before, variables, overlap, variables[k].section, domains[k],
                             SortedDomain(domains[k], variables[k].students, rooms), after.assignment, k);
  }

  /** Committing a candidate that passed the conflict checks against usage covering `m` keeps `m` clash-free. */
  lemma CommitKeepsNoClash(m: map<nat, Candidate>, usage: Usage, variables: seq<LectureVar>, k: nat, c: Candidate,
                           overlap: OverlapMap)
    requires Symmetric(overlap) && NoClash(m, variables, overlap) && UsageCovers(Outcome(m, [], usage), variables)
    requires k < |variables| && Feasible(overlap, usage, variables[k].section, c)
    ensures NoClash(m[k := c], variables, overlap)
  {
  }

  /**
   * The no-double-booking invariant holds of every state the solver reaches, given an overlap
   * index that is symmetric (as the one built from the timeslots is).
   */
  lemma {:induction false} RunNoClash(order: seq<nat>, variables: seq<LectureVar>, domains: seq<seq<Candidate>>,
                                      overlap: OverlapMap, rooms: seq<Room>)
    requires |domains| == |variables| && InRange(order, |variables|)
    requires Symmetric(overlap)
    ensures NoClash(Run(order, variables, domains, overlap, rooms).assignment, variables, overlap)
  {
    if order != [] {
      var init, k := order[..|order| - 1], order[|order| - 1];
      assert order == init + [k];
      RunNoClash(init, variables, domains, overlap, rooms);
      RunCovers(init, variables, domains, overlap, rooms);
      var before := Run(init, variables, domains, overlap, rooms);
      var dom := domains[k];
      if dom != [] {
        var sorted := SortedDomain(dom, variables[k].students, rooms);
        var first := FirstFeasible(overlap, before.usage, variables[k].section, sorted);
        if first.Some? {
          assert UsageCovers(Outcome(before.assignment, [], before.usage), variables);
          CommitKeepsNoClash(before.assignment, before.usage, variables, k, sorted[first.value], overlap);
        }
      }
    }
  }

  /** A step for a variable not yet committed keeps every commitment and failure. */
  lemma StepExtends(o: Outcome, k: nat, variables: seq<LectureVar>, domains: seq<seq<Candidate>>,
                    overlap: OverlapMap, rooms: seq<Room>)
    requires |domains| == |variables| && k < |variables| && k !in o.assignment
    ensures var after := Step(o, k, variables, domains, overlap, rooms);
            && (forall w :: w in o.assignment ==> w in after.assignment && after.assignment[w] == o.assignment[w])
            && o.failed <= after.failed
  {
  }

  /** Decisions are final: handling more variables keeps every earlier commitment and failure as it was. */
  lemma {:induction false} RunExtends(order: seq<nat>, i: nat, variables: seq<LectureVar>, domains: seq<seq<Candidate>>,
                                      overlap: OverlapMap, rooms: seq<Room>)
    requires |domains| == |variables| && InRange(order, |variables|) && Distinct(order) && i <= |order|
    ensures var early, late := Run(order[..i], variables, domains, overlap, rooms),
                               Run(order, variables, domains, overlap, rooms);
            && (forall k :: k in early.assignment ==> k in late.assignment && late.assignment[k] == early.assignment[k])
            && early.failed <= late.failed
  {
    if i < |order| {
      var init, k := order[..|order| - 1], order[|order| - 1];
      assert order == init + [k];
      assert init[..i] == order[..i];
      RunExtends(init, i, variables, domains, overlap, rooms);
      assert k !in init;
      StepExtends(Run(init, variables, domains, overlap, rooms), k, variables, domains, overlap, rooms);
    } else {
      assert order[..i] == order;
    }
  }

  /** One step commits the variable exactly when its domain is non-empty and a candidate is feasible, and then the first. */
  lemma StepChoosesFirstFeasible(o: Outcome, k: nat, variables: seq<LectureVar>, domains: seq<seq<Candidate>>,
                                 overlap: OverlapMap, rooms: seq<Room>)
    requires |domains| == |variables| && k < |variables| && k !in o.assignment
    ensures var after := Step(o, k, variables, domains, overlap, rooms);
            var sorted := SortedDomain(domains[k], variables[k].students, rooms);
            var first := FirstFeasible(overlap, o.usage, variables[k].section, sorted);
            && (k in after.assignment <==> domains[k] != [] && first.Some?)
            && (k in after.assignment ==> first.Some? && after.assignment[k] == sorted[first.value])
            && (k !in after.assignment ==> after.failed == o.failed + [k])
  {
  }

  /**
   * The greedy rule: the `i`-th variable visited is committed exactly when its domain is non-empty
   * and some candidate is feasible against the usage left by the variables before it, and then it
   * holds the first such candidate in sorted order.
   */
  lemma RunChoosesFirstFeasible(order: seq<nat>, i: nat, variables: seq<LectureVar>, domains: seq<seq<Candidate>>,
                                overlap: OverlapMap, rooms: seq<Room>)
    requires |domains| == |variables| && InRange(order, |variables|) && Distinct(order) && i < |order|
    ensures var k, before, after := order[i], Run(order[..i], variables, domains, overlap, rooms),
                                    Run(order, variables, domains, overlap, rooms);
            var sorted := SortedDomain(domains[k], variables[k].students, rooms);
            var first := FirstFeasible(overlap, before.usage, variables[k].section, sorted);
            && (k in after.assignment <==> domains[k] != [] && first.Some?)
            && (k in after.assignment ==> first.Some? && after.assignment[k] == sorted[first.value])
  {
    var k := order[i];
    var prefix := order[..i + 1];
    assert prefix[..i] == order[..i];
    var before := Run(order[..i], variables, domains, overlap, rooms);
    RunPartition(order[..i], variables, domains, overlap, rooms);
    assert k !in order[..i];
    var mid := Run(prefix, variables, domains, overlap, rooms);
    assert mid == Step(before, k, variables, domains, overlap, rooms);
    StepChoosesFirstFeasible(before, k, variables, domains, overlap, rooms);
    RunExtends(order, i + 1, variables, domains, overlap, rooms);
    RunPartition(order, variables, domains, overlap, rooms);
    var after := Run(order, variables, domains, overlap, rooms);
    if k !in mid.assignment {
      assert k in mid.failed;
      assert k in after.failed;
    }
  }

  /** One conflict check: does any slot already held by the resource clash with `t`? */
  method AnyClash(overlap: OverlapMap, t: SlotId, used: set<SlotId>) returns (conflict: bool)
    ensures conflict <==> Clashes(overlap, t, used)
  {
    conflict := false;
    var rest := used;
    while rest != {}
      invariant rest <= used
      invariant forall u :: u in used && u !in rest ==> !ClashesWithSlot(overlap, t, u)
      decreases |rest|
    {
      var u :| u in rest;
      if t == u || t in OverlapOf(overlap, u) {
        conflict := true;
        break;
      }
      rest := rest - {u};
    }
  }

  /**
   * The inner loop of `solve_timetable`: try the candidates in order, skip any whose slot clashes
   * with the room's, then the instructor's, then the section's used slots, and stop at the first
   * that passes all three.
   */
  method PickCandidate(overlap: OverlapMap, usage: Usage, section: SectionId, cands: seq<Candidate>)
    returns (choice: Option<nat>)
    ensures choice == FirstFeasible(overlap, usage, section, cands)
  {
    choice := None;
    for j := 0 to |cands|
      invariant forall p :: 0 <= p < j ==> !Feasible(overlap, usage, section, cands[p])
    {
      var option := cands[j];
      var conflict := AnyClash(overlap, option.slot, Used(usage.rooms, option.room));
      if conflict {
        continue;
      }
      conflict := AnyClash(overlap, option.slot, Used(usage.instructors, option.instructor));
      if conflict {
        continue;
      }
      conflict := AnyClash(overlap, option.slot, Used(usage.sections, section));
      if conflict {
        continue;
      }
      choice := Some(j);
      break;
    }
    FirstFeasibleUnique(overlap, usage, section, cands, choice);
  }

  /**
   * `solve_timetable`: visit the variables in `VariableOrder`; a variable with an empty domain
   * fails; otherwise try its candidates in `SortedDomain` order, commit the first that passes the
   * three conflict checks and record its slot in all three usage indices; if none passes the
   * variable fails. Nothing is ever revisited.
   */
  method Solve(variables: seq<LectureVar>, domains: seq<seq<Candidate>>, overlap: OverlapMap, rooms: seq<Room>)
    returns (assignment: map<nat, Candidate>, failed: seq<nat>)
    requires |domains| == |variables|
    ensures var o := Run(VariableOrder(variables, domains), variables, domains, overlap, rooms);
            assignment == o.assignment && failed == o.failed
    ensures forall k: nat :: k in assignment || k in failed <==> k < |variables|
    ensures forall k :: !(k in assignment && k in failed)
    ensures Distinct(failed)
    ensures forall k :: k in assignment && k < |domains| ==> assignment[k] in domains[k]
    ensures Symmetric(overlap) ==> NoClash(assignment, variables, overlap)
  {
    assignment, failed := map[], [];
    var usedRoom: map<RoomId, set<SlotId>> := map[];
    var usedInstr: map<InstructorId, set<SlotId>> := map[];
    var usedSection: map<SectionId, set<SlotId>> := map[];
    var order := VariableOrder(variables, domains);
    for i := 0 to |order|
      invariant Outcome(assignment, failed, Usage(usedRoom, usedInstr, usedSection))
                == Run(order[..i], variables, domains, overlap, rooms)
    {
      var k := order[i];
      RunSnoc(order, i, variables, domains, overlap, rooms);
      var dom := domains[k];
      if dom == [] {
        failed := failed + [k];
        continue;
      }
      var section := variables[k].section;
      var sortedDomain := SortedDomain(dom, variables[k].students, rooms);
      var choice := PickCandidate(overlap, Usage(usedRoom, usedInstr, usedSection), section, sortedDomain);
      if choice.Some? {
        var option := sortedDomain[choice.value];
        assignment := assignment[k := option];
        usedRoom := usedRoom[option.room := Used(usedRoom, option.room) + {option.slot}];
        usedInstr := usedInstr[option.instructor := Used(usedInstr, option.instructor) + {option.slot}];
        usedSection := usedSection[section := Used(usedSection, section) + {option.slot}];
      } else {
        failed := failed + [k];
      }
    }
    assert order[..|order|] == order;
    RunPartition(order, variables, domains, overlap, rooms);
    RunCovers(order, variables, domains, overlap, rooms);
    if Symmetric(overlap) {
      RunNoClash(order, variables, domains, overlap, rooms);
    }
  }
}
