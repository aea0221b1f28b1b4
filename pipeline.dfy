/**
 * `main`, from the preprocessed tables on: build the overlap index, the variables and their
 * domains, and, when there is at least one variable, run the solver.
 */
module Pipeline {
  import opened Timetable
  import opened OverlapIndex
  import opened Domains
  import opened Solver

  /**
   * The timetable's guarantee in terms of the slots themselves: two different committed sessions
   * that share a room, an instructor or a section sit in different slots that do not conflict
   * (same day, intersecting minutes).
   */
  ghost predicate NoDoubleBooking(assignment: map<nat, Candidate>, variables: seq<LectureVar>,
                                  info: map<SlotId, SlotInfo>)
  {
    forall x, y :: x in assignment && y in assignment && x != y && x < |variables| && y < |variables|
                   && (|| assignment[x].room == assignment[y].room
                       || assignment[x].instructor == assignment[y].instructor
                       || variables[x].section == variables[y].section)
                   ==> && assignment[x].slot != assignment[y].slot
                       && assignment[x].slot in info && assignment[y].slot in info
                       && !SlotsConflict(info[assignment[x].slot], info[assignment[y].slot])
  }

  /**
   * `main` after loading: the variables are the kept sessions, `overlap` is the overlap index of
   * the timeslots and `domains` their specified domains; the result is the greedy fold over the
   * solver's visiting order. Hence every variable ends up committed or failed, never both, and
   * nothing else is reported; each commitment satisfies the slot-type, room and instructor rules;
   * and no room, instructor or section is double-booked.
   */
  method Schedule(courses: set<CourseId>, instructors: seq<Instructor>, rooms: seq<Room>,
                  timeslots: seq<SlotId>, info: map<SlotId, SlotInfo>, sessions: seq<SessionRow>,
                  allowFallback: bool)
    returns (variables: seq<LectureVar>, assignment: map<nat, Candidate>, failed: seq<nat>,
             ghost overlap: OverlapMap, ghost domains: seq<seq<Candidate>>)
    requires forall t :: t in timeslots ==> t in info
    ensures variables == Variables(sessions, courses)
    ensures IsOverlapIndex(timeslots, info, overlap)
    ensures |domains| == |variables|
    ensures forall k :: 0 <= k < |variables| ==>
              domains[k] == Domain(variables[k], instructors, rooms, timeslots, info, allowFallback)
    ensures var o := Run(VariableOrder(variables, domains), variables, domains, overlap, rooms);
            assignment == o.assignment && failed == o.failed
    ensures forall k: nat :: k in assignment || k in failed <==> k < |variables|
    ensures forall k :: !(k in assignment && k in failed)
    ensures forall k :: k in assignment && k < |variables| ==>
              SoundCandidate(variables[k], assignment[k], Eligible(instructors, variables[k].course, allowFallback),
                             rooms, timeslots, info)
    ensures NoDoubleBooking(assignment, variables, info)
  {
    var index := BuildOverlap(timeslots, info);
    var doms;
    variables, doms := BuildVarsDomains(courses, instructors, rooms, timeslots, info, sessions, allowFallback);
    overlap, domains := index, doms;
    if variables == [] {
      return variables, map[], [], overlap, domains;
    }
    IndexSymmetric(timeslots, info, overlap);
    assignment, failed := Solve(variables, doms, index, rooms);
    forall k | k in assignment && k < |variables|
      ensures SoundCandidate(variables[k], assignment[k], Eligible(instructors, variables[k].course, allowFallback),
                             rooms, timeslots, info)
    {
      DomainSound(variables[k], instructors, rooms, timeslots, info, allowFallback);
    }
    forall x, y | x in assignment && y in assignment && x != y && x < |variables| && y < |variables|
                  && (|| assignment[x].room == assignment[y].room
                      || assignment[x].instructor == assignment[y].instructor
                      || variables[x].section == variables[y].section)
      ensures !SlotsConflict(info[assignment[x].slot], info[assignment[y].slot])
    {
      var a, b := assignment[x].slot, assignment[y].slot;
      assert a !in OverlapOf(overlap, b);
    }
  }
}
