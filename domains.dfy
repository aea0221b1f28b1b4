/**
 * `build_vars_domains`: one scheduling variable per usable session row, and for each variable the
 * list of candidate (slot, room, instructor) triples that pass every hard filter.
 */
module Domains {
  import opened Timetable
  import opened Compat

  /** A session row passes the data-integrity checks: a positive student count and a known course. */
  predicate Kept(s: SessionRow, courses: set<CourseId>)
  {
    s.students > 0 && s.course in courses
  }

  function ToVar(s: SessionRow): LectureVar
  {
    LectureVar(s.course, s.section, s.sessionType, s.students)
  }

  /** The variables made from the session rows that pass the checks, in row order. */
  function Variables(sessions: seq<SessionRow>, courses: set<CourseId>): (r: seq<LectureVar>)
    ensures |r| <= |sessions|
    ensures forall v :: v in r ==> v.students > 0 && v.course in courses
  {
    if sessions == [] then []
    else
      var last := sessions[|sessions| - 1];
      Variables(sessions[..|sessions| - 1], courses) + (if Kept(last, courses) then [ToVar(last)] else [])
  }

  /**
   * A variable exists exactly for the rows that pass the checks: a row with no students or an
   * unknown course produces none.
   */
  lemma {:induction false} VariablesExact(sessions: seq<SessionRow>, courses: set<CourseId>)
    ensures forall v :: v in Variables(sessions, courses) <==>
              exists s :: s in sessions && Kept(s, courses) && v == ToVar(s)
  {
    if sessions != [] {
      var init, last := sessions[..|sessions| - 1], sessions[|sessions| - 1];
      assert sessions == init + [last];
      VariablesExact(init, courses);
      forall v ensures v in Variables(sessions, courses) <==>
                       exists s :: s in sessions && Kept(s, courses) && v == ToVar(s) {
        if exists s :: s in sessions && Kept(s, courses) && v == ToVar(s) {
          var s :| s in sessions && Kept(s, courses) && v == ToVar(s);
          if s != last {
            assert s in init;
          }
        }
      }
    }
  }

  /** The instructors qualified for the course, in table order. */
  function Qualified(instructors: seq<Instructor>, course: CourseId): (r: seq<Instructor>)
    ensures forall i :: i in r <==> i in instructors && course in i.quals
  {
    if instructors == [] then []
    else
      var last := instructors[|instructors| - 1];
      assert instructors == instructors[..|instructors| - 1] + [last];
      Qualified(instructors[..|instructors| - 1], course) + (if course in last.quals then [last] else [])
  }

  /**
   * The instructors a session may be given: the qualified ones; or, when nobody is qualified and
   * fallback is on, every instructor; or, when nobody is qualified and fallback is off, nobody.
   */
  function Eligible(instructors: seq<Instructor>, course: CourseId, allowFallback: bool): (r: seq<Instructor>)
    ensures (exists i :: i in instructors && course in i.quals) ==>
              forall i :: i in r <==> i in instructors && course in i.quals
    ensures (forall i :: i in instructors ==> course !in i.quals) && allowFallback ==> r == instructors
    ensures (forall i :: i in instructors ==> course !in i.quals) && !allowFallback ==> r == []
  {
    var qualified := Qualified(instructors, course);
    assert qualified != [] ==> qualified[0] in qualified;
    if qualified == [] && allowFallback then instructors else qualified
  }

  /** The room suits the session's type and seats all its students (capacity relaxation 0). */
  predicate RoomFits(v: LectureVar, r: Room)
  {
    CompatibleRoom(v.sessionType, r.roomType) && r.capacity >= v.students
  }

  /** The candidate tuple for slot `t`, room `roomId` and instructor `i`. */
  function MakeCandidate(v: LectureVar, t: SlotId, roomId: RoomId, i: Instructor): Candidate
  {
    Candidate(t, roomId, i.id, v.course in i.quals, Preferred(v.sessionType, i.role))
  }

  /** One candidate per instructor, for a fixed slot and room. */
  function InstructorCandidates(v: LectureVar, t: SlotId, roomId: RoomId, instrs: seq<Instructor>): seq<Candidate>
  {
    seq(|instrs|, k requires 0 <= k < |instrs| => MakeCandidate(v, t, roomId, instrs[k]))
  }

  /** The candidates for a fixed slot: rooms in table order, each followed by its instructors. */
  function RoomCandidates(v: LectureVar, t: SlotId, rooms: seq<Room>, instrs: seq<Instructor>): seq<Candidate>
  {
    if rooms == [] then []
    else
      var last := rooms[|rooms| - 1];
      RoomCandidates(v, t, rooms[..|rooms| - 1], instrs)
      + (if RoomFits(v, last) then InstructorCandidates(v, t, last.id, instrs) else [])
  }

  /** The candidates over the slots, in slot order; unknown slots and unsuitable slot types give none. */
  function SlotCandidates(v: LectureVar, slots: seq<SlotId>, info: map<SlotId, SlotInfo>,
                          rooms: seq<Room>, instrs: seq<Instructor>): seq<Candidate>
  {
    if slots == [] then []
    else
      var t := slots[|slots| - 1];
      SlotCandidates(v, slots[..|slots| - 1], info, rooms, instrs)
      + (if t in info && SlotTypeMatches(info[t].slotType, info[t].duration, v.sessionType)
         then RoomCandidates(v, t, rooms, instrs) else [])
  }

  /** The domain of a variable: slot x room x eligible instructor, filtered, in that nesting order. */
  function Domain(v: LectureVar, instructors: seq<Instructor>, rooms: seq<Room>,
                  timeslots: seq<SlotId>, info: map<SlotId, SlotInfo>, allowFallback: bool): seq<Candidate>
  {
    SlotCandidates(v, timeslots, info, rooms, Eligible(instructors, v.course, allowFallback))
  }

  /** Every hard filter holds of the candidate `c` for variable `v`. */
  ghost predicate SoundCandidate(v: LectureVar, c: Candidate, instrs: seq<Instructor>, rooms: seq<Room>,
                                 timeslots: seq<SlotId>, info: map<SlotId, SlotInfo>)
  {
    && c.slot in timeslots && c.slot in info
    && SlotTypeMatches(info[c.slot].slotType, info[c.slot].duration, v.sessionType)
    && (exists r :: r in rooms && r.id == c.room && CompatibleRoom(v.sessionType, r.roomType)
                    && r.capacity >= v.students)
    && (exists i :: i in instrs && i.id == c.instructor && c.qualified == (v.course in i.quals)
                    && c.preferred == Preferred(v.sessionType, i.role))
  }

  lemma {:induction false} RoomCandidatesSound(v: LectureVar, t: SlotId, rooms: seq<Room>, instrs: seq<Instructor>, c: Candidate)
    requires c in RoomCandidates(v, t, rooms, instrs)
    ensures c.slot == t
    ensures exists r :: r in rooms && r.id == c.room && RoomFits(v, r)
    ensures exists i :: i in instrs && c == MakeCandidate(v, t, c.room, i)
  {
    var init, last := rooms[..|rooms| - 1], rooms[|rooms| - 1];
    if c in RoomCandidates(v, t, init, instrs) {
      RoomCandidatesSound(v, t, init, instrs, c);
      var r :| r in init && r.id == c.room && RoomFits(v, r);
      assert r in rooms;
    } else {
      var k :| 0 <= k < |instrs| && InstructorCandidates(v, t, last.id, instrs)[k] == c;
      assert instrs[k] in instrs;
    }
  }

  lemma {:induction false} SlotCandidatesSound(v: LectureVar, slots: seq<SlotId>, info: map<SlotId, SlotInfo>,
                                               rooms: seq<Room>, instrs: seq<Instructor>, c: Candidate)
    requires c in SlotCandidates(v, slots, info, rooms, instrs)
    ensures SoundCandidate(v, c, instrs, rooms, slots, info)
  {
    var init, t := slots[..|slots| - 1], slots[|slots| - 1];
    if c in SlotCandidates(v, init, info, rooms, instrs) {
      SlotCandidatesSound(v, init, info, rooms, instrs, c);
      assert c.slot in init;
    } else {
      RoomCandidatesSound(v, t, rooms, instrs, c);
      var i :| i in instrs && c == MakeCandidate(v, t, c.room, i);
      assert i.id == c.instructor;
    }
  }

  /**
   * Domain soundness: every candidate's slot is a known slot whose type suits the session, its room
   * suits the session and seats every student, its instructor is eligible, and its two flags say
   * whether that instructor is qualified and whether the pairing is preferred.
   */
  lemma DomainSound(v: LectureVar, instructors: seq<Instructor>, rooms: seq<Room>,
                    timeslots: seq<SlotId>, info: map<SlotId, SlotInfo>, allowFallback: bool)
    ensures forall c :: c in Domain(v, instructors, rooms, timeslots, info, allowFallback) ==>
              SoundCandidate(v, c, Eligible(instructors, v.course, allowFallback), rooms, timeslots, info)
  {
    forall c | c in Domain(v, instructors, rooms, timeslots, info, allowFallback)
      ensures SoundCandidate(v, c, Eligible(instructors, v.course, allowFallback), rooms, timeslots, info)
    {
      SlotCandidatesSound(v, timeslots, info, rooms, Eligible(instructors, v.course, allowFallback), c);
    }
  }

  lemma {:induction false} RoomCandidatesComplete(v: LectureVar, t: SlotId, rooms: seq<Room>, instrs: seq<Instructor>,
                                                  r: Room, i: Instructor)
    requires r in rooms && RoomFits(v, r) && i in instrs
    ensures MakeCandidate(v, t, r.id, i) in RoomCandidates(v, t, rooms, instrs)
  {
    var init, last := rooms[..|rooms| - 1], rooms[|rooms| - 1];
    assert rooms == init + [last];
    if r in init {
      RoomCandidatesComplete(v, t, init, instrs, r, i);
    } else {
      var k :| 0 <= k < |instrs| && instrs[k] == i;
      assert InstructorCandidates(v, t, r.id, instrs)[k] == MakeCandidate(v, t, r.id, i);
    }
  }

  lemma {:induction false} SlotCandidatesComplete(v: LectureVar, slots: seq<SlotId>, info: map<SlotId, SlotInfo>,
                                                  rooms: seq<Room>, instrs: seq<Instructor>,
                                                  t: SlotId, r: Room, i: Instructor)
    requires t in slots && t in info && SlotTypeMatches(info[t].slotType, info[t].duration, v.sessionType)
    requires r in rooms && RoomFits(v, r) && i in instrs
    ensures MakeCandidate(v, t, r.id, i) in SlotCandidates(v, slots, info, rooms, instrs)
  {
    var init, last := slots[..|slots| - 1], slots[|slots| - 1];
    assert slots == init + [last];
    if t in init {
      SlotCandidatesComplete(v, init, info, rooms, instrs, t, r, i);
    } else {
      RoomCandidatesComplete(v, t, rooms, instrs, r, i);
    }
  }

  /**
   * Domain completeness: every known slot whose type suits the session, combined with every room
   * that suits and seats it and every eligible instructor, is a candidate.
   */
  lemma DomainComplete(v: LectureVar, instructors: seq<Instructor>, rooms: seq<Room>,
                       timeslots: seq<SlotId>, info: map<SlotId, SlotInfo>, allowFallback: bool,
                       t: SlotId, r: Room, i: Instructor)
    requires t in timeslots && t in info && SlotTypeMatches(info[t].slotType, info[t].duration, v.sessionType)
    requires r in rooms && CompatibleRoom(v.sessionType, r.roomType) && r.capacity >= v.students
    requires i in Eligible(instructors, v.course, allowFallback)
    ensures Candidate(t, r.id, i.id, v.course in i.quals, Preferred(v.sessionType, i.role))
              in Domain(v, instructors, rooms, timeslots, info, allowFallback)
  {
    SlotCandidatesComplete(v, timeslots, info, rooms, Eligible(instructors, v.course, allowFallback), t, r, i);
  }

  lemma {:induction false} RoomCandidatesNoInstructors(v: LectureVar, t: SlotId, rooms: seq<Room>)
    ensures RoomCandidates(v, t, rooms, []) == []
  {
    if rooms != [] {
      RoomCandidatesNoInstructors(v, t, rooms[..|rooms| - 1]);
    }
  }

  lemma {:induction false} SlotCandidatesNoInstructors(v: LectureVar, slots: seq<SlotId>, info: map<SlotId, SlotInfo>,
                                                       rooms: seq<Room>)
    ensures SlotCandidates(v, slots, info, rooms, []) == []
  {
    if slots != [] {
      SlotCandidatesNoInstructors(v, slots[..|slots| - 1], info, rooms);
      RoomCandidatesNoInstructors(v, slots[|slots| - 1], rooms);
    }
  }

  /**
   * The fallback rule as seen in the domain: when someone is qualified every candidate is flagged
   * qualified; when nobody is, every candidate is flagged unqualified, and with fallback off there
   * are no candidates at all.
   */
  lemma FallbackRule(v: LectureVar, instructors: seq<Instructor>, rooms: seq<Room>,
                     timeslots: seq<SlotId>, info: map<SlotId, SlotInfo>, allowFallback: bool)
    ensures (exists i :: i in instructors && v.course in i.quals) ==>
              forall c :: c in Domain(v, instructors, rooms, timeslots, info, allowFallback) ==> c.qualified
    ensures (forall i :: i in instructors ==> v.course !in i.quals) ==>
              forall c :: c in Domain(v, instructors, rooms, timeslots, info, allowFallback) ==> !c.qualified
    ensures (forall i :: i in instructors ==> v.course !in i.quals) && !allowFallback ==>
              Domain(v, instructors, rooms, timeslots, info, allowFallback) == []
  {
    DomainSound(v, instructors, rooms, timeslots, info, allowFallback);
    SlotCandidatesNoInstructors(v, timeslots, info, rooms);
  }

  /**
   * The room and instructor loops of `build_vars_domains` for one slot: every room that suits and
   * seats the session, each followed by every eligible instructor.
   */
  method BuildRoomCandidates(v: LectureVar, t: SlotId, rooms: seq<Room>, eligible: seq<Instructor>)
    returns (cands: seq<Candidate>)
    ensures cands == RoomCandidates(v, t, rooms, eligible)
  {
    cands := [];
    for ri := 0 to |rooms|
      invariant cands == RoomCandidates(v, t, rooms[..ri], eligible)
    {
      var r := rooms[ri];
      assert rooms[..ri + 1] == rooms[..ri] + [r];
      if !CompatibleRoom(v.sessionType, r.roomType) {
        continue;
      }
      if r.capacity < v.students {
        continue;
      }
      ghost var beforeRoom := cands;
      for ii := 0 to |eligible|
        invariant cands == beforeRoom + InstructorCandidates(v, t, r.id, eligible[..ii])
      {
        var instr := eligible[ii];
        var prefFlag := Preferred(v.sessionType, instr.role);
        cands := cands + [Candidate(t, r.id, instr.id, v.course in instr.quals, prefFlag)];
      }
      assert eligible[..|eligible|] == eligible;
    }
    assert rooms[..|rooms|] == rooms;
  }

  /**
   * The body of `build_vars_domains` for one variable: walk the slots, skip unknown ones and those
   * whose type does not suit the session, and append the room and instructor candidates of the rest.
   */
  method BuildDomain(v: LectureVar, eligible: seq<Instructor>, rooms: seq<Room>,
                     timeslots: seq<SlotId>, info: map<SlotId, SlotInfo>)
    returns (dom: seq<Candidate>)
    ensures dom == SlotCandidates(v, timeslots, info, rooms, eligible)
  {
    dom := [];
    for ti := 0 to |timeslots|
      invariant dom == SlotCandidates(v, timeslots[..ti], info, rooms, eligible)
    {
      var t := timeslots[ti];
      assert timeslots[..ti + 1] == timeslots[..ti] + [t];
      if t !in info {
        continue;
      }
      var ts := info[t];
      if !SlotTypeMatches(ts.slotType, ts.duration, v.sessionType) {
        continue;
      }
      var cands := BuildRoomCandidates(v, t, rooms, eligible);
      dom := dom + cands;
    }
    assert timeslots[..|timeslots|] == timeslots;
  }

  /**
   * `build_vars_domains`: for each session row in order, skip it when it has no students or names
   * an unknown course; otherwise add its variable, pick the eligible instructors and build its domain.
   */
  method BuildVarsDomains(courses: set<CourseId>, instructors: seq<Instructor>, rooms: seq<Room>,
                          timeslots: seq<SlotId>, info: map<SlotId, SlotInfo>,
                          sessions: seq<SessionRow>, allowFallback: bool)
    returns (variables: seq<LectureVar>, domains: seq<seq<Candidate>>)
    ensures variables == Variables(sessions, courses)
    ensures |domains| == |variables|
    ensures forall k :: 0 <= k < |variables| ==>
              domains[k] == Domain(variables[k], instructors, rooms, timeslots, info, allowFallback)
  {
    variables, domains := [], [];
    for n := 0 to |sessions|
      invariant variables == Variables(sessions[..n], courses)
      invariant |domains| == |variables|
      invariant forall k :: 0 <= k < |variables| ==>
                  domains[k] == Domain(variables[k], instructors, rooms, timeslots, info, allowFallback)
    {
      var s := sessions[n];
      assert sessions[..n + 1] == sessions[..n] + [s];
      if s.students <= 0 {
        continue;
      }
      if s.course !in courses {
        continue;
      }
      var v := LectureVar(s.course, s.section, s.sessionType, s.students);
      variables := variables + [v];
      var eligible := Eligible(instructors, s.course, allowFallback);
      var dom := BuildDomain(v, eligible, rooms, timeslots, info);
      domains := domains + [dom];
    }
    assert sessions[..|sessions|] == sessions;
  }
}
