/** The entities the scheduling engine works on, after the loader has normalised the input tables. */
module Timetable {

  type CourseId = string
  type SectionId = string
  type RoomId = string
  type InstructorId = string
  type SlotId = string

  /** A slot this long or longer counts as a "long" slot (`MIN_LECTURE_DURATION`). */
  const MinLectureDuration: int := 80
  /** A slot this long or shorter counts as a "short" slot (`MAX_TUTORIAL_DURATION`). */
  const MaxTutorialDuration: int := 79
  /** Capacity assumed for a room id the room table does not know. */
  const UnknownRoomCapacity: int := 9999

  /** One row of the timeslot table: day label, minute range, duration and slot-type tag. */
  datatype SlotInfo = SlotInfo(day: string, startMin: int, endMin: int, duration: int, slotType: string)

  /** A room with its (lower-cased) type tag and its seat count. */
  datatype Room = Room(id: RoomId, roomType: string, capacity: int)

  /** An instructor with a (lower-cased) role and the set of courses they are qualified for. */
  datatype Instructor = Instructor(id: InstructorId, role: string, quals: set<CourseId>)

  /** One row of the session mapping, with the section's student count filled in. */
  datatype SessionRow = SessionRow(section: SectionId, course: CourseId, sessionType: string, students: int)

  /** A scheduling variable (`LectureVar`): one session to place. */
  datatype LectureVar = LectureVar(course: CourseId, section: SectionId, sessionType: string, students: int)

  /** One legal way to hold a session: `(slot, room, instructor, is-qualified, is-preferred)`. */
  datatype Candidate = Candidate(slot: SlotId, room: RoomId, instructor: InstructorId, qualified: bool, preferred: bool)

  datatype Option<T> = None | Some(value: T)

  /** No element occurs twice. */
  ghost predicate Distinct<T>(s: seq<T>)
  {
    forall p, q :: 0 <= p < q < |s| ==> s[p] != s[q]
  }
}
