# University timetable CSP — a Dafny model of the scheduling core

`timetable_csp.py` builds a weekly university timetable as a constraint-satisfaction problem.
Every usable session row (a course, a section, a session type such as Lecture, Lab or
Short/Long Tutorial, and a student count) becomes a variable. Its domain is the list of
(timeslot, room, instructor) candidates that pass the hard filters:
- the slot type suits the session;
- the room type suits the session;
- the room seats every student;
- the instructor is qualified, or anyone when nobody is and fallback is on.

A greedy solver then visits the variables most-constrained first. For each one it commits the
first candidate, in preference order, whose slot does not coincide with or overlap a slot already
held by the same room, instructor or section. It never backtracks.

The model covers:

- **Timetable** (`timetable.dfy`): the entities (slot records, rooms, instructors, session rows,
  variables, candidate tuples) and the constants 80, 79 and 9999.
- **Text** (`text.dfy`): Python's `str.lower` on ASCII and substring search (`in`).
- **Compat** (`compat.dfy`): `compatible_room_by_session`, `slottype_matches_session` and the
  assistant-preference flag. Each is a function whose contract gives its exact meaning.
- **OverlapIndex** (`overlap.dfy`): the overlap-map block of `preprocess`. It is a method with
  the source's nested loops, proved to build exactly the symmetric relation "same day,
  intersecting minutes" between different entries of the slot list. A slot listed once is never
  in its own set. An id listed twice is in its own set exactly when its record clashes with
  itself: a non-empty day and a start before its end.
- **Ordering** (`ordering.dfy`): Python's stable `sorted`, as a function over positions ranked
  by (key, position), with a proof that this order is the only one sorted that way.
- **Domains** (`domains.dfy`): `build_vars_domains`. The loops over sessions, slots, rooms and
  instructors are methods proved equal to specification functions. Soundness, completeness and
  the fallback rule are proved about those functions.
- **Solver** (`solver.dfy`): `solve_timetable`. The method's loop is tied to `Run`, a fold of
  one-variable `Step`s. Lemmas about `Run` give:
  - the partition of variables into committed and failed;
  - no double booking;
  - finality of decisions;
  - the first-feasible choice rule;
  - the usage indices hold exactly the committed slots, so a variable fails exactly when every
    candidate clashes with an earlier session sharing its room, instructor or section.
- **Clock** (`clock.dfy`): `mins_to_hhmm`, with a read-back proof.
- **Pipeline** (`pipeline.dfy`): `main` from the preprocessed tables on, with the end-to-end
  guarantee stated on the slots themselves.

A `LectureVar` defines no equality or hashing, so the source's `domains` and `assigned`
dictionaries are keyed by object identity. Two equal session rows are two variables. The model
names each variable by its position in the variable list:
- `domains` is a sequence parallel to `variables`;
- the solver's results are a map from positions to candidates and a list of failed positions.

## Model

| member | source | states |
|---|---|---|
| Text.Lower | timetable_csp.py:63-64 | lower-casing keeps the length, turns each upper-case ASCII letter into its lower-case counterpart, leaves no upper-case letter and changes no other character |
| Compat.CompatibleRoom | timetable_csp.py:57-85 | a room suits a session exactly when its lower-cased type names a classroom, hall, theater, lab or physics room; the lab, lecture/tutorial and fallback branches accept the same rooms, so the session type never matters |
| Compat.PhraseHasWords | timetable_csp.py:97-101 | a type containing the phrase "short tutorial" (or "long tutorial") also contains both words, so the phrase test adds nothing to the two-word test |
| Compat.SlotTypeMatches | timetable_csp.py:87-106 | short tutorial (both words): the slot type says "short" or the slot lasts at most 79 minutes; otherwise long tutorial: the slot type says "long" or it lasts at least 80; any other session accepts every slot |
| Compat.AssistantMentionsTa | timetable_csp.py:333 | a role that mentions "assistant" mentions "ta", so the "assistant" test never decides the flag |
| Compat.Preferred | timetable_csp.py:311-333 | the preference flag is set exactly when the session type contains "lab" or "tutorial" and the role contains "ta" or "lab" (every role containing "assistant" contains "ta") |
| OverlapIndex.SlotsConflict | timetable_csp.py:226-227 | two slots conflict only on the same non-empty day (ignoring case); for non-empty minute ranges, exactly when the days agree and some minute lies in both ranges |
| OverlapIndex.AllPairs | timetable_csp.py:222-224 | the i < j double loop meets a pair of ids exactly when both are listed and they are different ids or one id listed twice |
| OverlapIndex.BuildOverlap | timetable_csp.py:221-229 | the map has one entry per listed slot, and b is in a's set exactly when b is listed, the pair comes from two different positions, both days are non-empty and equal ignoring case, and the minute ranges intersect |
| OverlapIndex.IndexSymmetric | timetable_csp.py:227-229 | the overlap map is symmetric |
| OverlapIndex.IndexExact | timetable_csp.py:221-229 | with distinct slot ids, b is in a's set exactly when a and b are different clashing slots, and no slot is in its own set |
| Ordering.StableOrder | timetable_csp.py:365 | the sorted positions are each position exactly once, ordered by key, equal keys in input order |
| Ordering.OrderedPermutes | timetable_csp.py:378 | listing a whole list in sorted order gives back the same elements, each exactly as often |
| Ordering.SortedUnique | timetable_csp.py:378 | two arrangements of the same positions both sorted by (key, position) are equal: the stable sort's result is determined |
| Domains.Variables | timetable_csp.py:290-304 | there are no more variables than rows, each with a positive student count and a known course |
| Domains.VariablesExact | timetable_csp.py:296-304 | a variable exists exactly for each row with positive students and a known course; other rows are skipped |
| Domains.Qualified | timetable_csp.py:307 | an instructor is listed exactly when the course is among their qualifications |
| Domains.Eligible | timetable_csp.py:307-309 | the qualified instructors when there are any; otherwise every instructor with fallback on and nobody with it off |
| Domains.RoomCandidates | timetable_csp.py:321-334 | no contract of its own: RoomCandidatesSound and RoomCandidatesComplete state which candidates it holds |
| Domains.RoomCandidatesSound | timetable_csp.py:321-334 | every candidate of one slot's room loop has that slot, a room of the list that suits and seats the session, and an instructor of the list with the flags computed from them |
| Domains.RoomCandidatesComplete | timetable_csp.py:321-334 | every suitable room that seats the session, paired with every listed instructor, gives a candidate |
| Domains.SlotCandidates | timetable_csp.py:313-334 | no contract of its own: SlotCandidatesSound and SlotCandidatesComplete state which candidates it holds |
| Domains.SlotCandidatesSound | timetable_csp.py:313-334 | every candidate of the slot loop meets every hard filter for a listed, known slot |
| Domains.SlotCandidatesComplete | timetable_csp.py:313-334 | every known listed slot of a suitable type, with every suitable room and listed instructor, gives a candidate |
| Domains.Domain | timetable_csp.py:306-334 | no contract of its own: DomainSound, DomainComplete and FallbackRule state which candidates it holds, and BuildDomain their order |
| Domains.DomainSound | timetable_csp.py:313-334 | every candidate has a listed, known slot of a suitable type, a room that suits and seats the session, and an eligible instructor, with the qualified and preferred flags computed from that instructor |
| Domains.DomainComplete | timetable_csp.py:313-334 | every combination of a suitable known slot, a suitable room that seats everyone and an eligible instructor is a candidate |
| Domains.FallbackRule | timetable_csp.py:307-309 | if someone is qualified every candidate is flagged qualified; if nobody is, none is, and with fallback off the domain is empty |
| Domains.BuildRoomCandidates | timetable_csp.py:321-334 | for one slot, the room and instructor loops produce exactly the candidates of every suitable room that seats the session, each with every eligible instructor, in room order |
| Domains.BuildDomain | timetable_csp.py:306-334 | the slot, room and instructor loops produce exactly the specified domain, in slot, room, instructor order |
| Domains.BuildVarsDomains | timetable_csp.py:286-352 | the variables are the kept rows in order, and each has exactly its specified domain |
| Solver.Used | timetable_csp.py:386-400 | no contract of its own (a `defaultdict(set)` read: an unwritten key holds the empty set); Commit and RunUsageExact state what it returns |
| Solver.Feasible | timetable_csp.py:384-405 | a candidate that passes the three conflict checks has a slot not yet held by its room, its instructor or the section |
| Solver.Commit | timetable_csp.py:408-411 | committing adds the slot to its room's, its instructor's and its section's used sets and changes no other set |
| Solver.FirstFeasible | timetable_csp.py:381-413 | the chosen index is a candidate that passes all three conflict checks with every earlier candidate failing one; no index means none passes |
| Solver.CapacityOf | timetable_csp.py:376 | the capacity of a room with that id, or 9999 when no room has it |
| Solver.Slack | timetable_csp.py:374-376 | no contract of its own: the distance from the room's capacity (CapacityOf) to the student count; SortedDomain and DomainOrderSorted state its use |
| Solver.DomainOrderSorted | timetable_csp.py:374-378 | listing a domain by its sort keys puts preferred candidates before the others, and within equal preference orders by non-decreasing distance between room capacity and student count |
| Solver.SortedDomain | timetable_csp.py:374-378 | a rearrangement of the domain (the same candidates, each as often), preferred ones first, and within equal preference by non-decreasing distance between room capacity and student count |
| Solver.VariableOrder | timetable_csp.py:365 | every variable visited exactly once, by descending student count, then ascending domain size, then input order |
| Solver.AnyClash | timetable_csp.py:386-389 | the scan reports a conflict exactly when some used slot equals the slot or has it in its overlap set |
| Solver.PickCandidate | timetable_csp.py:380-413 | the candidate scan stops at exactly the first candidate passing the room, instructor and section checks |
| Solver.StepChoosesFirstFeasible | timetable_csp.py:368-417 | one variable is committed exactly when its domain is non-empty and some candidate is feasible, and then to the first; otherwise it is appended to the failures |
| Solver.Step | timetable_csp.py:368-416 | handling one variable either appends it to the failures and changes nothing else, or commits it to a candidate of its own domain and records that slot for its room, instructor and section |
| Solver.Run | timetable_csp.py:367-417 | the loop over the visiting order as a fold of steps: every visited variable is committed or failed, and no other variable is reported |
| Solver.RunPartition | timetable_csp.py:358-419 | every visited variable is committed or failed and never both; nothing else is reported; failures have no repeats |
| Solver.RunCovers | timetable_csp.py:408-411 | every commitment is a candidate of the variable's own domain, and its slot is recorded in the room's, the instructor's and the section's used sets |
| Solver.RunUsageExact | timetable_csp.py:363-411 | the usage indices hold exactly the slots committed for each room, instructor and section, and nothing else |
| Solver.FeasibleExact | timetable_csp.py:384-405 | against those indices, a candidate passes the three checks exactly when no committed session sharing its room, instructor or section holds the same or an overlapping slot |
| Solver.RunFailsOnlyOnClash | timetable_csp.py:380-417 | a visited variable fails exactly when every candidate of its domain clashes with an earlier session sharing its room, instructor or section; otherwise it gets a candidate clashing with none, and every candidate tried before it clashes with one |
| Solver.CommitKeepsNoClash | timetable_csp.py:383-411 | committing a candidate that passed the three checks keeps the assignment free of double bookings |
| Solver.RunNoClash | timetable_csp.py:383-411 | with a symmetric overlap map, two different committed variables sharing a room, instructor or section have different slots that do not overlap |
| Solver.RunExtends | timetable_csp.py:367-417 | handling more variables never changes or removes a commitment and never removes a failure |
| Solver.RunChoosesFirstFeasible | timetable_csp.py:367-417 | the i-th visited variable is committed exactly when its domain is non-empty and some candidate is feasible against the usage left by the earlier ones, and then to the first such candidate |
| Solver.Solve | timetable_csp.py:357-419 | the solver's result is the fold over the visiting order, so every variable is committed or failed (never both), failures are unrepeated, commitments come from the domains, and with a symmetric overlap map nothing is double-booked |
| Clock.Pad2 | timetable_csp.py:46 | `{:02d}`: at least two characters, exactly two digits for 0 to 99, a leading minus for negatives |
| Clock.MinsToHhmm | timetable_csp.py:39-46 | an unconvertible value gives "N/A"; otherwise an hours part, a colon and two minute characters |
| Clock.DigitsRoundTrip | timetable_csp.py:46 | reading a formatted number's digits back gives the number |
| Clock.HhmmRoundTrip | timetable_csp.py:39-46 | for a non-negative count the text is digits, a colon and two digits, and hours times 60 plus minutes, minutes below 60, gives the count back |
| Clock.NegativeHours | timetable_csp.py:44-46 | a negative minute count renders with a leading minus (its hours part, rounded down, is negative) |
| Pipeline.Schedule | timetable_csp.py:475-487 | the variables are the kept rows, the overlap index is the one the timeslots define, each domain is the specified one, and the assignment and failures are exactly the greedy fold (Run) over the solver's visiting order; hence each is committed or failed, never both; each commitment passes the slot-type, room, capacity and instructor rules; no two sessions sharing a room, instructor or section get the same or conflicting slots |

## Left out

- CSV loading, column discovery (`find_col`), `safe_str`, `int_safe` and the rest of
  `preprocess` are not modelled. The tables arrive parsed:
  - rooms and instructors as lists with unique ids, standing for the dictionaries;
  - slot records as a map;
  - student counts already as integers.
- `export_results`, every `print`, and `main`'s "data loading failed" exit are left out. They
  are I/O.
- `ROOM_CAPACITY_RELAX` is fixed at its value 0.0, so its rounding branch is not modelled.
  `ALLOW_FALLBACK` is a parameter, so both settings are covered.
- Text.Lower: lower-cases ASCII letters only. Python's `str.lower` also folds non-ASCII letters.
- Solver.SortedDomain: the contract does not say which of two equally ranked candidates comes
  first. The order is `Ordering.StableOrder`'s, which keeps input order on ties.
- Solver.AnyClash: it walks a set in an unspecified order, as Python does. Only the verdict is
  specified, and it does not depend on the order.
- Reading a `defaultdict` in the solver inserts an empty set for an unseen key. The model reads
  an absent key as the empty set and does not insert it. No result depends on this.
- Rooms and instructors are lists standing for dictionaries keyed by id, so their ids are taken to
  be unique. With a repeated id the model keeps every copy (`Domains.RoomCandidates` makes
  candidates for each, `Solver.CapacityOf` reads the first), where the dictionary keeps only the
  last row read.
- The `overlap_map` argument of `build_vars_domains` and the `timeslot_info` argument of
  `solve_timetable` are unused in the source, so the model omits them.
- Instructor names are not modelled: they feed only the exported solution table
  (`export_results`), which is left out. `LectureVar.name` feeds only messages. Courses are
  reduced to the set of known course ids.
- Clock.MinsToHhmm: the `int(m)` conversion is modelled by its outcome. `None` stands for a value
  Python cannot convert.
