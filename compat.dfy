/** The keyword tests that decide which rooms, slots and staff suit a session. */
module Compat {
  import opened Text
  import opened Timetable

  /** The room-type tag names one of the kinds of room the engine knows. */
  predicate KnownRoomType(rt: string)
  {
    Contains(rt, "classroom") || Contains(rt, "hall") || Contains(rt, "theater")
    || Contains(rt, "lab") || Contains(rt, "physics")
  }

  /**
   * `compatible_room_by_session`. Lab sessions try lab rooms first and lecture rooms as a fallback,
   * lectures and tutorials the other way round, anything else takes any known room; so all three
   * branches accept exactly the known room types, whatever the session type.
   */
  function CompatibleRoom(sessionType: string, roomType: string): (r: bool)
    ensures r <==> KnownRoomType(Lower(roomType))
  {
    var st := Lower(sessionType);
    var rt := Lower(roomType);
    if Contains(st, "lab") then
      if Contains(rt, "lab") || Contains(rt, "physics") then true
      else if Contains(rt, "classroom") || Contains(rt, "hall") || Contains(rt, "theater") then true
      else false
    else if Contains(st, "lecture") || Contains(st, "tutorial") then
      if Contains(rt, "classroom") || Contains(rt, "hall") || Contains(rt, "theater") then true
      else if Contains(rt, "lab") || Contains(rt, "physics") then true
      else false
    else
      KnownRoomType(rt)
  }

  /** A lower-cased session type names a short tutorial. */
  predicate IsShortTutorial(st: string)
  {
    Contains(st, "short") && Contains(st, "tutorial")
  }

  /** A lower-cased session type names a long tutorial. */
  predicate IsLongTutorial(st: string)
  {
    Contains(st, "long") && Contains(st, "tutorial")
  }

  /** A two-word phrase contains each of its words. */
  lemma PhraseHasWords(s: string, phrase: string, first: string, second: string)
    requires phrase == first + " " + second
    ensures Contains(s, phrase) ==> Contains(s, first) && Contains(s, second)
  {
    if !Contains(s, phrase) {
      return;
    }
    assert phrase[..|first|] == first;
    ContainsAt(phrase, first, 0);
    ContainsTransitive(s, phrase, first);
    assert phrase[|first| + 1..|first| + 1 + |second|] == second;
    ContainsAt(phrase, second, |first| + 1);
    ContainsTransitive(s, phrase, second);
  }

  /**
   * `slottype_matches_session`. A short tutorial needs a slot tagged "short" or at most
   * `MaxTutorialDuration` minutes long; a long tutorial needs a slot tagged "long" or at least
   * `MinLectureDuration` minutes long; every other session takes any slot. Testing for the phrase
   * "short tutorial" adds nothing to testing for both words, and likewise for "long tutorial".
   */
  function SlotTypeMatches(slotType: string, duration: int, sessionType: string): (r: bool)
    ensures IsShortTutorial(Lower(sessionType)) ==>
              (r <==> Contains(Lower(slotType), "short") || duration <= MaxTutorialDuration)
    ensures !IsShortTutorial(Lower(sessionType)) && IsLongTutorial(Lower(sessionType)) ==>
              (r <==> Contains(Lower(slotType), "long") || duration >= MinLectureDuration)
    ensures !IsShortTutorial(Lower(sessionType)) && !IsLongTutorial(Lower(sessionType)) ==> r
  {
    var st := Lower(sessionType);
    var sl := Lower(slotType);
    if Contains(st, "short tutorial") || (Contains(st, "short") && Contains(st, "tutorial")) then
      PhraseHasWords(st, "short tutorial", "short", "tutorial");
      if |sl| > 0 && Contains(sl, "short") then true else duration <= MaxTutorialDuration
    else if Contains(st, "long tutorial") || (Contains(st, "long") && Contains(st, "tutorial")) then
      PhraseHasWords(st, "long tutorial", "long", "tutorial");
      if |sl| > 0 && Contains(sl, "long") then true else duration >= MinLectureDuration
    else
      true
  }

  /** The session is hands-on (a lab or a tutorial), where junior staff are preferred. */
  predicate HandsOn(sessionType: string)
  {
    Contains(Lower(sessionType), "lab") || Contains(Lower(sessionType), "tutorial")
  }

  /** A role mentioning "assistant" mentions "ta". */
  lemma AssistantMentionsTa(role: string)
    ensures Contains(role, "assistant") ==> Contains(role, "ta")
  {
    if Contains(role, "assistant") {
      assert "assistant"[5..7] == "ta";
      ContainsAt("assistant", "ta", 5);
      ContainsTransitive(role, "assistant", "ta");
    }
  }

  /**
   * The is-preferred flag of a candidate: a hands-on session taught by someone whose role mentions
   * "assistant", "ta" or "lab". Since "assistant" itself contains "ta", that first test never
   * decides anything.
   */
  function Preferred(sessionType: string, role: string): (r: bool)
    ensures r <==> HandsOn(sessionType) && (Contains(role, "ta") || Contains(role, "lab"))
  {
    var preferAssistant := Contains(Lower(sessionType), "lab") || Contains(Lower(sessionType), "tutorial");
    AssistantMentionsTa(role);
    preferAssistant && (Contains(role, "assistant") || Contains(role, "ta") || Contains(role, "lab"))
  }
}
