/** The guided-lessons sidebar: seven lessons unlocked one at a time. A
    lesson can be opened when its position is at most the number of
    completed lessons, and "Mark as Completed" records the open lesson. The
    lesson opened is reported to the editor; here it is returned as its
    position. */
module GuidedLessons {
  import opened Wrappers

  /** The number of entries in the lesson list. */
  const LessonCount: nat := 7

  /** The states the sidebar can reach: the open lesson exists, is at most
      one past the completed ones, and the completed lessons are exactly the
      first few, in order. */
  predicate Progress(current: nat, completed: seq<nat>) {
    current < LessonCount && current <= |completed| <= LessonCount &&
    forall i :: 0 <= i < |completed| ==> completed[i] == i
  }

  /** The completion list after `handleComplete`: the open lesson is added
      once. Since only the next lesson can be new, the list grows by exactly
      that lesson or not at all. */
  function Completing(current: nat, completed: seq<nat>): (r: seq<nat>)
    requires Progress(current, completed)
    ensures Progress(current, r)
    ensures current in r
    ensures forall j :: j in completed ==> j in r
    ensures r == completed || (current == |completed| && r == completed + [current])
  {
    assert current < |completed| ==> completed[current] == current;
    if current in completed then completed else completed + [current]
  }

  /** Completing every lesson, opening each in turn, unlocks them all. */
  lemma {:induction false} WalkThrough(k: nat)
    requires k <= LessonCount
    ensures Progress(if k < LessonCount then k else LessonCount - 1, seq(k, i => i))
    ensures k < LessonCount ==> Completing(k, seq(k, i => i)) == seq(k + 1, i => i)
  {
    if k < LessonCount {
      var done := seq(k, i => i);
      assert k !in done;
      assert done + [k] == seq(k + 1, i => i);
    }
  }

  class GuidedLessons {
    var current: nat
    var completed: seq<nat>

    ghost predicate Valid()
      reads this
    {
      Progress(current, completed)
    }

    /** The first lesson open, nothing completed. */
    constructor ()
      ensures Valid() && current == 0 && completed == []
    {
      current, completed := 0, [];
    }

    /** `handleSelectLesson`: an unlocked lesson becomes the open one and is
        reported; a locked one changes nothing. */
    method HandleSelectLesson(index: nat) returns (shown: Option<nat>)
      requires Valid() && index < LessonCount
      modifies this
      ensures Valid() && completed == old(completed)
      ensures index <= |completed| ==> current == index && shown == Some(index)
      ensures index > |completed| ==> current == old(current) && shown.None?
    {
      if index <= |completed| {
        current := index;
        shown := Some(index);
      } else {
        shown := None;
      }
    }

    /** `handleComplete`: the open lesson is recorded as completed. */
    method HandleComplete()
      requires Valid()
      modifies this
      ensures Valid() && current == old(current)
      ensures completed == Completing(old(current), old(completed))
    {
      ghost var next := Completing(current, completed);
      if current !in completed {
        completed := completed + [current];
      }
    }

    /** `handleReset`: no lesson completed, the first one open and
        reported. */
    method HandleReset() returns (shown: nat)
      modifies this
      ensures Valid() && current == 0 && completed == [] && shown == 0
    {
      completed, current := [], 0;
      shown := 0;
    }

    /** `isLocked`: a lesson is open to selection exactly when it is
        completed or it is the first not yet completed; the open lesson is
        never locked. */
    function IsLocked(index: nat): (locked: bool)
      reads this
      requires Valid()
      ensures !locked <==> index in completed || index == |completed|
      ensures index == current ==> !locked
    {
      assert index < |completed| ==> completed[index] == index;
      index > |completed|
    }
  }
}
