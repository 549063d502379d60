/** The walk over the students of every assignment in search of the next one with
    attachments (lines 359-382 of the handler, with its direct recursive calls).
    The roster lists, per assignment in dictionary order, the FilesAttached flag of each
    student in dictionary order. */
module AttachmentWalk {

  /** Where the walk stops.
      Finished:  past the last assignment, with the attachment flag the handler then
                 holds; the handler goes idle.
      Arrived:   at a student with attachments; the handler opens their grading page.
      Stuck:     an ElementAt out of range was hit, with the indices and the attachment
                 flag the handler holds when it throws. */
  datatype WalkEnd = Finished(present: bool) | Arrived(a: int, s: nat) | Stuck(a: int, s: nat, present: bool)

  /** Student s of assignment a comes strictly before student s2 of assignment a2. */
  predicate Before(a: int, s: int, a2: int, s2: int) {
    a < a2 || (a == a2 && s < s2)
  }

  /** Student s of assignment a exists and has attachments. */
  predicate Attached(r: seq<seq<bool>>, a: int, s: int) {
    0 <= a < |r| && 0 <= s < |r[a]| && r[a][s]
  }

  /** One pass of the attachment step after the student (a, s) has been handled: advance the
      student index, move on to the next assignment when it runs past the end, stop when
      the assignments run out, and otherwise stop at a student with attachments or skip
      over one without (the recursive call, with the flag then false). */
  function Walk(r: seq<seq<bool>>, a: int, s: nat, present: bool): WalkEnd
    decreases |r| - a, if 0 <= a < |r| then |r[a]| - s else 0
  {
    if !(0 <= a < |r|) then Stuck(a, s + 1, present)
    else
      var next := if s + 1 >= |r[a]| then (a + 1, 0) else (a, s + 1);
      if next.0 >= |r| then Finished(present)
      else if next.1 >= |r[next.0]| then Stuck(next.0, next.1, present)
      else if r[next.0][next.1] then Arrived(next.0, next.1)
      else Walk(r, next.0, next.1, false)
  }

  /** No student with attachments lies strictly between (a, s) and the pair the walk
      moves to next. */
  lemma NothingBetweenOneStep(r: seq<seq<bool>>, a: int, s: nat)
    requires 0 <= a < |r|
    ensures var next := if s + 1 >= |r[a]| then (a + 1, 0) else (a, s + 1);
      forall a3, s3 :: Before(a, s, a3, s3) && Before(a3, s3, next.0, next.1) ==> !Attached(r, a3, s3)
  {
  }

  /** When the walk arrives, it arrives strictly later, at a student with attachments, and
      every student strictly in between has none. */
  lemma {:induction false} WalkArrivesAtNextAttached(r: seq<seq<bool>>, a: int, s: nat, present: bool)
    requires Walk(r, a, s, present).Arrived?
    ensures var w := Walk(r, a, s, present);
      && Before(a, s, w.a, w.s)
      && Attached(r, w.a, w.s)
      && forall a3, s3 :: Before(a, s, a3, s3) && Before(a3, s3, w.a, w.s) ==> !Attached(r, a3, s3)
    decreases |r| - a, if 0 <= a < |r| then |r[a]| - s else 0
  {
    var next := if s + 1 >= |r[a]| then (a + 1, 0) else (a, s + 1);
    NothingBetweenOneStep(r, a, s);
    if !r[next.0][next.1] {
      WalkArrivesAtNextAttached(r, next.0, next.1, false);
    }
  }

  /** When the walk finishes, no student after (a, s) has attachments. */
  lemma {:induction false} WalkFinishesPastLastAttached(r: seq<seq<bool>>, a: int, s: nat, present: bool)
    requires Walk(r, a, s, present).Finished?
    ensures forall a3, s3 :: Before(a, s, a3, s3) ==> !Attached(r, a3, s3)
    decreases |r| - a, if 0 <= a < |r| then |r[a]| - s else 0
  {
    var next := if s + 1 >= |r[a]| then (a + 1, 0) else (a, s + 1);
    NothingBetweenOneStep(r, a, s);
    if next.0 < |r| {
      WalkFinishesPastLastAttached(r, next.0, next.1, false);
    }
  }

  /** The walk gets stuck only when it starts outside the assignments, or when it reaches,
      with no student with attachments on the way, an assignment without students. */
  lemma {:induction false} WalkStuckOnlyAtEmptyAssignment(r: seq<seq<bool>>, a: int, s: nat, present: bool)
    requires Walk(r, a, s, present).Stuck?
    ensures var w := Walk(r, a, s, present);
      || (!(0 <= a < |r|) && w == Stuck(a, s + 1, present))
      || (&& a < w.a < |r| && w.s == 0 && |r[w.a]| == 0
          && (w.present ==> present && w.a == a + 1)
          && forall a3, s3 :: Before(a, s, a3, s3) && Before(a3, s3, w.a, w.s) ==> !Attached(r, a3, s3))
    decreases |r| - a, if 0 <= a < |r| then |r[a]| - s else 0
  {
    if 0 <= a < |r| {
      var next := if s + 1 >= |r[a]| then (a + 1, 0) else (a, s + 1);
      NothingBetweenOneStep(r, a, s);
      if next.1 < |r[next.0]| {
        WalkStuckOnlyAtEmptyAssignment(r, next.0, next.1, false);
      }
    }
  }
}
