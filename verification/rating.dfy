/** The star-rating modal: which masjids this browser has rated, the star
    picker and the submission. */
module Rating {
  import opened Js
  import opened Records
  import Dashboard

  /** The modal's state: the picked stars (0 for none) and whether the
      shown masjid is in this browser's rated list. */
  datatype Picker = Picker(rating: int, alreadyRated: bool)

  /** The modal starts with no stars picked. */
  const Closed := Picker(0, false)

  /** The two effects that run when the modal is pointed at `m`: the rated
      flag is read from the stored list, and the masjid's own rating is
      prefilled when it is non-zero and the flag was set either before the
      change or after it (the prefill effect runs once with the old flag and
      again with the new one). */
  function Retarget(p: Picker, m: Masjid, stored: seq<string>): (r: Picker)
    ensures r.alreadyRated <==> m.id in stored
    ensures r.rating == (if (p.alreadyRated || m.id in stored) && m.rating.Some? && m.rating.value != 0
                         then m.rating.value else p.rating)
  {
    var flag := m.id in stored;
    var prefill := (p.alreadyRated || flag) && m.rating.Some? && m.rating.value != 0;
    Picker(if prefill then m.rating.value else p.rating, flag)
  }

  /** A modal that opens on a masjid this browser rated shows that masjid's
      rating; one that opens fresh on an unrated masjid shows no stars. */
  lemma RetargetFromClosed(m: Masjid, stored: seq<string>)
    ensures m.id in stored && m.rating.Some? && m.rating.value != 0 ==>
      Retarget(Closed, m, stored).rating == m.rating.value
    ensures m.id !in stored ==> Retarget(Closed, m, stored).rating == 0
  {
  }

  /** Clicking star `i` (counting from 0) picks `i + 1` stars. */
  function SelectStar(p: Picker, i: int): (r: Picker)
    requires 0 <= i < 5
    ensures 1 <= r.rating <= 5 && r.rating == i + 1
    ensures r.alreadyRated == p.alreadyRated
  {
    p.(rating := i + 1)
  }

  /** What a submission does: the stored rated list afterwards, the rating
      sent to the store for the masjid document (whether or not the store
      accepts it), the `onRated` call made and whether
      the modal closes. */
  datatype Submitted = Submitted(stored: seq<string>, sent: Option<int>, rated: Option<(string, int)>, closed: bool)

  /** `handleSubmit`. The button is disabled at 0 stars, so nothing happens
      then. `confirmed` is the answer to the "update your rating?" prompt
      and `saved` whether the store call succeeds; a failure is only
      logged. */
  function Submit(p: Picker, m: Masjid, stored: seq<string>, confirmed: bool, saved: bool): (r: Submitted)
    ensures p.rating == 0 ==> r == Submitted(stored, None, None, false)
    ensures p.rating != 0 && p.alreadyRated && !confirmed ==> r == Submitted(stored, None, None, true)
    ensures r.sent.Some? <==> p.rating != 0 && (!p.alreadyRated || confirmed)
    ensures r.sent.Some? ==> r.sent.value == p.rating
    ensures r.rated.Some? <==> r.sent.Some? && saved
    ensures r.rated.Some? ==> r.rated.value == (m.id, p.rating) && r.closed
    ensures r.rated.Some? && !p.alreadyRated ==> r.stored == stored + [m.id]
    ensures !(r.rated.Some? && !p.alreadyRated) ==> r.stored == stored
  {
    if p.rating == 0 then Submitted(stored, None, None, false)
    else if p.alreadyRated && !confirmed then Submitted(stored, None, None, true)
    else if !saved then Submitted(stored, Some(p.rating), None, false)
    else
      var after := if !p.alreadyRated then stored + [m.id] else stored;
      Submitted(after, Some(p.rating), Some((m.id, p.rating)), true)
  }

  predicate NoDuplicates(s: seq<string>) {
    forall i, j :: 0 <= i < j < |s| ==> s[i] != s[j]
  }

  /** When the flag reflects the stored list, a submission keeps the list
      free of duplicates and leaves the masjid in it exactly when it was
      rated now or before. */
  lemma SubmitKeepsRatedList(p: Picker, m: Masjid, stored: seq<string>, confirmed: bool, saved: bool)
    requires NoDuplicates(stored)
    requires p.alreadyRated <==> m.id in stored
    ensures NoDuplicates(Submit(p, m, stored, confirmed, saved).stored)
    ensures m.id in Submit(p, m, stored, confirmed, saved).stored
        <==> m.id in stored || Submit(p, m, stored, confirmed, saved).rated.Some?
  {
    var r := Submit(p, m, stored, confirmed, saved);
    if r.rated.Some? && !p.alreadyRated {
      forall i, j | 0 <= i < j < |r.stored| ensures r.stored[i] != r.stored[j] {
        if j == |stored| {
          assert r.stored[i] == stored[i];
          assert stored[i] in stored;
        }
      }
    }
  }

  /** A first rating, once saved, shows on the dashboard as the masjid's
      rating with one more review. */
  lemma FirstRatingShown(p: Picker, m: Masjid, stored: seq<string>, confirmed: bool, ms: seq<Masjid>, k: int)
    requires p.rating != 0 && !p.alreadyRated
    requires 0 <= k < |ms| && ms[k].id == m.id
    ensures
      var r := Submit(p, m, stored, confirmed, true);
      r.rated.Some? &&
      var shown := Dashboard.ApplyRating(ms, r.rated.value.0, r.rated.value.1);
      shown[k].rating == Some(p.rating) && ReviewsOrZero(shown[k]) == ReviewsOrZero(ms[k]) + 1
  {
  }

  // ---------------------------------------------------------------------------
  // A run of the mounted modal

  /** The star a click picks, counting from 0. */
  type StarIndex = i: int | 0 <= i < 5

  /** What the user does while the dashboard keeps the modal mounted: point
      it at a new masjid object (the dependency of both effects changes, so
      they run), click Rate again on the object it already holds (no effect
      runs), pick a star, or submit. */
  datatype Action = Point(target: Masjid) | Reopen | Star(i: StarIndex) | Send(confirmed: bool, saved: bool)

  /** The modal's picker, the masjid object it holds and the browser's
      stored rated list. */
  datatype Modal = Modal(picker: Picker, masjid: Masjid, stored: seq<string>)

  /** The first Rate click: the held masjid goes from none to `m`. */
  function FirstOpen(m: Masjid, stored: seq<string>): (s: Modal)
    ensures s.picker.alreadyRated <==> m.id in stored
    ensures s.masjid == m && s.stored == stored
  {
    Modal(Retarget(Closed, m, stored), m, stored)
  }

  /** One action as written: a submission changes the stored list but not the
      picker, and a repeated Rate click on the same object changes nothing. */
  function Step(s: Modal, a: Action): (r: Modal)
    ensures a.Reopen? ==> r == s
    ensures a.Send? ==> r.picker == s.picker && r.masjid == s.masjid
    ensures a.Send? ==> r.stored == Submit(s.picker, s.masjid, s.stored, a.confirmed, a.saved).stored
    ensures a.Point? ==> r.masjid == a.target && r.stored == s.stored && (r.picker.alreadyRated <==> a.target.id in s.stored)
    ensures a.Point? ==> r.picker == Retarget(s.picker, a.target, s.stored)
    ensures a.Star? ==> r == s.(picker := SelectStar(s.picker, a.i))
  {
    match a
    case Point(t) => Modal(Retarget(s.picker, t, s.stored), t, s.stored)
    case Reopen => s
    case Star(i) => s.(picker := SelectStar(s.picker, i))
    case Send(c, ok) => s.(stored := Submit(s.picker, s.masjid, s.stored, c, ok).stored)
  }

  function Run(s: Modal, acts: seq<Action>): Modal
    decreases |acts|
  {
    if acts == [] then s else Run(Step(s, acts[0]), acts[1..])
  }

  /** As written, a saved first rating followed by a second Rate click on the
      same object and a second saved submission stores the id twice: the flag
      is still unset, so there is no prompt and the id is appended again. */
  lemma StaleFlagAppendsTwice(s: Modal, first: bool, second: bool)
    requires s.picker.rating != 0 && !s.picker.alreadyRated
    ensures Step(Step(Step(s, Send(first, true)), Reopen), Send(second, true)).stored
         == s.stored + [s.masjid.id, s.masjid.id]
  {
  }

  /** The concrete run: rate a masjid three stars, click Rate again on the
      detail view and submit again. */
  lemma {:induction false} RepeatedRateDuplicates(m: Masjid)
    ensures Run(FirstOpen(m, []), [Star(2), Send(true, true), Reopen, Send(true, true)]).stored == [m.id, m.id]
    ensures !NoDuplicates(Run(FirstOpen(m, []), [Star(2), Send(true, true), Reopen, Send(true, true)]).stored)
  {
    var s0 := FirstOpen(m, []);
    var s1 := Step(s0, Star(2));
    assert s1.picker.rating == 3 && !s1.picker.alreadyRated;
    StaleFlagAppendsTwice(s1, true, true);
    var acts := [Star(2), Send(true, true), Reopen, Send(true, true)];
    assert Run(s0, acts) == Run(s1, acts[1..]);
    assert Run(s1, acts[1..]) == Step(Step(Step(s1, Send(true, true)), Reopen), Send(true, true)) by {
      var s2 := Step(s1, Send(true, true));
      var s3 := Step(s2, Reopen);
      var s4 := Step(s3, Send(true, true));
      assert acts[1..][1..][1..][1..] == [];
      assert Run(s4, []) == s4;
    }
    var r := [m.id, m.id];
    assert r[0] == r[1];
  }

  /** One action with the evident fix: a saved first rating also sets the
      flag, after which the prefill effect runs as it does on a retarget. */
  function StepFixed(s: Modal, a: Action): (r: Modal)
    ensures r.masjid == (if a.Point? then a.target else s.masjid)
    ensures a.Send? ==> r.stored == Submit(s.picker, s.masjid, s.stored, a.confirmed, a.saved).stored
    ensures a.Send? ==> (r.picker.alreadyRated <==>
      s.picker.alreadyRated || Submit(s.picker, s.masjid, s.stored, a.confirmed, a.saved).rated.Some?)
    ensures !a.Send? ==> r == Step(s, a)
  {
    if a.Send? then
      var out := Submit(s.picker, s.masjid, s.stored, a.confirmed, a.saved);
      if out.rated.Some? && !s.picker.alreadyRated
      then Modal(Retarget(s.picker, s.masjid, out.stored), s.masjid, out.stored)
      else s.(stored := out.stored)
    else Step(s, a)
  }

  function RunFixed(s: Modal, acts: seq<Action>): Modal
    decreases |acts|
  {
    if acts == [] then s else RunFixed(StepFixed(s, acts[0]), acts[1..])
  }

  /** With the fix, the same clicks store the id once, and the second
      submission is an update of the rating. */
  lemma {:induction false} RepeatedRateFixed(m: Masjid)
    ensures RunFixed(FirstOpen(m, []), [Star(2), Send(true, true), Reopen, Send(true, true)]).stored == [m.id]
  {
    var acts := [Star(2), Send(true, true), Reopen, Send(true, true)];
    var s1 := StepFixed(FirstOpen(m, []), Star(2));
    var s2 := StepFixed(s1, Send(true, true));
    var s3 := StepFixed(s2, Reopen);
    var s4 := StepFixed(s3, Send(true, true));
    assert s2.stored == [m.id] && s2.picker.alreadyRated;
    assert s4.stored == [m.id];
    assert acts[1..][1..][1..][1..] == [];
    assert RunFixed(s4, []) == s4;
  }

  /** The flag agrees with the stored list and the list has no duplicates. */
  predicate Settled(s: Modal) {
    (s.picker.alreadyRated <==> s.masjid.id in s.stored) && NoDuplicates(s.stored)
  }

  /** Every fixed action keeps the modal settled. */
  lemma StepFixedSettled(s: Modal, a: Action)
    requires Settled(s)
    ensures Settled(StepFixed(s, a))
  {
    if a.Send? {
      SubmitKeepsRatedList(s.picker, s.masjid, s.stored, a.confirmed, a.saved);
    }
  }

  /** With the fix, any run from the first Rate click keeps the stored list
      free of duplicates, whatever the user clicks. */
  lemma {:induction false} RunFixedKeepsRatedList(m: Masjid, stored: seq<string>, acts: seq<Action>)
    requires NoDuplicates(stored)
    ensures NoDuplicates(RunFixed(FirstOpen(m, stored), acts).stored)
  {
    RunFixedSettled(FirstOpen(m, stored), acts);
  }

  lemma {:induction false} RunFixedSettled(s: Modal, acts: seq<Action>)
    requires Settled(s)
    ensures Settled(RunFixed(s, acts))
    decreases |acts|
  {
    if acts != [] {
      StepFixedSettled(s, acts[0]);
      RunFixedSettled(StepFixed(s, acts[0]), acts[1..]);
    }
  }
}
