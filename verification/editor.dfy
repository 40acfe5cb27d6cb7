/** The public prayer-time update request editor: a phone step, then an
    edit step whose submission stores a pending request for the admins. */
module UpdateEditor {
  import opened Js
  import opened Records
  import opened Moderation

  datatype Step = PhoneStep | EditStep

  /** The editor's state. `times` is the schedule being edited. */
  datatype Editor = Editor(step: Step, phone: string, times: Schedule, reason: string, error: string, success: bool)

  /** The schedule offered when the masjid has none. */
  const DefaultTimes: Schedule :=
    map["fajr" := "05:30", "dhuhr" := "12:15", "asr" := "15:30", "maghrib" := "18:10", "isha" := "19:25"]

  /** The spam check's count of today's requests, fixed at 0 in the
      component. */
  const RecentRequestsCount := 0

  const EmptyPhone := "Please enter your phone number"
  const InvalidPhone := "Please enter a valid phone number"
  const DailyLimit := "You have reached the daily limit of 3 requests. Please try again tomorrow."
  const NoChanges := "Please modify at least one prayer time before submitting"
  const SubmitFailed := "Failed to submit request. Please try again."

  /** The editor as it opens for a masjid. */
  function Open(m: Masjid): (e: Editor)
    ensures e.step == PhoneStep && e.phone == "" && e.reason == "" && e.error == "" && !e.success
    ensures m.prayerTimes.Some? ==> e.times == m.prayerTimes.value
    ensures m.prayerTimes.None? ==> e.times == DefaultTimes
  {
    Editor(PhoneStep, "", m.prayerTimes.GetOr(DefaultTimes), "", "", false)
  }

  // ---------------------------------------------------------------------------
  // The phone step

  /** A character of the class `[\d\s-()]`: a digit, white space, `-`, `(`
      or `)`. */
  predicate PhoneChar(c: char) {
    IsDigit(c) || IsSpace(c) || c == '-' || c == '(' || c == ')'
  }

  /** `/^\+?[\d\s-()]{10,15}$/` matches `phone`. */
  predicate IsValidPhone(phone: string) {
    10 <= |PhoneBody(phone)| <= 15 && forall i :: 0 <= i < |PhoneBody(phone)| ==> PhoneChar(PhoneBody(phone)[i])
  }

  /** The number without its leading `+`, if any. */
  function PhoneBody(phone: string): string {
    if phone != [] && phone[0] == '+' then phone[1..] else phone
  }

  /** Reading of the pattern: the first `k` characters are the optional `+`
      and the remaining 10 to 15 characters are all of the class. */
  ghost predicate MatchesAt(phone: string, k: int) {
    && 0 <= k <= 1 && k <= |phone|
    && (k == 1 ==> phone[0] == '+')
    && 10 <= |phone| - k <= 15
    && forall i :: k <= i < |phone| ==> PhoneChar(phone[i])
  }

  /** The check agrees with the pattern, in both directions. */
  lemma IsValidPhoneMatches(phone: string)
    ensures IsValidPhone(phone) <==> exists k :: MatchesAt(phone, k)
  {
    if IsValidPhone(phone) {
      var k := if phone != [] && phone[0] == '+' then 1 else 0;
      var body := PhoneBody(phone);
      assert body == phone[k..];
      forall i | k <= i < |phone| ensures PhoneChar(phone[i]) {
        assert phone[i] == body[i - k];
      }
      assert MatchesAt(phone, k);
    }
    if k :| MatchesAt(phone, k) {
      if k == 0 {
        assert PhoneChar(phone[0]);
        assert phone[0] != '+';
      }
      assert k == (if phone != [] && phone[0] == '+' then 1 else 0);
      var body := phone[k..];
      forall i | 0 <= i < |body| ensures PhoneChar(body[i]) {
        assert body[i] == phone[i + k];
      }
    }
  }

  /** `handlePhoneSubmit`: move on to editing only for a non-blank, valid
      number. */
  function SubmitPhone(e: Editor): (r: Editor)
    requires e.step == PhoneStep
    ensures r.step == EditStep <==> Trim(e.phone) != "" && IsValidPhone(e.phone)
    ensures r.step != EditStep ==> r.step == e.step
    ensures Trim(e.phone) == "" ==> r.error == EmptyPhone
    ensures Trim(e.phone) != "" && !IsValidPhone(e.phone) ==> r.error == InvalidPhone
    ensures r.step == EditStep ==> r.error == ""
    ensures r.(step := e.step, error := e.error) == e
  {
    if Trim(e.phone) == "" then e.(error := EmptyPhone)
    else if !IsValidPhone(e.phone) then e.(error := InvalidPhone)
    else if RecentRequestsCount >= 3 then e.(error := DailyLimit)
    else e.(step := EditStep, error := "")
  }

  /** Ten or more spaces match the pattern, but the blank check runs first. */
  lemma BlankPhoneRejected(e: Editor)
    requires e.step == PhoneStep && e.phone == "          "
    ensures IsValidPhone(e.phone)
    ensures SubmitPhone(e).error == EmptyPhone && SubmitPhone(e).step == PhoneStep
  {
    assert PhoneBody(e.phone) == e.phone;
    assert forall i :: 0 <= i < |e.phone| ==> e.phone[i] == ' ';
    TrimEmptyIffBlank(e.phone);
  }

  // ---------------------------------------------------------------------------
  // The edit step

  /** Typing into one prayer's time field. */
  function EditTime(e: Editor, prayer: string, value: string): (r: Editor)
    ensures prayer in r.times && r.times[prayer] == value
    ensures forall p :: p != prayer ==> (p in r.times <==> p in e.times)
    ensures forall p :: p != prayer && p in e.times ==> r.times[p] == e.times[p]
    ensures r.(times := e.times) == e
  {
    e.(times := e.times[prayer := value])
  }

  /** The Back button returns to the phone step, keeping the edits. */
  function Back(e: Editor): (r: Editor)
    ensures r.step == PhoneStep && r.(step := e.step) == e
  {
    e.(step := PhoneStep)
  }

  /** `getChangedTimes()` as written: it reads `masjid.prayerTimes[prayer]`
      for every edited prayer, which throws when the masjid has no
      schedule. */
  function ChangedTimes(times: Schedule, stored: Option<Schedule>): (r: Result<set<string>>)
    ensures r.Thrown? <==> stored.None? && times != map[]
    ensures r.Ok? && stored.Some? ==>
      forall p :: p in r.value <==> p in times && (p !in stored.value || stored.value[p] != times[p])
  {
    if stored.None? then
      if times == map[] then Ok({}) else Thrown(TypeError)
    else
      Ok(set p | p in times && (p !in stored.value || stored.value[p] != times[p]))
  }

  /** `hasChanges` as written, with the same property access. */
  function HasChanges(times: Schedule, stored: Option<Schedule>): (r: Result<bool>)
    ensures r.Thrown? <==> stored.None? && times != map[]
    ensures r.Ok? && stored.Some? ==>
      (r.value <==> exists p :: p in times && (p !in stored.value || stored.value[p] != times[p]))
  {
    if stored.None? then
      if times == map[] then Ok(false) else Thrown(TypeError)
    else
      Ok(exists p :: p in times && (p !in stored.value || stored.value[p] != times[p]))
  }

  /** `hasChanges` and `getChangedTimes` agree: there are changes exactly
      when the listed changes are not empty. */
  lemma HasChangesIffChangedTimes(times: Schedule, stored: Option<Schedule>)
    ensures HasChanges(times, stored).Ok? <==> ChangedTimes(times, stored).Ok?
    ensures HasChanges(times, stored).Ok? ==>
      (HasChanges(times, stored).value <==> ChangedTimes(times, stored).value != {})
  {
    if stored.Some? && HasChanges(times, stored).value {
      var p :| p in times && (p !in stored.value || stored.value[p] != times[p]);
      assert p in ChangedTimes(times, stored).value;
    }
  }

  /** For a masjid without a schedule the editor opens on the default
      times, and from then on checking for changes throws. The dashboard
      opens the editor only for masjids that have a schedule. */
  lemma NoScheduleThrows(m: Masjid, prayer: string, value: string)
    requires m.prayerTimes.None?
    ensures HasChanges(Open(m).times, m.prayerTimes).Thrown?
    ensures HasChanges(EditTime(Open(m), prayer, value).times, m.prayerTimes).Thrown?
  {
    assert "fajr" in Open(m).times;
  }

  /** The changed prayers as the admin's approval compares them, a missing
      schedule reading as `undefined` (`currentTimes?.[prayer]`). */
  function ChangedKeys(times: Schedule, stored: Option<Schedule>): (r: set<string>)
    ensures forall p :: p in r <==> p in times && Differs(times, stored, p)
  {
    Changed(times, stored).Keys
  }

  /** With a stored schedule the editor's change check and list agree with
      the approval's diff; without one the diff counts every edited prayer
      as changed. */
  lemma ChangedKeysAgree(times: Schedule, stored: Option<Schedule>)
    ensures stored.Some? ==> ChangedTimes(times, stored) == Ok(ChangedKeys(times, stored))
    ensures stored.Some? ==> HasChanges(times, stored) == Ok(ChangedKeys(times, stored) != {})
    ensures stored.None? ==> ChangedKeys(times, stored) == times.Keys
  {
    HasChangesIffChangedTimes(times, stored);
    if stored.Some? {
      assert ChangedTimes(times, stored).value == ChangedKeys(times, stored);
    }
  }

  // ---------------------------------------------------------------------------
  // handleRequestSubmit

  /** The editor after a submission, and the request document it stored. */
  datatype Submission = Submission(editor: Editor, stored: Option<UpdateRequest>)

  /** The request document built from the editor. The store assigns `id`;
      `now` stands for the clock. */
  function RequestDoc(e: Editor, m: Masjid, id: string, now: int): (q: UpdateRequest)
    ensures q.masjidId == m.id && q.masjidName == m.name
    ensures q.phoneNumber == Trim(e.phone) && q.reason == Some(Trim(e.reason))
    ensures q.currentTimes == m.prayerTimes && q.requestedTimes == e.times
    ensures q.status == "pending" && q.createdAt == now && q.processedAt.None?
  {
    UpdateRequest(id, m.id, m.name, Trim(e.phone), m.prayerTimes, e.times, Some(Trim(e.reason)),
                  "pending", now, None)
  }

  /** The message for a failed store call. */
  function FailureMessage(message: string): (r: string)
    ensures r == DailyLimit <==> Includes(message, "Maximum 3 requests")
    ensures r != DailyLimit ==> r == SubmitFailed
  {
    if Includes(message, "Maximum 3 requests") then DailyLimit else SubmitFailed
  }

  /** `handleRequestSubmit`. The change check runs before the `try`, so
      when it throws the handler rejects and nothing is stored.
      `requestAdded` and `phoneTracked` say whether the two `addDoc` calls
      succeed and `message` is the failure's message; a failure to notify
      the admins is ignored. */
  function SubmitRequest(e: Editor, m: Masjid, id: string, now: int,
                         requestAdded: bool, phoneTracked: bool, message: string): (s: Result<Submission>)
    requires e.step == EditStep && !e.success
    ensures s.Thrown? <==> m.prayerTimes.None? && e.times != map[]
    ensures s.Ok? && ChangedKeys(e.times, m.prayerTimes) == {} ==>
      s.value == Submission(e.(error := NoChanges), None)
    ensures s.Ok? ==> (s.value.stored.Some? <==> ChangedKeys(e.times, m.prayerTimes) != {} && requestAdded)
    ensures s.Ok? && s.value.stored.Some? ==> s.value.stored.value == RequestDoc(e, m, id, now)
    ensures s.Ok? ==> (s.value.editor.success <==> s.value.stored.Some? && phoneTracked)
    ensures s.Ok? && s.value.editor.success ==> s.value.editor.error == ""
    ensures s.Ok? && ChangedKeys(e.times, m.prayerTimes) != {} && !s.value.editor.success ==>
      s.value.editor.error == FailureMessage(message)
    ensures s.Ok? ==> s.value.editor.(error := e.error, success := e.success) == e
  {
    ChangedKeysAgree(e.times, m.prayerTimes);
    var check := HasChanges(e.times, m.prayerTimes);
    if check.Thrown? then Thrown(check.error)
    else if !check.value then
      Ok(Submission(e.(error := NoChanges), None))
    else if !requestAdded then
      Ok(Submission(e.(error := FailureMessage(message)), None))
    else if !phoneTracked then
      Ok(Submission(e.(error := FailureMessage(message)), Some(RequestDoc(e, m, id, now))))
    else
      Ok(Submission(e.(error := "", success := true), Some(RequestDoc(e, m, id, now))))
  }

  /** An admin who approves a stored request writes to the masjid exactly
      the prayer fields the requester changed, with the requested times. */
  lemma ApprovalOfSubmission(e: Editor, m: Masjid, id: string, now: int, message: string,
                             rest: seq<UpdateRequest>, processing: set<string>, later: int)
    requires e.step == EditStep && !e.success
    requires m.prayerTimes.Some? && ChangedKeys(e.times, m.prayerTimes) != {}
    ensures SubmitRequest(e, m, id, now, true, true, message).Ok?
    ensures
      var q := SubmitRequest(e, m, id, now, true, true, message).value.stored.value;
      var o := HandleRequestAction(Admin([q] + rest, processing), id, "approved", later, true, true);
      |o.writes| == 2 && o.writes[1].collection == "masjids" && o.writes[1].docId == m.id
      && (forall p :: p in ChangedKeys(e.times, m.prayerTimes) ==>
            PrayerField(p) in o.writes[1].fields && o.writes[1].fields[PrayerField(p)] == Text(e.times[p]))
      && (forall k :: k in o.writes[1].fields ==>
            k == "lastUpdated" || k == "updatedBy" ||
            exists p :: p in ChangedKeys(e.times, m.prayerTimes) && k == PrayerField(p))
      && o.writes[1].fields["updatedBy"] == Text("admin")
      && o.after.requests[0].status == "approved"
  {
    assert e.times != map[] by {
      var p :| p in ChangedKeys(e.times, m.prayerTimes);
      assert p in e.times;
    }
    var q := SubmitRequest(e, m, id, now, true, true, message).value.stored.value;
    var a := Admin([q] + rest, processing);
    assert ([q] + rest)[0] == q;
    assert Find(a.requests, id) == Some(q);
    var o := HandleRequestAction(a, id, "approved", later, true, true);
    assert o.alert != Failure;
  }
}
