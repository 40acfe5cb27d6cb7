/** The admin dashboard: approving or rejecting a prayer-time update request,
    the request list's filter and order, the status counts, the expanded
    card, and the "time ago" label. */
module Moderation {
  import opened Js
  import opened JsArray
  import opened Records

  /** An `updateRequests` document as the dashboard holds it; instants are
      milliseconds since the epoch. */
  datatype UpdateRequest = UpdateRequest(
    id: string,
    masjidId: string,
    masjidName: string,
    phoneNumber: string,
    currentTimes: Option<Schedule>,
    requestedTimes: Schedule,
    reason: Option<string>,
    status: string,
    createdAt: int,
    processedAt: Option<int>)

  /** A stored field value: text, or an instant in milliseconds. */
  datatype FieldValue = Text(text: string) | Instant(ms: int)

  /** One `updateDoc` that took effect. */
  datatype Write = Write(collection: string, docId: string, fields: map<string, FieldValue>)

  const Failure := "Something went wrong! Check console."

  // ---------------------------------------------------------------------------
  // The approval diff

  /** The dotted field path of one prayer inside a masjid document. */
  function PrayerField(prayer: string): (f: string)
    ensures |f| == 12 + |prayer| && f[12..] == prayer
  {
    "prayerTimes." + prayer
  }

  lemma PrayerFieldInjective(p: string, q: string)
    ensures PrayerField(p) == PrayerField(q) ==> p == q
  {
    assert PrayerField(p)[12..] == p && PrayerField(q)[12..] == q;
  }

  /** A requested time differs from the time the request was made against;
      a missing current schedule or prayer compares as `undefined`, which
      differs from every string. */
  predicate Differs(requested: Schedule, current: Option<Schedule>, prayer: string)
    requires prayer in requested
  {
    current.None? || prayer !in current.value || current.value[prayer] != requested[prayer]
  }

  /** The requested times that differ from the current ones. */
  function Changed(requested: Schedule, current: Option<Schedule>): (c: Schedule)
    ensures forall p :: p in c <==> p in requested && Differs(requested, current, p)
    ensures forall p :: p in c ==> c[p] == requested[p]
  {
    map p | p in requested && Differs(requested, current, p) :: requested[p]
  }

  /** Writing only the changed times over the current schedule gives the
      same schedule as writing every requested time. */
  lemma ChangedOverCurrent(requested: Schedule, current: Schedule)
    ensures current + Changed(requested, Some(current)) == current + requested
  {
    var c := Changed(requested, Some(current));
    forall p | p in current + requested
      ensures p in current + c && (current + c)[p] == (current + requested)[p]
    {
    }
  }

  /** The prayer fields of the masjid update: one dotted path per changed
      prayer. */
  function PrayerUpdates(changed: Schedule): (u: map<string, FieldValue>)
    ensures forall p :: p in changed ==> PrayerField(p) in u && u[PrayerField(p)] == Text(changed[p])
    ensures forall f :: f in u ==> exists p :: p in changed && f == PrayerField(p)
  {
    forall p, q | PrayerField(p) == PrayerField(q) ensures p == q {
      PrayerFieldInjective(p, q);
    }
    map p | p in changed :: PrayerField(p) := Text(changed[p])
  }

  /** The whole masjid update of an approval, with its metadata. */
  function ApprovalFields(changed: Schedule, now: int): (u: map<string, FieldValue>)
    ensures "lastUpdated" in u && u["lastUpdated"] == Instant(now)
    ensures "updatedBy" in u && u["updatedBy"] == Text("admin")
    ensures forall p :: p in changed ==> PrayerField(p) in u && u[PrayerField(p)] == Text(changed[p])
    ensures forall k :: k in u ==> k == "lastUpdated" || k == "updatedBy" || exists p :: p in changed && k == PrayerField(p)
  {
    PrayerUpdates(changed)["lastUpdated" := Instant(now)]["updatedBy" := Text("admin")]
  }

  // ---------------------------------------------------------------------------
  // handleRequestAction

  /** The first request with this id, as `Array.prototype.find` returns it. */
  function Find(rs: seq<UpdateRequest>, id: string): (r: Option<UpdateRequest>)
    ensures r.None? <==> forall i :: 0 <= i < |rs| ==> rs[i].id != id
    ensures r.Some? ==> exists k :: 0 <= k < |rs| && rs[k] == r.value && r.value.id == id
                                    && forall j :: 0 <= j < k ==> rs[j].id != id
  {
    if rs == [] then None
    else if rs[0].id == id then Some(rs[0])
    else
      var r := Find(rs[1..], id);
      if r.Some? then
        var k :| 0 <= k < |rs[1..]| && rs[1..][k] == r.value && r.value.id == id
                 && forall j :: 0 <= j < k ==> rs[1..][j].id != id;
        assert rs[k + 1] == r.value;
        assert forall j :: 0 <= j < k + 1 ==> rs[j].id != id by {
          forall j | 0 <= j < k + 1 ensures rs[j].id != id {
            if j > 0 { assert rs[j] == rs[1..][j - 1]; }
          }
        }
        r
      else
        assert forall i :: 1 <= i < |rs| ==> rs[i] == rs[1..][i - 1];
        r
  }

  /** The local list after a request is processed. */
  function MarkProcessed(rs: seq<UpdateRequest>, id: string, action: string, now: int): (r: seq<UpdateRequest>)
    ensures |r| == |rs|
    ensures forall i :: 0 <= i < |rs| && rs[i].id == id ==>
      r[i] == rs[i].(status := action, processedAt := Some(now))
    ensures forall i :: 0 <= i < |rs| && rs[i].id != id ==> r[i] == rs[i]
  {
    if rs == [] then []
    else
      [if rs[0].id == id then rs[0].(status := action, processedAt := Some(now)) else rs[0]]
        + MarkProcessed(rs[1..], id, action, now)
  }

  /** The admin view's state. */
  datatype Admin = Admin(requests: seq<UpdateRequest>, processing: set<string>)

  /** What one `handleRequestAction` leaves behind: the state after its
      `finally`, the ids marked busy while it ran, the writes that took
      effect and the alert shown. */
  datatype Outcome = Outcome(after: Admin, busy: set<string>, writes: seq<Write>, alert: string)

  function RequestWrite(id: string, action: string, now: int): Write {
    Write("updateRequests", id, map["status" := Text(action), "processedAt" := Instant(now)])
  }

  /** `handleRequestAction(requestId, action)`. `now` stands for the clock;
      `requestSaved` and `masjidSaved` say whether each `updateDoc`
      succeeds. */
  function HandleRequestAction(a: Admin, requestId: string, action: string, now: int,
                               requestSaved: bool, masjidSaved: bool): (o: Outcome)
    ensures o.busy == a.processing + {requestId}
    ensures o.after.processing == a.processing - {requestId}
    // not found: nothing is written
    ensures Find(a.requests, requestId).None? ==>
      o.writes == [] && o.alert == Failure && o.after.requests == a.requests
    // the request document is written first
    ensures o.writes != [] ==> o.writes[0] == RequestWrite(requestId, action, now)
    // the masjid is written only for an approval that changes some time
    ensures |o.writes| == 2 ==>
      var req := Find(a.requests, requestId).value;
      var changed := Changed(req.requestedTimes, req.currentTimes);
      action == "approved" && changed != map[] &&
      o.writes[1] == Write("masjids", req.masjidId, ApprovalFields(changed, now))
    ensures |o.writes| <= 2
    // with the request found, the two saves decide the writes and the alert
    ensures Find(a.requests, requestId).Some? ==>
      var req := Find(a.requests, requestId).value;
      var touchesMasjid := action == "approved" && Changed(req.requestedTimes, req.currentTimes) != map[];
      && (o.writes != [] <==> requestSaved)
      && (|o.writes| == 2 <==> requestSaved && touchesMasjid && masjidSaved)
      && (o.alert != Failure <==> requestSaved && (touchesMasjid ==> masjidSaved))
    // success
    ensures o.alert != Failure ==>
      var req := Find(a.requests, requestId).value;
      o.after.requests == MarkProcessed(a.requests, requestId, action, now) &&
      o.alert == (if action == "approved" then "Approved" else "Rejected") + " request for " + req.masjidName
    ensures o.alert == Failure ==> o.after.requests == a.requests
  {
    var after := Admin(a.requests, a.processing - {requestId});
    var busy := a.processing + {requestId};
    var found := Find(a.requests, requestId);
    if found.None? then
      Outcome(after, busy, [], Failure)
    else if !requestSaved then
      Outcome(after, busy, [], Failure)
    else
      var req := found.value;
      var first := [RequestWrite(requestId, action, now)];
      var changed := Changed(req.requestedTimes, req.currentTimes);
      var writes :=
        if action == "approved" && changed != map[] && masjidSaved
        then first + [Write("masjids", req.masjidId, ApprovalFields(changed, now))]
        else first;
      if action == "approved" && changed != map[] && !masjidSaved then
        Outcome(after, busy, first, Failure)
      else
        var verb := if action == "approved" then "Approved" else "Rejected";
        assert verb + " request for " + req.masjidName != Failure by {
          assert (verb + " request for " + req.masjidName)[0] == verb[0];
        }
        Outcome(after.(requests := MarkProcessed(a.requests, requestId, action, now)), busy, writes,
                verb + " request for " + req.masjidName)
  }

  /** A processed request keeps its place in the list; only the processed
      one changes, and it carries the action as its status. */
  lemma HandleRequestActionMarks(a: Admin, requestId: string, action: string, now: int,
                                 requestSaved: bool, masjidSaved: bool, i: int)
    requires 0 <= i < |a.requests|
    requires HandleRequestAction(a, requestId, action, now, requestSaved, masjidSaved).alert != Failure
    ensures |HandleRequestAction(a, requestId, action, now, requestSaved, masjidSaved).after.requests| == |a.requests|
    ensures HandleRequestAction(a, requestId, action, now, requestSaved, masjidSaved).after.requests[i].id == a.requests[i].id
    ensures a.requests[i].id == requestId ==>
      HandleRequestAction(a, requestId, action, now, requestSaved, masjidSaved).after.requests[i].status == action
  {
  }

  /** The prayers a masjid update sets, read off its `prayerTimes.<p>` text
      fields. */
  function WrittenPrayers(fields: map<string, FieldValue>): (ps: set<string>)
    ensures forall p :: p in ps <==> PrayerField(p) in fields && fields[PrayerField(p)].Text?
  {
    var ps := set k | k in fields && |k| >= 12 && k[..12] == "prayerTimes." && fields[k].Text? :: k[12..];
    forall p ensures p in ps <==> PrayerField(p) in fields && fields[PrayerField(p)].Text? {
      var k := PrayerField(p);
      assert k[..12] == "prayerTimes." && k[12..] == p;
      if p in ps {
        var k' :| k' in fields && |k'| >= 12 && k'[..12] == "prayerTimes." && fields[k'].Text? && k'[12..] == p;
        assert k' == k'[..12] + k'[12..];
      }
    }
    ps
  }

  /** A masjid's schedule after an update's prayer fields take effect on it. */
  function AppliedTimes(stored: Schedule, fields: map<string, FieldValue>): (t: Schedule)
    ensures forall p :: p in t <==> p in stored || p in WrittenPrayers(fields)
    ensures forall p :: p in WrittenPrayers(fields) ==> t[p] == fields[PrayerField(p)].text
    ensures forall p :: p in stored && p !in WrittenPrayers(fields) ==> t[p] == stored[p]
  {
    stored + map p | p in WrittenPrayers(fields) :: fields[PrayerField(p)].text
  }

  /** The prayers an approval's update sets are exactly the changed ones. */
  lemma ApprovalWritesChanged(changed: Schedule, now: int)
    ensures WrittenPrayers(ApprovalFields(changed, now)) == changed.Keys
  {
    var fields := ApprovalFields(changed, now);
    forall p ensures p in WrittenPrayers(fields) <==> p in changed {
      if p in WrittenPrayers(fields) {
        var k := PrayerField(p);
        assert |k| >= 12;
        assert k != "lastUpdated" && k != "updatedBy";
        var q :| q in changed && k == PrayerField(q);
        PrayerFieldInjective(p, q);
      }
    }
  }

  /** An update that sets exactly the changed prayers, to their times, lays
      them over the stored ones. */
  lemma AppliedExactly(stored: Schedule, changed: Schedule, fields: map<string, FieldValue>)
    requires WrittenPrayers(fields) == changed.Keys
    requires forall p :: p in changed ==> fields[PrayerField(p)] == Text(changed[p])
    ensures AppliedTimes(stored, fields) == stored + changed
  {
    var t := AppliedTimes(stored, fields);
    assert t.Keys == (stored + changed).Keys;
    forall p | p in t ensures t[p] == (stored + changed)[p] {
      if p in changed {
        assert fields[PrayerField(p)] == Text(changed[p]);
      }
    }
  }

  /** Applying an approval's update lays the changed times over the stored
      ones. */
  lemma AppliedApproval(stored: Schedule, changed: Schedule, now: int)
    ensures AppliedTimes(stored, ApprovalFields(changed, now)) == stored + changed
  {
    ApprovalWritesChanged(changed, now);
    AppliedExactly(stored, changed, ApprovalFields(changed, now));
  }

  /** An approval of a request made against the masjid's stored times leaves
      the masjid with the requested times over its own: either its update
      takes effect, or no time differs and nothing is written. */
  lemma ApprovalAppliesRequest(a: Admin, requestId: string, now: int, stored: Schedule)
    requires Find(a.requests, requestId).Some?
    requires Find(a.requests, requestId).value.currentTimes == Some(stored)
    ensures
      var req := Find(a.requests, requestId).value;
      var o := HandleRequestAction(a, requestId, "approved", now, true, true);
      (if |o.writes| == 2 then AppliedTimes(stored, o.writes[1].fields) else stored)
        == stored + req.requestedTimes
  {
    var req := Find(a.requests, requestId).value;
    var o := HandleRequestAction(a, requestId, "approved", now, true, true);
    var changed := Changed(req.requestedTimes, req.currentTimes);
    ChangedOverCurrent(req.requestedTimes, stored);
    if |o.writes| == 2 {
      assert o.writes[1].fields == ApprovalFields(changed, now);
      AppliedApproval(stored, changed, now);
    } else {
      assert changed == map[];
      assert stored + changed == stored;
    }
  }

  // ---------------------------------------------------------------------------
  // filteredRequests

  /** The status chip (`"all"` or one status) and the search box. */
  predicate Shown(r: UpdateRequest, filter: string, query: string) {
    && (filter == "all" || r.status == filter)
    && (query == ""
        || Includes(ToLower(r.masjidName), ToLower(query))
        || Includes(r.phoneNumber, query)
        || (r.reason.Some? && Includes(ToLower(r.reason.value), ToLower(query))))
  }

  function ShownBy(filter: string, query: string): UpdateRequest -> bool {
    (r: UpdateRequest) => Shown(r, filter, query)
  }

  /** Newest first: `new Date(b.createdAt) - new Date(a.createdAt)`. */
  function NewestFirst(): (UpdateRequest, UpdateRequest) -> int {
    (a: UpdateRequest, b: UpdateRequest) => b.createdAt - a.createdAt
  }

  /** `filteredRequests`. */
  function FilteredRequests(rs: seq<UpdateRequest>, filter: string, query: string): (r: seq<UpdateRequest>)
    ensures multiset(r) == multiset(Filter(rs, ShownBy(filter, query)))
    ensures forall x :: x in r <==> x in rs && Shown(x, filter, query)
  {
    var kept := Filter(rs, ShownBy(filter, query));
    var sorted := SortWith(kept, NewestFirst());
    forall x ensures x in sorted <==> x in kept {
      assert x in sorted <==> x in multiset(sorted);
      assert x in kept <==> x in multiset(kept);
    }
    sorted
  }

  /** The shown requests are ordered newest first. */
  lemma FilteredRequestsNewestFirst(rs: seq<UpdateRequest>, filter: string, query: string)
    ensures forall i, j :: 0 <= i < j < |FilteredRequests(rs, filter, query)| ==>
      FilteredRequests(rs, filter, query)[i].createdAt >= FilteredRequests(rs, filter, query)[j].createdAt
  {
    var kept := Filter(rs, ShownBy(filter, query));
    assert Consistent(kept, NewestFirst());
    SortWithSorted(kept, NewestFirst());
  }

  /** With the "all" chip and an empty search, a list that arrives newest
      first, as the subscription orders it, is shown as it is. */
  lemma FilteredRequestsShowAll(rs: seq<UpdateRequest>)
    requires forall i, j :: 0 <= i < j < |rs| ==> rs[i].createdAt >= rs[j].createdAt
    ensures FilteredRequests(rs, "all", "") == rs
  {
    FilterAll(rs, ShownBy("all", ""));
    assert SortedBy(rs, NewestFirst());
    SortWithSortedUnchanged(rs, NewestFirst());
  }

  // ---------------------------------------------------------------------------
  // stats

  function StatusIs(status: string): UpdateRequest -> bool {
    (r: UpdateRequest) => r.status == status
  }

  predicate Known(r: UpdateRequest) {
    r.status == "pending" || r.status == "approved" || r.status == "rejected"
  }

  function Unknown(): UpdateRequest -> bool {
    (r: UpdateRequest) => !Known(r)
  }

  datatype Stats = Stats(total: nat, pending: nat, approved: nat, rejected: nat)

  /** The requests' statuses, in list order. */
  function Statuses(rs: seq<UpdateRequest>): (r: seq<string>)
    ensures |r| == |rs| && forall i :: 0 <= i < |rs| ==> r[i] == rs[i].status
  {
    seq(|rs|, i requires 0 <= i < |rs| => rs[i].status)
  }

  /** Counting the requests of one status is counting that status among the
      statuses. */
  lemma {:induction false} CountStatus(rs: seq<UpdateRequest>, status: string)
    ensures CountWhere(rs, StatusIs(status)) == multiset(Statuses(rs))[status]
    decreases |rs|
  {
    if rs != [] {
      CountStatus(rs[1..], status);
      CountWhereStep(rs, StatusIs(status));
      assert Statuses(rs) == [rs[0].status] + Statuses(rs[1..]);
      assert multiset(Statuses(rs)) == multiset{rs[0].status} + multiset(Statuses(rs[1..]));
    }
  }

  /** `stats`: the list's length and, for each status, how many requests
      have it. */
  function StatsOf(rs: seq<UpdateRequest>): (s: Stats)
    ensures s.total == |rs|
    ensures s.pending == multiset(Statuses(rs))["pending"]
    ensures s.approved == multiset(Statuses(rs))["approved"]
    ensures s.rejected == multiset(Statuses(rs))["rejected"]
    ensures s.pending <= s.total && s.approved <= s.total && s.rejected <= s.total
  {
    CountStatus(rs, "pending");
    CountStatus(rs, "approved");
    CountStatus(rs, "rejected");
    Stats(|rs|, CountWhere(rs, StatusIs("pending")), CountWhere(rs, StatusIs("approved")),
          CountWhere(rs, StatusIs("rejected")))
  }

  /** The three counts and the requests of any other status make up the
      whole list. */
  lemma {:induction false} StatusPartition(rs: seq<UpdateRequest>)
    ensures CountWhere(rs, StatusIs("pending")) + CountWhere(rs, StatusIs("approved"))
          + CountWhere(rs, StatusIs("rejected")) + CountWhere(rs, Unknown()) == |rs|
    decreases |rs|
  {
    if rs != [] {
      StatusPartition(rs[1..]);
      CountWhereStep(rs, StatusIs("pending"));
      CountWhereStep(rs, StatusIs("approved"));
      CountWhereStep(rs, StatusIs("rejected"));
      CountWhereStep(rs, Unknown());
    }
  }

  /** The three counts never exceed the total, and they add up to it
      exactly when every request has one of the three statuses. */
  lemma StatsAddUp(rs: seq<UpdateRequest>)
    ensures StatsOf(rs).pending + StatsOf(rs).approved + StatsOf(rs).rejected <= StatsOf(rs).total
    ensures StatsOf(rs).pending + StatsOf(rs).approved + StatsOf(rs).rejected == StatsOf(rs).total
        <==> forall i :: 0 <= i < |rs| ==> Known(rs[i])
  {
    StatusPartition(rs);
  }

  // ---------------------------------------------------------------------------
  // toggleExpand

  /** `toggleExpand(requestId)`: collapse the open card, or open this one. */
  function ToggleExpand(expanded: Option<string>, requestId: string): (r: Option<string>)
    ensures r.None? <==> expanded == Some(requestId)
    ensures r.Some? ==> r.value == requestId
  {
    if expanded == Some(requestId) then None else Some(requestId)
  }

  /** Clicking the same card twice restores the state exactly when that card
      was open or none was. */
  lemma ToggleExpandTwice(expanded: Option<string>, requestId: string)
    ensures ToggleExpand(ToggleExpand(expanded, requestId), requestId) == expanded
        <==> expanded.None? || expanded == Some(requestId)
  {
  }

  // ---------------------------------------------------------------------------
  // getTimeAgo

  datatype TimeUnit = TimeUnit(name: string, secs: nat)

  const Units: seq<TimeUnit> := [
    TimeUnit("year", 31536000), TimeUnit("month", 2592000), TimeUnit("day", 86400),
    TimeUnit("hour", 3600), TimeUnit("minute", 60), TimeUnit("second", 1)]

  /** `"<count> <label>[s] ago"`. */
  function Phrase(count: nat, unit: string): string {
    NatToString(count) + " " + unit + (if count > 1 then "s" else "") + " ago"
  }

  /** Unit `k` is the first one that fits at least once in `seconds`. */
  ghost predicate FirstFit(seconds: int, k: int) {
    0 <= k < |Units| && seconds >= Units[k].secs
    && forall j :: 0 <= j < k ==> seconds < Units[j].secs
  }

  /** `getTimeAgo(date)` at clock reading `now`, both in milliseconds. */
  method TimeAgo(date: Option<int>, now: int) returns (r: string)
    ensures date.None? ==> r == ""
    ensures date.Some? && (now - date.value) / 1000 < 1 ==> r == "just now"
    ensures date.Some? && (now - date.value) / 1000 >= 1 ==>
      exists k :: FirstFit((now - date.value) / 1000, k)
               && r == Phrase(((now - date.value) / 1000) / Units[k].secs, Units[k].name)
  {
    if date.None? {
      return "";
    }
    var seconds := (now - date.value) / 1000;
    var i := 0;
    while i < |Units|
      invariant 0 <= i <= |Units|
      invariant forall j :: 0 <= j < i ==> seconds < Units[j].secs
    {
      var count := seconds / Units[i].secs;
      if count >= 1 {
        assert seconds >= Units[i].secs;
        assert FirstFit(seconds, i);
        return Phrase(count, Units[i].name);
      }
      i := i + 1;
    }
    assert seconds < Units[5].secs;
    return "just now";
  }

  /** The first fitting unit is unique, and its count is at least 1. */
  lemma FirstFitUnique(seconds: int, k: int, k': int)
    requires FirstFit(seconds, k) && FirstFit(seconds, k')
    ensures k == k' && seconds / Units[k].secs >= 1
  {
  }
}
