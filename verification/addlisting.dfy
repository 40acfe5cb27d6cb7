/** The "Add New Masjid" form: its initial values, the facility
    checkboxes, the prayer-time fields and the submission. */
module AddListing {
  import opened Js
  import opened JsArray
  import opened Records
  import Dashboard

  datatype Form = Form(
    name: string,
    address: string,
    phone: string,
    website: string,
    description: string,
    location: Coord,
    facilities: seq<string>,
    prayerTimes: Schedule)

  /** The map's starting point when the user's location is unknown. */
  const FallbackLocation := Coord(17.385, 78.486)

  /** The form's starting schedule, Jummah included. */
  const StartTimes: Schedule := map[
    "fajr" := "05:30", "dhuhr" := "12:15", "jummah" := "12:30",
    "asr" := "15:30", "maghrib" := "18:10", "isha" := "19:25"]

  const Facilities: seq<string> := [
    "Parking", "Wudu Area", "Prayer Mats", "Air Conditioning",
    "Library", "Madrasah", "Wheelchair Access", "Women Section"]

  const MissingFields := "Please fill in required fields and select a location"
  const AddFailed := "Error adding masjid. Please try again."

  /** The form as the modal opens. */
  function Open(userLocation: Option<Coord>): (f: Form)
    ensures f.name == "" && f.address == "" && f.phone == "" && f.website == "" && f.description == ""
    ensures f.facilities == [] && f.prayerTimes == StartTimes
    ensures f.location == userLocation.GetOr(FallbackLocation)
  {
    Form("", "", "", "", "", userLocation.GetOr(FallbackLocation), [], StartTimes)
  }

  // ---------------------------------------------------------------------------
  // Facilities

  /** One checkbox change: checking appends the facility, unchecking removes
      every copy of it. */
  function ToggleFacility(f: Form, facility: string, checked: bool): (r: Form)
    ensures checked ==> r.facilities == f.facilities + [facility]
    ensures !checked ==> forall x :: x in r.facilities <==> x in f.facilities && x != facility
    ensures !checked ==> forall x :: x != facility ==> multiset(r.facilities)[x] == multiset(f.facilities)[x]
    ensures r.(facilities := f.facilities) == f
  {
    if checked then f.(facilities := f.facilities + [facility])
    else
      var keep := (x: string) => x != facility;
      forall x | x != facility ensures multiset(Filter(f.facilities, keep))[x] == multiset(f.facilities)[x] {
        FilterMultiplicity(f.facilities, keep, x);
      }
      f.(facilities := Filter(f.facilities, keep))
  }

  /** Unchecking a facility that is not listed changes nothing. */
  lemma UncheckAbsent(f: Form, facility: string)
    requires facility !in f.facilities
    ensures ToggleFacility(f, facility, false) == f
  {
    FilterAll(f.facilities, (x: string) => x != facility);
  }

  /** Unchecking drops an occurrence of the facility and keeps the rest of
      the list around it in order. */
  lemma UncheckDropsOccurrence(f: Form, a: seq<string>, b: seq<string>, facility: string)
    requires f.facilities == a + [facility] + b
    ensures ToggleFacility(f, facility, false) == ToggleFacility(f.(facilities := a + b), facility, false)
  {
    var keep := (x: string) => x != facility;
    FilterConcat(a + [facility], b, keep);
    FilterConcat(a, [facility], keep);
    FilterConcat(a, b, keep);
    assert Filter([facility], keep) == [];
    assert Filter(a + [facility], keep) == Filter(a, keep);
    assert Filter(f.facilities, keep) == Filter(a + b, keep);
    assert ToggleFacility(f, facility, false) == f.(facilities := Filter(f.facilities, keep));
    assert ToggleFacility(f.(facilities := a + b), facility, false) == f.(facilities := Filter(a + b, keep));
  }

  /** So unchecking the one copy of a facility leaves the others exactly as
      they were listed. */
  lemma UncheckSingle(f: Form, a: seq<string>, b: seq<string>, facility: string)
    requires f.facilities == a + [facility] + b && facility !in a + b
    ensures ToggleFacility(f, facility, false).facilities == a + b
  {
    UncheckDropsOccurrence(f, a, b, facility);
    UncheckAbsent(f.(facilities := a + b), facility);
  }

  /** A click: the checkbox shows `facilities.includes(facility)` and flips. */
  function ClickFacility(f: Form, facility: string): (r: Form)
    ensures facility in r.facilities <==> facility !in f.facilities
    ensures forall x :: x != facility ==> (x in r.facilities <==> x in f.facilities)
  {
    ToggleFacility(f, facility, facility !in f.facilities)
  }

  predicate NoDuplicates(s: seq<string>) {
    forall i, j :: 0 <= i < j < |s| ==> s[i] != s[j]
  }

  /** Clicking keeps the list free of duplicates. */
  lemma ClickFacilityNoDuplicates(f: Form, facility: string)
    requires NoDuplicates(f.facilities)
    ensures NoDuplicates(ClickFacility(f, facility).facilities)
  {
    if facility !in f.facilities {
      var s := f.facilities + [facility];
      forall i, j | 0 <= i < j < |s| ensures s[i] != s[j] {
        if j == |s| - 1 {
          assert s[i] in f.facilities;
        }
      }
    } else {
      FilterNoDuplicates(f.facilities, (x: string) => x != facility);
    }
  }

  lemma {:induction false} FilterNoDuplicates(s: seq<string>, p: string -> bool)
    requires NoDuplicates(s)
    ensures NoDuplicates(Filter(s, p))
    decreases |s|
  {
    if s != [] {
      assert NoDuplicates(s[1..]) by {
        forall i, j | 0 <= i < j < |s[1..]| ensures s[1..][i] != s[1..][j] {
          assert s[1..][i] == s[i + 1] && s[1..][j] == s[j + 1];
        }
      }
      FilterNoDuplicates(s[1..], p);
      var rest := Filter(s[1..], p);
      if p(s[0]) {
        assert s[0] !in s[1..] by {
          forall k | 0 <= k < |s[1..]| ensures s[1..][k] != s[0] {
            assert s[1..][k] == s[k + 1];
          }
        }
        assert s[0] !in rest;
        var r := [s[0]] + rest;
        forall i, j | 0 <= i < j < |r| ensures r[i] != r[j] {
          if i == 0 {
            assert r[j] in rest;
          } else {
            assert r[i] == rest[i - 1] && r[j] == rest[j - 1];
          }
        }
      }
    }
  }

  /** The form offers only the eight listed checkboxes, so clicking them
      keeps the chosen facilities among the listed ones. */
  lemma ClickListedStaysListed(f: Form, facility: string)
    requires facility in Facilities
    requires forall x :: x in f.facilities ==> x in Facilities
    ensures forall x :: x in ClickFacility(f, facility).facilities ==> x in Facilities
  {
  }

  /** Clicking an unchecked facility twice restores the list. */
  lemma ClickFacilityTwice(f: Form, facility: string)
    requires facility !in f.facilities
    ensures ClickFacility(ClickFacility(f, facility), facility) == f
  {
    var p := (x: string) => x != facility;
    FilterConcat(f.facilities, [facility], p);
    FilterAll(f.facilities, p);
    assert Filter([facility], p) == [];
  }

  // ---------------------------------------------------------------------------
  // Fields

  /** Typing into a prayer's time field. */
  function EditPrayerTime(f: Form, prayer: string, value: string): (r: Form)
    ensures prayer in r.prayerTimes && r.prayerTimes[prayer] == value
    ensures forall p :: p != prayer ==> (p in r.prayerTimes <==> p in f.prayerTimes)
    ensures forall p :: p != prayer && p in f.prayerTimes ==> r.prayerTimes[p] == f.prayerTimes[p]
    ensures r.(prayerTimes := f.prayerTimes) == f
  {
    f.(prayerTimes := f.prayerTimes[prayer := value])
  }

  // ---------------------------------------------------------------------------
  // handleSubmit

  datatype Submitted = Rejected(alert: string) | Saved(masjid: Masjid) | Failed(alert: string)

  /** The stored document: the form with a zero rating, no reviews, the
      submitter's anonymous id and the active status. */
  function NewMasjid(f: Form, id: string, anonId: string): (m: Masjid)
    ensures m.id == id && m.name == f.name && m.address == f.address && m.location == f.location
    ensures m.phone == f.phone && m.website == f.website && m.description == f.description
    ensures m.facilities == f.facilities && m.prayerTimes == Some(f.prayerTimes)
    ensures m.rating == Some(0) && m.reviews == Some(0) && m.createdBy == anonId && m.status == "active"
  {
    Masjid(id, f.name, f.address, f.phone, f.website, f.description, f.location, f.facilities,
           Some(f.prayerTimes), Some(0), Some(0), anonId, "active")
  }

  /** `handleSubmit`. A location is always set, so only the name and the
      address can be missing. `anonId` is the stored or freshly drawn
      anonymous id, `id` the new document's id and `added` whether the store
      call succeeds. */
  function Submit(f: Form, anonId: string, id: string, added: bool): (r: Submitted)
    ensures r.Rejected? <==> f.name == "" || f.address == ""
    ensures r.Rejected? ==> r.alert == MissingFields
    ensures r.Saved? <==> f.name != "" && f.address != "" && added
    ensures r.Saved? ==> r.masjid == NewMasjid(f, id, anonId)
    ensures r.Failed? ==> r.alert == AddFailed
  {
    if f.name == "" || f.address == "" then Rejected(MissingFields)
    else if !added then Failed(AddFailed)
    else Saved(NewMasjid(f, id, anonId))
  }

  /** A new listing is found by searching for its own name, and it is
      unrated for the rating sort. */
  lemma SavedListing(f: Form, anonId: string, id: string)
    requires f.name != "" && f.address != ""
    ensures Submit(f, anonId, id, true).Saved?
    ensures RatingOrZero(Submit(f, anonId, id, true).masjid) == 0
    ensures Dashboard.Matches(Submit(f, anonId, id, true).masjid, f.name)
  {
    IncludesSelf(ToLower(f.name));
  }

  lemma IncludesSelf(s: string)
    ensures Includes(s, s)
  {
  }
}
