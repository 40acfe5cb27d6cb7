/** The dashboard's list rules: the search filter, the sort keys, and the
    list updates for an added, edited or rated masjid. */
module Dashboard {
  import opened Js
  import opened JsArray
  import opened Records

  // ---------------------------------------------------------------------------
  // Search

  /** The masjid's lower-cased name or address contains the lower-cased query. */
  predicate Matches(m: Masjid, query: string) {
    Includes(ToLower(m.name), ToLower(query)) || Includes(ToLower(m.address), ToLower(query))
  }

  function MatchesQuery(query: string): Masjid -> bool {
    m => Matches(m, query)
  }

  /** `filteredMasjids`. */
  function Search(ms: seq<Masjid>, query: string): (r: seq<Masjid>)
    ensures forall m :: m in r <==> m in ms && Matches(m, query)
    ensures |r| <= |ms|
  {
    Filter(ms, MatchesQuery(query))
  }

  /** An empty query keeps every masjid, in order. */
  lemma SearchEmptyKeepsAll(ms: seq<Masjid>)
    ensures Search(ms, "") == ms
  {
    forall m | m in ms ensures MatchesQuery("")(m) {
      IncludesEmpty(ToLower(m.name));
    }
    FilterAll(ms, MatchesQuery(""));
  }

  /** The search ignores the case of the query. */
  lemma SearchIgnoresQueryCase(ms: seq<Masjid>, query: string)
    ensures Search(ms, ToLower(query)) == Search(ms, query)
  {
    ToLowerIdempotent(query);
    FilterCongruent(ms, MatchesQuery(ToLower(query)), MatchesQuery(query));
  }

  /** A kept masjid has the lower-cased query somewhere in its lower-cased
      name or address. */
  lemma SearchHitHasOccurrence(ms: seq<Masjid>, query: string, m: Masjid)
    requires m in Search(ms, query)
    ensures (exists k :: OccursAt(ToLower(m.name), ToLower(query), k))
         || (exists k :: OccursAt(ToLower(m.address), ToLower(query), k))
  {
    IncludesIffOccurs(ToLower(m.name), ToLower(query));
    IncludesIffOccurs(ToLower(m.address), ToLower(query));
  }

  // ---------------------------------------------------------------------------
  // Sort

  /** The selected prayer's time, `"00:00"` when missing or empty. */
  function PrayerTimeKey(m: Masjid, prayer: string): string
    requires m.prayerTimes.Some?
  {
    var t := m.prayerTimes.value;
    if prayer in t && t[prayer] != "" then t[prayer] else "00:00"
  }

  function Sign(x: real): int {
    if x < 0.0 then -1 else if x > 0.0 then 1 else 0
  }

  /** The comparator of `sortedMasjids` for the `sortBy` choice. With a user
      location, `distanceTo` stands for the great-circle distance from the
      user to a masjid's location. */
  function Compare(sortBy: string, prayer: string, located: bool, distanceTo: Coord -> real, a: Masjid, b: Masjid): int {
    if sortBy == "distance" then
      if !located then 0 else Sign(distanceTo(a.location) - distanceTo(b.location))
    else if sortBy == "rating" then
      RatingOrZero(b) - RatingOrZero(a)
    else if sortBy == "prayer-time" then
      if a.prayerTimes.None? || b.prayerTimes.None? then 0
      else LocaleCompare(PrayerTimeKey(a, prayer), PrayerTimeKey(b, prayer))
    else if sortBy == "name" then
      LocaleCompare(a.name, b.name)
    else 0
  }

  function Comparator(sortBy: string, prayer: string, located: bool, distanceTo: Coord -> real): (Masjid, Masjid) -> int {
    (a, b) => Compare(sortBy, prayer, located, distanceTo, a, b)
  }

  /** `sortedMasjids`: every sort is a rearrangement of the filtered list. */
  function SortMasjids(ms: seq<Masjid>, sortBy: string, prayer: string, located: bool, distanceTo: Coord -> real): (r: seq<Masjid>)
    ensures |r| == |ms|
    ensures multiset(r) == multiset(ms)
  {
    SortWith(ms, Comparator(sortBy, prayer, located, distanceTo))
  }

  /** Sorting by rating puts higher ratings first, a missing rating counting
      as 0. */
  lemma SortByRatingDescending(ms: seq<Masjid>, prayer: string, located: bool, distanceTo: Coord -> real)
    ensures forall i, j :: 0 <= i < j < |ms| ==>
      RatingOrZero(SortMasjids(ms, "rating", prayer, located, distanceTo)[i])
        >= RatingOrZero(SortMasjids(ms, "rating", prayer, located, distanceTo)[j])
  {
    var cmp := Comparator("rating", prayer, located, distanceTo);
    assert Consistent(ms, cmp);
    SortWithSorted(ms, cmp);
  }

  /** Sorting by name orders names by `localeCompare`. */
  lemma SortByNameAscending(ms: seq<Masjid>, prayer: string, located: bool, distanceTo: Coord -> real)
    ensures forall i, j :: 0 <= i < j < |ms| ==>
      LexLe(SortMasjids(ms, "name", prayer, located, distanceTo)[i].name,
            SortMasjids(ms, "name", prayer, located, distanceTo)[j].name)
  {
    var cmp := Comparator("name", prayer, located, distanceTo);
    forall a, b | a in ms && b in ms ensures cmp(a, b) <= 0 || cmp(b, a) <= 0 {
      LexTotal(a.name, b.name);
      LocaleCompareLe(a.name, b.name);
      LocaleCompareLe(b.name, a.name);
    }
    forall a, b, c | a in ms && b in ms && c in ms && cmp(a, b) <= 0 && cmp(b, c) <= 0
      ensures cmp(a, c) <= 0
    {
      LocaleCompareLe(a.name, b.name);
      LocaleCompareLe(b.name, c.name);
      LocaleCompareLe(a.name, c.name);
      LexTransitive(a.name, b.name, c.name);
    }
    SortWithSorted(ms, cmp);
    var r := SortMasjids(ms, "name", prayer, located, distanceTo);
    forall i, j | 0 <= i < j < |r| ensures LexLe(r[i].name, r[j].name) {
      assert cmp(r[i], r[j]) <= 0;
      LocaleCompareLe(r[i].name, r[j].name);
    }
  }

  /** Both masjids have schedules and the first one's time for `prayer`
      orders at or before the second one's. */
  ghost predicate TimeOrdered(a: Masjid, b: Masjid, prayer: string) {
    a.prayerTimes.Some? && b.prayerTimes.Some? && LexLe(PrayerTimeKey(a, prayer), PrayerTimeKey(b, prayer))
  }

  lemma PrayerTimeCompare(a: Masjid, b: Masjid, prayer: string, located: bool, distanceTo: Coord -> real)
    requires a.prayerTimes.Some? && b.prayerTimes.Some?
    ensures Compare("prayer-time", prayer, located, distanceTo, a, b) <= 0 <==> TimeOrdered(a, b, prayer)
  {
    LocaleCompareLe(PrayerTimeKey(a, prayer), PrayerTimeKey(b, prayer));
  }

  /** When every masjid has a schedule, sorting by prayer time orders the
      selected prayer's time strings, a missing time counting as `"00:00"`. */
  lemma SortByPrayerTimeAscending(ms: seq<Masjid>, prayer: string, located: bool, distanceTo: Coord -> real)
    requires forall m :: m in ms ==> m.prayerTimes.Some?
    ensures forall i, j :: 0 <= i < j < |ms| ==>
      TimeOrdered(SortMasjids(ms, "prayer-time", prayer, located, distanceTo)[i],
                  SortMasjids(ms, "prayer-time", prayer, located, distanceTo)[j], prayer)
  {
    var cmp := Comparator("prayer-time", prayer, located, distanceTo);
    forall a, b | a in ms && b in ms ensures cmp(a, b) <= 0 || cmp(b, a) <= 0 {
      LexTotal(PrayerTimeKey(a, prayer), PrayerTimeKey(b, prayer));
      PrayerTimeCompare(a, b, prayer, located, distanceTo);
      PrayerTimeCompare(b, a, prayer, located, distanceTo);
    }
    forall a, b, c | a in ms && b in ms && c in ms && cmp(a, b) <= 0 && cmp(b, c) <= 0
      ensures cmp(a, c) <= 0
    {
      PrayerTimeCompare(a, b, prayer, located, distanceTo);
      PrayerTimeCompare(b, c, prayer, located, distanceTo);
      PrayerTimeCompare(a, c, prayer, located, distanceTo);
      LexTransitive(PrayerTimeKey(a, prayer), PrayerTimeKey(b, prayer), PrayerTimeKey(c, prayer));
    }
    SortWithSorted(ms, cmp);
    var r := SortMasjids(ms, "prayer-time", prayer, located, distanceTo);
    forall i, j | 0 <= i < j < |r| ensures TimeOrdered(r[i], r[j], prayer) {
      assert r[i] in multiset(ms) && r[j] in multiset(ms);
      assert cmp(r[i], r[j]) <= 0;
      PrayerTimeCompare(r[i], r[j], prayer, located, distanceTo);
    }
  }

  /** With a user location, sorting by distance puts nearer masjids first. */
  lemma SortByDistanceAscending(ms: seq<Masjid>, prayer: string, distanceTo: Coord -> real)
    ensures forall i, j :: 0 <= i < j < |ms| ==>
      distanceTo(SortMasjids(ms, "distance", prayer, true, distanceTo)[i].location)
        <= distanceTo(SortMasjids(ms, "distance", prayer, true, distanceTo)[j].location)
  {
    var cmp := Comparator("distance", prayer, true, distanceTo);
    assert Consistent(ms, cmp);
    SortWithSorted(ms, cmp);
    var r := SortMasjids(ms, "distance", prayer, true, distanceTo);
    forall i, j | 0 <= i < j < |r| ensures distanceTo(r[i].location) <= distanceTo(r[j].location) {
      assert cmp(r[i], r[j]) <= 0;
    }
  }

  /** Without a user location, or for a `sortBy` the switch does not know,
      the comparator answers 0 and the order is unchanged. */
  lemma SortWithoutKeyUnchanged(ms: seq<Masjid>, sortBy: string, prayer: string, located: bool, distanceTo: Coord -> real)
    requires (sortBy == "distance" && !located)
      || (sortBy != "distance" && sortBy != "rating" && sortBy != "prayer-time" && sortBy != "name")
    ensures SortMasjids(ms, sortBy, prayer, located, distanceTo) == ms
  {
    SortWithSortedUnchanged(ms, Comparator(sortBy, prayer, located, distanceTo));
  }

  // ---------------------------------------------------------------------------
  // List updates

  datatype View = View(masjids: seq<Masjid>, selected: Option<Masjid>, syncStatus: string)

  /** Replace every masjid whose id is `updated.id` by `updated`. */
  function ReplaceById(ms: seq<Masjid>, updated: Masjid): (r: seq<Masjid>)
    ensures |r| == |ms|
    ensures forall i :: 0 <= i < |ms| && ms[i].id == updated.id ==> r[i] == updated
    ensures forall i :: 0 <= i < |ms| && ms[i].id != updated.id ==> r[i] == ms[i]
  {
    if ms == [] then []
    else [if ms[0].id == updated.id then updated else ms[0]] + ReplaceById(ms[1..], updated)
  }

  /** `handleMasjidUpdate`: the list entry and the open detail view, when
      it shows that masjid, take the saved record. */
  function UpdateMasjid(v: View, updated: Masjid): (r: View)
    ensures r.masjids == ReplaceById(v.masjids, updated)
    ensures v.selected.Some? && v.selected.value.id == updated.id ==> r.selected == Some(updated)
    ensures !(v.selected.Some? && v.selected.value.id == updated.id) ==> r.selected == v.selected
    ensures r.syncStatus == "synced"
  {
    var selected := if v.selected.Some? && v.selected.value.id == updated.id then Some(updated) else v.selected;
    View(ReplaceById(v.masjids, updated), selected, "synced")
  }

  /** Replacing keeps the list of ids, and replacing twice is replacing once. */
  lemma ReplaceByIdKeepsIds(ms: seq<Masjid>, updated: Masjid)
    ensures Ids(ReplaceById(ms, updated)) == Ids(ms)
    ensures ReplaceById(ReplaceById(ms, updated), updated) == ReplaceById(ms, updated)
  {
  }

  /** `onRated(masjidId, rating)`: the matching masjids take the rating and
      one more review, a missing count counting as 0. */
  function ApplyRating(ms: seq<Masjid>, masjidId: string, rating: int): (r: seq<Masjid>)
    ensures |r| == |ms|
    ensures forall i :: 0 <= i < |ms| && ms[i].id == masjidId ==>
      r[i] == ms[i].(rating := Some(rating), reviews := Some(ReviewsOrZero(ms[i]) + 1))
    ensures forall i :: 0 <= i < |ms| && ms[i].id != masjidId ==> r[i] == ms[i]
  {
    if ms == [] then []
    else
      var m := ms[0];
      [if m.id == masjidId then m.(rating := Some(rating), reviews := Some(ReviewsOrZero(m) + 1)) else m]
        + ApplyRating(ms[1..], masjidId, rating)
  }

  function TotalReviews(ms: seq<Masjid>): int {
    if ms == [] then 0 else ReviewsOrZero(ms[0]) + TotalReviews(ms[1..])
  }

  function CountId(ms: seq<Masjid>, id: string): nat {
    if ms == [] then 0 else (if ms[0].id == id then 1 else 0) + CountId(ms[1..], id)
  }

  /** A rating adds exactly one review per listing with that id. */
  lemma {:induction false} ApplyRatingReviews(ms: seq<Masjid>, masjidId: string, rating: int)
    ensures TotalReviews(ApplyRating(ms, masjidId, rating)) == TotalReviews(ms) + CountId(ms, masjidId)
    decreases |ms|
  {
    if ms != [] {
      ApplyRatingReviews(ms[1..], masjidId, rating);
      var r := ApplyRating(ms, masjidId, rating);
      assert r[1..] == ApplyRating(ms[1..], masjidId, rating);
    }
  }

  /** `handleMasjidAdd`: the new listing is appended. */
  function AddMasjid(v: View, added: Masjid): (r: View)
    ensures r.masjids == v.masjids + [added]
    ensures r.selected == v.selected && r.syncStatus == "synced"
  {
    v.(masjids := v.masjids + [added], syncStatus := "synced")
  }
}
