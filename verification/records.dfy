/** The stored records the components share: a masjid listing and its
    prayer schedule. */
module Records {
  import opened Js

  /** Prayer name (`"fajr"`, `"dhuhr"`, ...) to an `"HH:MM"` time string. */
  type Schedule = map<string, string>

  /** A geographic coordinate in degrees. */
  datatype Coord = Coord(lat: real, lng: real)

  /** A masjid document. Fields that a document may lack are `Option`s:
      `prayerTimes`, `rating` and `reviews`. */
  datatype Masjid = Masjid(
    id: string,
    name: string,
    address: string,
    phone: string,
    website: string,
    description: string,
    location: Coord,
    facilities: seq<string>,
    prayerTimes: Option<Schedule>,
    rating: Option<int>,
    reviews: Option<int>,
    createdBy: string,
    status: string)

  /** `m.rating || 0`. */
  function RatingOrZero(m: Masjid): int {
    m.rating.GetOr(0)
  }

  /** `m.reviews || 0`. */
  function ReviewsOrZero(m: Masjid): int {
    m.reviews.GetOr(0)
  }

  function Ids(ms: seq<Masjid>): (ids: seq<string>)
    ensures |ids| == |ms|
    ensures forall i :: 0 <= i < |ms| ==> ids[i] == ms[i].id
  {
    seq(|ms|, i requires 0 <= i < |ms| => ms[i].id)
  }
}
