/** The immutable earthquake record the list adapter renders. */
module Quake {

  /** Java's 64-bit `long`, used for the time of the event in milliseconds
      since the Unix epoch. */
  newtype Long = x: int | -0x8000_0000_0000_0000 <= x < 0x8000_0000_0000_0000

  /** One earthquake: magnitude, place description, time and detail-page link.
      Every field is set by the constructor and never assigned again, so the
      four getters of the Java class are the datatype's destructors. */
  datatype Earthquake = Earthquake(mag: real, city: string, date: Long, url: string)

  /** Each getter returns what was passed to the constructor, on every call. */
  lemma GettersReturnConstructorArguments(mag: real, city: string, date: Long, url: string)
    ensures var q := Earthquake(mag, city, date, url);
      q.mag == mag && q.city == city && q.date == date && q.url == url
  {
  }

  /** A record is nothing more than its four fields: two records whose getters
      agree are indistinguishable as values. Java objects also carry an
      identity (the class does not override equals); that identity is not
      modelled. */
  lemma RecordDeterminedByGetters(p: Earthquake, q: Earthquake)
    requires p.mag == q.mag && p.city == q.city && p.date == q.date && p.url == q.url
    ensures p == q
  {
  }
}
