/** The per-row formatting of the earthquake list: splitting the place text
    into an offset and a location, choosing the magnitude badge's colour bin,
    and binding one record to one (possibly recycled) row. */
module QuakeAdapter {
  import opened JavaString
  import opened Quake

  /** The marker that tells a "<distance> km <direction> of <place>" text. */
  const KmMarker: string := "km "
  /** The marker that ends the offset part of such a text. */
  const OfMarker: string := "of "
  /** The offset shown when the place text carries no distance. */
  const NearThe: string := "Near the"

  /** The location line of a row: the place name after the first "of " when
      the text has a distance in it, the whole text unchanged otherwise. When
      "km " occurs but "of " does not, indexOf yields -1 and the cut falls at
      index 2. */
  function FormatLocation(place: string): (r: string)
    ensures !Contains(place, KmMarker) ==> r == place
    ensures Contains(place, KmMarker) ==>
      3 <= |place| && IndexOf(place, OfMarker) + 3 <= |place|
      && IsTrimmed(r) && PaddedBy(place[IndexOf(place, OfMarker) + 3..], r)
  {
    if Contains(place, KmMarker) then
      var t := IndexOf(place, OfMarker) + 3;
      Trim(place[t..])
    else
      place
  }

  /** The offset line of a row: the text up to and including the "of" of the
      first "of " when the text has a distance in it, "Near the" otherwise. */
  function FormatOffset(place: string): (r: string)
    ensures !Contains(place, KmMarker) ==> r == NearThe
    ensures Contains(place, KmMarker) ==>
      3 <= |place| && 1 <= IndexOf(place, OfMarker) + 2 < |place|
      && IsTrimmed(r) && PaddedBy(place[..IndexOf(place, OfMarker) + 2], r)
  {
    if Contains(place, KmMarker) then
      var t := IndexOf(place, OfMarker) + 2;
      Trim(place[..t])
    else
      NearThe
  }

  /** When "of " first occurs at index i, the two cuts sit on either side of
      its space: the untrimmed offset, that space and the untrimmed location
      put back together give the place text, and the offset ends in "of". */
  lemma SplitAtFirstOf(place: string, i: int)
    requires Contains(place, KmMarker)
    requires OccursAt(place, OfMarker, i)
    requires forall j :: 0 <= j < i ==> !OccursAt(place, OfMarker, j)
    ensures place[i + 2] == ' '
    ensures place[..i + 2] + [place[i + 2]] + place[i + 3..] == place
    ensures FormatOffset(place) == Trim(place[..i + 2])
    ensures FormatLocation(place) == Trim(place[i + 3..])
    ensures var offset := FormatOffset(place);
      2 <= |offset| && offset[|offset| - 2..] == "of"
  {
    IndexOfIsFirstOccurrence(place, OfMarker, i);
    assert FormatOffset(place) == Trim(place[..i + 2]);
    assert FormatLocation(place) == Trim(place[i + 3..]);
    OfSpelledOut(place, i);
    TrimmedHeadEndsInOf(place, i);
  }

  /** Cutting just before the space of an "of " and trimming leaves a text
      that still ends in "of". */
  lemma TrimmedHeadEndsInOf(place: string, i: int)
    requires OccursAt(place, OfMarker, i)
    ensures var offset := Trim(place[..i + 2]);
      2 <= |offset| && offset[|offset| - 2..] == "of"
  {
    OfSpelledOut(place, i);
    var head := place[..i + 2];
    assert head[|head| - 2..] == "of";
    TrimKeepsSuffix(head, "of");
  }

  /** The three characters of an occurrence of "of ". */
  lemma OfSpelledOut(place: string, i: int)
    requires OccursAt(place, OfMarker, i)
    ensures place[i] == 'o' && place[i + 1] == 'f' && place[i + 2] == ' '
    ensures place[..i + 2] + [place[i + 2]] + place[i + 3..] == place
  {
    assert place[i..i + 3] == OfMarker;
    assert place[i] == place[i..i + 3][0];
    assert place[i + 1] == place[i..i + 3][1];
    assert place[i + 2] == place[i..i + 3][2];
  }

  /** When "km " occurs but "of " never does, indexOf is -1 and the cuts fall
      at indices 1 and 2; "km " makes the text at least three characters long,
      so neither cut is out of range. */
  lemma SplitWithoutOf(place: string)
    requires Contains(place, KmMarker)
    requires forall j :: !OccursAt(place, OfMarker, j)
    ensures 3 <= |place|
    ensures FormatOffset(place) == Trim(place[..1])
    ensures FormatLocation(place) == Trim(place[2..])
  {
    IndexOfAbsent(place, OfMarker);
    assert FormatOffset(place) == Trim(place[..1]);
  }

  /** In the "km " branch both lines come out trimmed, so trimming them again
      changes nothing. */
  lemma FormattedLinesAreTrimmed(place: string)
    requires Contains(place, KmMarker)
    ensures Trim(FormatOffset(place)) == FormatOffset(place)
    ensures Trim(FormatLocation(place)) == FormatLocation(place)
  {
    TrimOfTrimmed(FormatOffset(place));
    TrimOfTrimmed(FormatLocation(place));
  }

  /** The ten colour resources magnitude1 ... magnitude9 and magnitude10plus,
      numbered 1 to 10. */
  type ColorBin = b: int | 1 <= b <= 10 witness 1

  /** The bin of colour resource magnitude10plus. */
  const TenPlus: ColorBin := 10

  /** The switch in getMagColor, on the integer floor of the magnitude. Only
      floors 0 and 1 share bin 1; a negative floor falls to the default case
      like a floor of ten or more. */
  function MagColor(magFloor: int): (b: ColorBin)
    ensures b == 1 <==> magFloor == 0 || magFloor == 1
    ensures 2 <= magFloor <= 9 ==> b == magFloor
    ensures 2 <= b <= 9 ==> b == magFloor
    ensures b == TenPlus <==> magFloor < 0 || 10 <= magFloor
  {
    match magFloor
    case 0 => 1
    case 1 => 1
    case 2 => 2
    case 3 => 3
    case 4 => 4
    case 5 => 5
    case 6 => 6
    case 7 => 7
    case 8 => 8
    case 9 => 9
    case _ => TenPlus
  }

  /** Java's smallest and largest `int`. */
  const IntMin: int := -0x8000_0000
  const IntMax: int := 0x7fff_ffff

  /** (int) Math.floor(mag): the floor of the magnitude, saturated to the
      range of `int` as Java's narrowing cast does. */
  function MagFloor(mag: real): (k: int)
    ensures IntMin <= k <= IntMax
    ensures IntMin as real <= mag < IntMax as real + 1.0 ==> k as real <= mag < k as real + 1.0
    ensures mag < IntMin as real ==> k == IntMin
    ensures IntMax as real + 1.0 <= mag ==> k == IntMax
  {
    if mag.Floor < IntMin then IntMin
    else if mag.Floor > IntMax then IntMax
    else mag.Floor
  }

  /** The badge bin as a function of the magnitude itself: [0, 2) is bin 1,
      [k, k + 1) is bin k for k from 2 to 9, and every other magnitude, below
      zero or from ten up, gets the 10-plus bin. */
  lemma BinOfMagnitude(mag: real)
    ensures 0.0 <= mag < 2.0 ==> MagColor(MagFloor(mag)) == 1
    ensures 2.0 <= mag < 10.0 ==>
      var b := MagColor(MagFloor(mag)); 2 <= b <= 9 && b as real <= mag < b as real + 1.0
    ensures mag < 0.0 || 10.0 <= mag ==> MagColor(MagFloor(mag)) == TenPlus
  {
    var k := MagFloor(mag);
    if IntMin as real <= mag < IntMax as real + 1.0 {
      assert k as real <= mag < k as real + 1.0;
    }
  }

  /** Over non-negative floors a larger floor never gets a lower bin. */
  lemma MagColorMonotone(k: int, m: int)
    requires 0 <= k <= m
    ensures MagColor(k) <= MagColor(m)
  {
  }

  /** The five text slots and the badge colour of one list_item row. */
  class Row {
    var magText: string
    var offsetText: string
    var locationText: string
    var dateText: string
    var timeText: string
    var badge: ColorBin

    /** A newly inflated row, before anything is bound to it. */
    constructor ()
      ensures magText == "" && offsetText == "" && locationText == ""
      ensures dateText == "" && timeText == ""
    {
      magText, offsetText, locationText, dateText, timeText := "", "", "", "", "";
      badge := 1;
    }
  }

  /** The adapter over the loaded records, in list order. DecimalFormat("0.0")
      and the two SimpleDateFormat patterns depend on the platform's locale
      and time zone, so they are supplied as functions. */
  class EarthquakeAdapter {
    const earthquakes: seq<Earthquake>
    const magFormat: real -> string
    const dateFormat: Long -> string
    const timeFormat: Long -> string

    constructor (earthquakes: seq<Earthquake>, magFormat: real -> string,
                 dateFormat: Long -> string, timeFormat: Long -> string)
      ensures this.earthquakes == earthquakes && this.magFormat == magFormat
      ensures this.dateFormat == dateFormat && this.timeFormat == timeFormat
    {
      this.earthquakes := earthquakes;
      this.magFormat := magFormat;
      this.dateFormat := dateFormat;
      this.timeFormat := timeFormat;
    }

    /** getView: reuse the recycled row when there is one, otherwise inflate a
        new one, then write the record at `position` into its six slots. */
    method GetView(position: int, convertView: Row?) returns (listItemView: Row)
      requires 0 <= position < |earthquakes|
      modifies convertView
      ensures convertView != null ==> listItemView == convertView
      ensures convertView == null ==> fresh(listItemView)
      ensures var quake := earthquakes[position];
        && listItemView.badge == MagColor(MagFloor(quake.mag))
        && listItemView.magText == magFormat(quake.mag)
        && listItemView.offsetText == FormatOffset(quake.city)
        && listItemView.locationText == FormatLocation(quake.city)
        && listItemView.dateText == dateFormat(quake.date)
        && listItemView.timeText == timeFormat(quake.date)
    {
      if convertView == null {
        listItemView := new Row();
      } else {
        listItemView := convertView;
      }
      var currentQuake := earthquakes[position];
      listItemView.badge := MagColor(MagFloor(currentQuake.mag));
      var formattedDate := dateFormat(currentQuake.date);
      var formattedTime := timeFormat(currentQuake.date);
      var locationData := currentQuake.city;
      var formattedLocation := FormatLocation(locationData);
      var formattedOffset := FormatOffset(locationData);
      var formattedMag := magFormat(currentQuake.mag);
      listItemView.magText := formattedMag;
      listItemView.offsetText := formattedOffset;
      listItemView.locationText := formattedLocation;
      listItemView.dateText := formattedDate;
      listItemView.timeText := formattedTime;
    }
  }

  /** Splitting undoes composing: a place text written as an offset that
      carries "km ", ends in "of" and has no earlier "of ", then a space, then
      a trimmed location, is shown as exactly that offset and that location. */
  lemma SplitRecoversParts(offset: string, location: string)
    requires IsTrimmed(offset) && IsTrimmed(location)
    requires 2 <= |offset| && offset[|offset| - 2..] == "of"
    requires Contains(offset, KmMarker) && !Contains(offset, OfMarker)
    ensures FormatOffset(offset + " " + location) == offset
    ensures FormatLocation(offset + " " + location) == location
  {
    var place := offset + " " + location;
    var i := |offset| - 2;
    var k := IndexOf(offset, KmMarker);
    OccursInPrefix(offset, " " + location, KmMarker, k);
    assert place == offset + (" " + location);
    assert Contains(place, KmMarker);
    assert offset[i] == offset[i..][0] && offset[i + 1] == offset[i..][1];
    assert place[i..i + 3] == OfMarker;
    forall j | 0 <= j < i ensures !OccursAt(place, OfMarker, j) {
      OccursInPrefix(offset, " " + location, OfMarker, j);
    }
    SplitAtFirstOf(place, i);
    assert place[..i + 2] == offset;
    assert place[i + 3..] == location;
    TrimOfTrimmed(offset);
    TrimOfTrimmed(location);
  }
}
