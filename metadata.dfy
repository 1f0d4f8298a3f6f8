/**
 * `extract_metadata` of image_analyzer.py, over the dictionary that
 * `piexif.load` returns: the capture time from the Exif IFD and decimal
 * coordinates from the GPS IFD, whose latitude and longitude are three
 * RATIONALs (degrees, minutes, seconds) with an ASCII reference letter, as in
 * section 4.6.6 of Exif 2.3 (CIPA DC-008). Any exception gives `{}`.
 */
module Metadata {
  import opened Wrappers
  import Utf8

  type Bytes = seq<Utf8.byte>

  /** An EXIF RATIONAL as piexif gives it: (numerator, denominator). */
  datatype Rational = Rational(num: int, den: int)

  /** A tag's value as piexif gives it: `bytes` for ASCII tags, a tuple of pairs for RATIONAL tags. */
  datatype TagValue = Ascii(bytes: Bytes) | Rationals(values: seq<Rational>)

  /** One IFD of `piexif.load`'s result: tag number to value. */
  type Ifd = map<int, TagValue>

  /** The two IFDs of `piexif.load(img_path)` that are read. */
  datatype ExifDict = ExifDict(exif: Ifd, gps: Ifd)

  /** Tag numbers: `ExifIFD.DateTimeOriginal` and the four `GPSIFD` tags. */
  const DateTimeOriginal: int := 0x9003
  const GPSLatitudeRef: int := 1
  const GPSLatitude: int := 2
  const GPSLongitudeRef: int := 3
  const GPSLongitude: int := 4

  /** The reference letters `b'S'` and `b'W'`. */
  const South: Bytes := [0x53]
  const West: Bytes := [0x57]

  /** The exceptions the `try` block can raise; `InvalidImageData` is `piexif.load` failing. */
  datatype PyError = InvalidImageData | TypeError | IndexError | ZeroDivisionError | UnicodeDecodeError | AttributeError

  /** The dictionary `extract_metadata` returns: `{}`, or the three keys with values or `None`. */
  datatype ImageMetadata =
    | NoMetadata
    | Extracted(dateTime: Option<string>, latitude: Option<real>, longitude: Option<real>)

  /** `ifd.get(tag)`. */
  function Get(ifd: Ifd, tag: int): (v: Option<TagValue>)
    ensures v.Some? <==> tag in ifd
  {
    if tag in ifd then Some(ifd[tag]) else None
  }

  /** `dms[i][0] / dms[i][1]`, with the exception each malformed `dms` raises. */
  function Component(dms: Option<TagValue>, i: nat): Result<real, PyError> {
    match dms
    case None => Failure(TypeError)
    case Some(Ascii(b)) => if i < |b| then Failure(TypeError) else Failure(IndexError)
    case Some(Rationals(vs)) =>
      if i >= |vs| then Failure(IndexError)
      else if vs[i].den == 0 then Failure(ZeroDivisionError)
      else Success(vs[i].num as real / vs[i].den as real)
  }

  /** `ref in [b'S', b'W']`. */
  predicate IsSouthOrWest(ref: Option<TagValue>) {
    ref == Some(Ascii(South)) || ref == Some(Ascii(West))
  }

  /** A coordinate tag `dms_to_decimal` can read: at least three rationals, the first three with non-zero denominators. */
  predicate WellFormedDms(dms: Option<TagValue>) {
    dms.Some? && dms.value.Rationals? && |dms.value.values| >= 3 &&
    forall i :: 0 <= i < 3 ==> dms.value.values[i].den != 0
  }

  function Ratio(q: Rational): real
    requires q.den != 0
  {
    q.num as real / q.den as real
  }

  /**
   * `dms_to_decimal(dms, ref)`: degrees + minutes/60 + seconds/3600 from the
   * three rationals, negated exactly when the reference is `b'S'` or `b'W'`;
   * raises on a missing or malformed tag and on a zero denominator.
   */
  function DmsToDecimal(dms: Option<TagValue>, ref: Option<TagValue>): (r: Result<real, PyError>)
    ensures r.Success? <==> WellFormedDms(dms)
    ensures r.Success? ==>
      var vs := dms.value.values;
      var magnitude := Ratio(vs[0]) + Ratio(vs[1]) / 60.0 + Ratio(vs[2]) / 3600.0;
      r.value == if IsSouthOrWest(ref) then -magnitude else magnitude
  {
    var degrees :- Component(dms, 0);
    var minutes :- Component(dms, 1);
    var seconds :- Component(dms, 2);
    var decimal := degrees + minutes / 60.0 + seconds / 3600.0;
    Success(if IsSouthOrWest(ref) then -decimal else decimal)
  }

  /** `date_time.decode() if date_time else None`. */
  function DecodeDate(v: Option<TagValue>): (r: Result<Option<string>, PyError>)
    ensures r.Success? ==> (r.value.Some? <==> Truthy(v))
    ensures r.Success? && r.value.Some? ==>
      r.value.value != "" && v.value.Ascii? && Utf8.Encode(r.value.value) == v.value.bytes
    ensures r.Failure? <==> Truthy(v) && !(v.value.Ascii? && Utf8.Decode(v.value.bytes).Some?)
  {
    match v
    case None => Success(None)
    case Some(Ascii(b)) =>
      if b == [] then Success(None)
      else (match Utf8.Decode(b)
        case None => Failure(UnicodeDecodeError)
        case Some(s) =>
          Utf8.EncodeDecode(b);
          Success(Some(s)))
    case Some(Rationals(vs)) => if vs == [] then Success(None) else Failure(AttributeError)
  }

  /** The date tag holds something truthy: non-empty bytes or a non-empty tuple. */
  predicate Truthy(v: Option<TagValue>) {
    v.Some? && (match v.value case Ascii(b) => b != [] case Rationals(vs) => vs != [])
  }

  /** The body of the `try` block of `extract_metadata`; `None` for `loaded` is `piexif.load` raising. */
  function ExtractOrRaise(loaded: Option<ExifDict>): Result<ImageMetadata, PyError> {
    match loaded
    case None => Failure(InvalidImageData)
    case Some(d) =>
      var coordinates :-
        if |d.gps| > 0 then
          var lat :- DmsToDecimal(Get(d.gps, GPSLatitude), Get(d.gps, GPSLatitudeRef));
          var lon :- DmsToDecimal(Get(d.gps, GPSLongitude), Get(d.gps, GPSLongitudeRef));
          Success((Some(lat), Some(lon)))
        else
          Success((None, None));
      var dateTime :- DecodeDate(Get(d.exif, DateTimeOriginal));
      Success(Extracted(dateTime, coordinates.0, coordinates.1))
  }

  /**
   * `extract_metadata(img_path)`: `{}` when anything raises; otherwise
   * coordinates exactly when the GPS IFD is non-empty and a date exactly when
   * the date tag is truthy.
   */
  function ExtractMetadata(loaded: Option<ExifDict>): (r: ImageMetadata)
    ensures loaded.None? ==> r == NoMetadata
    ensures r.Extracted? ==> loaded.Some? && (r.latitude.Some? <==> |loaded.value.gps| > 0)
    ensures r.Extracted? ==> (r.longitude.Some? <==> |loaded.value.gps| > 0)
    ensures r.Extracted? ==> (r.dateTime.Some? <==> Truthy(Get(loaded.value.exif, DateTimeOriginal)))
    ensures r.Extracted? ==> DecodeDate(Get(loaded.value.exif, DateTimeOriginal)) == Success(r.dateTime)
    ensures r.Extracted? && |loaded.value.gps| > 0 ==>
      r.latitude.Some? && r.longitude.Some? &&
      DmsToDecimal(Get(loaded.value.gps, GPSLatitude), Get(loaded.value.gps, GPSLatitudeRef)) == Success(r.latitude.value) &&
      DmsToDecimal(Get(loaded.value.gps, GPSLongitude), Get(loaded.value.gps, GPSLongitudeRef)) == Success(r.longitude.value)
    ensures r == NoMetadata <==>
      loaded.None? ||
      (|loaded.value.gps| > 0 &&
       !(WellFormedDms(Get(loaded.value.gps, GPSLatitude)) && WellFormedDms(Get(loaded.value.gps, GPSLongitude)))) ||
      DecodeDate(Get(loaded.value.exif, DateTimeOriginal)).Failure?
  {
    match ExtractOrRaise(loaded)
    case Success(m) => m
    case Failure(_) => NoMetadata
  }

  /** The sign rule: a South or West reference gives the negation of what any other reference gives. */
  lemma SouthWestNegates(dms: Option<TagValue>, ref: Option<TagValue>, other: Option<TagValue>)
    requires WellFormedDms(dms) && IsSouthOrWest(ref) && !IsSouthOrWest(other)
    ensures DmsToDecimal(dms, ref).value == -DmsToDecimal(dms, other).value
  {
  }

  /**
   * With non-negative numerators and positive denominators the result is
   * non-negative for every reference other than South or West (a missing one
   * included) and non-positive for South and West.
   */
  lemma SignOfDecimal(dms: Option<TagValue>, ref: Option<TagValue>)
    requires WellFormedDms(dms)
    requires forall i :: 0 <= i < 3 ==> dms.value.values[i].num >= 0 && dms.value.values[i].den > 0
    ensures !IsSouthOrWest(ref) ==> DmsToDecimal(dms, ref).value >= 0.0
    ensures IsSouthOrWest(ref) ==> DmsToDecimal(dms, ref).value <= 0.0
  {
    var vs := dms.value.values;
    forall i | 0 <= i < 3
      ensures Ratio(vs[i]) >= 0.0
    {
      NonNegativeRatio(vs[i].num as real, vs[i].den as real);
    }
  }

  lemma NonNegativeRatio(a: real, b: real)
    requires a >= 0.0 && b > 0.0
    ensures a / b >= 0.0
  {
  }

  /** An image whose GPS IFD is empty keeps its date and reports no coordinates. */
  lemma EmptyGpsKeepsDate(d: ExifDict)
    requires |d.gps| == 0 && DecodeDate(Get(d.exif, DateTimeOriginal)).Success?
    ensures ExtractMetadata(Some(d)) == Extracted(DecodeDate(Get(d.exif, DateTimeOriginal)).value, None, None)
  {
  }

  /** A non-empty GPS IFD without one of the coordinate tags makes the whole result `{}`. */
  lemma MissingCoordinateEmptiesAll(d: ExifDict)
    requires |d.gps| > 0 && (GPSLatitude !in d.gps || GPSLongitude !in d.gps)
    ensures ExtractMetadata(Some(d)) == NoMetadata
  {
  }

  /** A zero denominator in a coordinate makes the whole result `{}`. */
  lemma ZeroDenominatorEmptiesAll(d: ExifDict, tag: int, i: nat)
    requires |d.gps| > 0 && (tag == GPSLatitude || tag == GPSLongitude) && tag in d.gps
    requires d.gps[tag].Rationals? && i < 3 && i < |d.gps[tag].values| && d.gps[tag].values[i].den == 0
    ensures ExtractMetadata(Some(d)) == NoMetadata
  {
  }

  /** Extracted coordinates are the converted GPS tags. */
  lemma CoordinatesAreConverted(d: ExifDict)
    requires ExtractMetadata(Some(d)).Extracted? && |d.gps| > 0
    ensures ExtractMetadata(Some(d)).latitude ==
      Some(DmsToDecimal(Get(d.gps, GPSLatitude), Get(d.gps, GPSLatitudeRef)).value)
    ensures ExtractMetadata(Some(d)).longitude ==
      Some(DmsToDecimal(Get(d.gps, GPSLongitude), Get(d.gps, GPSLongitudeRef)).value)
  {
  }

  /** 37 deg 46' 26.4" N and 122 deg 25' 9.6" W convert to 37.774 and about -122.419. */
  lemma SanFranciscoExample()
    ensures DmsToDecimal(Some(Rationals([Rational(37, 1), Rational(46, 1), Rational(264, 10)])), Some(Ascii([0x4E])))
      == Success(37.774)
    ensures var lon := DmsToDecimal(Some(Rationals([Rational(122, 1), Rational(25, 1), Rational(96, 10)])), Some(Ascii(West)));
      lon.Success? && -122.42 < lon.value < -122.419
  {
  }
}
