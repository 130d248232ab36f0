/**
  Decoding of the gazetteer's packed coordinate text "DDMMh DDDMMh" and the
  point WKT text built from a decoded position.

  Numbers are kept as signed integer hundredths: the loader reads the pieces
  "DD" and "MM" as the decimal "DD.MM" (not as degrees and minutes), so
  "4230N" is 42.30, kept here as 4230.
 */
module Coordinates {
  import opened Options
  import opened JavaText

  /** A decoded position, both coordinates in hundredths of the DD.MM reading. */
  datatype Position = Position(latitude: int, longitude: int)

  /** The range the two- and three-digit fields can express. */
  predicate InRange(p: Position) {
    -9999 <= p.latitude <= 9999 && -99999 <= p.longitude <= 99999
  }

  function Abs(x: int): nat {
    if x < 0 then -x else x
  }

  /**
    `Double.parseDouble(whole + "." + fraction)` for a two-character fraction, in
    hundredths; only plain digit strings are accepted.
   */
  function ParseHundredths(whole: string, fraction: string): (r: Option<nat>)
    requires |fraction| == 2
    ensures r.Some? <==> ParseUnsigned(whole).Some? && ParseUnsigned(fraction).Some?
    ensures r.Some? ==> r.value < Pow10(|whole|) * 100
    ensures r.Some? ==> r.value == ParseUnsigned(whole).value * 100 + ParseUnsigned(fraction).value
  {
    match (ParseUnsigned(whole), ParseUnsigned(fraction))
    case (Some(w), Some(f)) =>
      assert f < 100 by { assert Pow10(2) == 100; }
      assert w + 1 <= Pow10(|whole|);
      assert (w + 1) * 100 <= Pow10(|whole|) * 100;
      Some(w * 100 + f)
    case _ => None
  }

  /** The unsigned pieces of a trimmed coordinate string and the two hemisphere letters. */
  datatype Parts = Parts(latitude: nat, latHemisphere: char, longitude: nat, lonHemisphere: char)

  /**
    The substring steps of the loader: the first token gives degrees (0..2),
    minutes (2..4) and hemisphere (4..5); the second token gives degrees (0..3),
    minutes (3..5) and hemisphere (5..6). A missing token, a token too short
    for a substring, or a non-numeric piece makes the record unusable.
   */
  function DecodeParts(trimmed: string): (r: Option<Parts>)
    ensures r.Some? ==> r.value.latitude <= 9999 && r.value.longitude <= 99999
  {
    var c := JavaSplit(trimmed);
    if |c| < 2 || |c[0]| < 5 || |c[1]| < 6 then None
    else
      match (ParseHundredths(c[0][..2], c[0][2..4]), ParseHundredths(c[1][..3], c[1][3..5]))
      case (Some(lat), Some(lon)) =>
        assert Pow10(2) == 100 && Pow10(3) == 1000;
        Some(Parts(lat, c[0][4], lon, c[1][5]))
      case _ => None
  }

  /**
    Decoding as intended: the value is negated for hemisphere 'S' (latitude) or
    'W' (longitude), compared by value. A string that is empty after trimming
    decodes to nothing.
   */
  function DecodeCoordinates(combined: string): (r: Option<Position>)
    ensures r.Some? ==> InRange(r.value)
    ensures r.Some? <==> Trim(combined) != "" && DecodeParts(Trim(combined)).Some?
    ensures r.Some? ==>
      && Abs(r.value.latitude) == DecodeParts(Trim(combined)).value.latitude
      && Abs(r.value.longitude) == DecodeParts(Trim(combined)).value.longitude
    ensures r.Some? ==> (r.value.latitude < 0 <==> DecodeParts(Trim(combined)).value.latHemisphere == 'S' && r.value.latitude != 0)
    ensures r.Some? ==> (r.value.longitude < 0 <==> DecodeParts(Trim(combined)).value.lonHemisphere == 'W' && r.value.longitude != 0)
  {
    var t := Trim(combined);
    if t == "" then None
    else
      match DecodeParts(t)
      case None => None
      case Some(p) =>
        Some(Position(
          if p.latHemisphere == 'S' then -(p.latitude as int) else p.latitude,
          if p.lonHemisphere == 'W' then -(p.longitude as int) else p.longitude))
  }

  /**
    Decoding as shipped: the hemisphere tests compare a fresh substring with a
    string literal by reference, which never holds, so no value is negated.
   */
  function DecodeCoordinatesAsWritten(combined: string): (r: Option<Position>)
    ensures r.Some? ==> InRange(r.value) && r.value.latitude >= 0 && r.value.longitude >= 0
    ensures r.Some? <==> DecodeCoordinates(combined).Some?
    ensures r.Some? ==> r.value == Position(Abs(DecodeCoordinates(combined).value.latitude), Abs(DecodeCoordinates(combined).value.longitude))
  {
    var t := Trim(combined);
    if t == "" then None
    else
      match DecodeParts(t)
      case None => None
      case Some(p) => Some(Position(p.latitude, p.longitude))
  }

  /** The two-token text "DDMMh DDDMMh" of a position, in the layout of the reference dataset. */
  function EncodeCoordinates(p: Position): (s: string)
    requires InRange(p)
  {
    LatitudeToken(Abs(p.latitude), if p.latitude < 0 then 'S' else 'N')
      + " " + LongitudeToken(Abs(p.longitude), if p.longitude < 0 then 'W' else 'E')
  }

  /** "DDMMh": the magnitude `m` (DD.MM in hundredths) as two plus two digits, then the hemisphere letter. */
  function LatitudeToken(m: nat, hemisphere: char): (t: string)
    requires m <= 9999
    ensures |t| == 5
  {
    assert Pow10(2) == 100;
    Padded(m / 100, 2) + Padded(m % 100, 2) + [hemisphere]
  }

  /** "DDDMMh": the magnitude `m` as three plus two digits, then the hemisphere letter. */
  function LongitudeToken(m: nat, hemisphere: char): (t: string)
    requires m <= 99999
    ensures |t| == 6
  {
    assert Pow10(2) == 100 && Pow10(3) == 1000;
    Padded(m / 100, 3) + Padded(m % 100, 2) + [hemisphere]
  }

  predicate IsHemisphereLetter(c: char) {
    c == 'N' || c == 'S' || c == 'E' || c == 'W'
  }

  lemma HundredsSplit(x: nat)
    ensures x / 100 * 100 + x % 100 == x
  {
  }

  lemma {:induction false} LatitudeTokenPieces(m: nat, hemisphere: char)
    requires m <= 9999 && IsHemisphereLetter(hemisphere)
    ensures var t := LatitudeToken(m, hemisphere);
      && NoSpace(t) && !IsTrimmable(t[0]) && t[4] == hemisphere
      && ParseHundredths(t[..2], t[2..4]) == Some(m)
  {
    assert Pow10(2) == 100;
    var d := Padded(m / 100, 2);
    var f := Padded(m % 100, 2);
    var t := LatitudeToken(m, hemisphere);
    assert t == d + f + [hemisphere];
    assert t[..2] == d && t[2..4] == f;
    assert forall i :: 0 <= i < 2 ==> t[i] == d[i] && t[i + 2] == f[i];
    HundredsSplit(m);
  }

  lemma {:induction false} LongitudeTokenPieces(m: nat, hemisphere: char)
    requires m <= 99999 && IsHemisphereLetter(hemisphere)
    ensures var t := LongitudeToken(m, hemisphere);
      && NoSpace(t) && !IsTrimmable(t[5]) && t[5] == hemisphere
      && ParseHundredths(t[..3], t[3..5]) == Some(m)
  {
    assert Pow10(2) == 100 && Pow10(3) == 1000;
    var d := Padded(m / 100, 3);
    var f := Padded(m % 100, 2);
    var t := LongitudeToken(m, hemisphere);
    assert t == d + f + [hemisphere];
    assert t[..3] == d && t[3..5] == f;
    assert forall i :: 0 <= i < 3 ==> t[i] == d[i];
    assert forall i :: 0 <= i < 2 ==> t[i + 3] == f[i];
    HundredsSplit(m);
  }

  /**
    The loader's reading of a trimmed text that starts with two words
    separated by any `\s` character, whatever follows them: the record is
    kept exactly when the fixed substrings of both words are numerals, and
    the pieces are then those substrings and the hemisphere characters at
    positions 4 and 5; longer words and further words are ignored.
   */
  lemma DecodePartsOfWords(a: string, c: char, b: string, tail: string)
    requires |a| >= 5 && |b| >= 6 && NoSpace(a) && NoSpace(b) && IsRegexSpace(c)
    requires tail == [] || IsRegexSpace(tail[0])
    ensures var r := DecodeParts(a + [c] + b + tail);
      var latitude := ParseHundredths(a[..2], a[2..4]);
      var longitude := ParseHundredths(b[..3], b[3..5]);
      && (r.Some? <==> latitude.Some? && longitude.Some?)
      && (r.Some? ==> r.value == Parts(latitude.value, a[4], longitude.value, b[5]))
  {
    SplitLeadingWords(a, c, b, tail);
  }

  /** A text without a separator has no second token: the record is skipped. */
  lemma DecodePartsOneWord(s: string)
    requires NoSpace(s)
    ensures DecodeParts(s).None?
  {
  }

  /** A first token shorter than five characters or a second shorter than six makes the record unusable. */
  lemma DecodePartsShortToken(a: string, c: char, b: string, tail: string)
    requires NoSpace(a) && NoSpace(b) && b != "" && IsRegexSpace(c)
    requires tail == [] || IsRegexSpace(tail[0])
    requires |a| < 5 || |b| < 6
    ensures DecodeParts(a + [c] + b + tail).None?
  {
    SplitLeadingWords(a, c, b, tail);
  }

  /** Two adjacent separators leave an empty second piece, too short for its substrings: the record is unusable. */
  lemma DecodePartsEmptySecond(a: string, c: char, tail: string)
    requires NoSpace(a) && IsRegexSpace(c) && tail != [] && IsRegexSpace(tail[0])
    ensures DecodeParts(a + [c] + tail).None?
  {
    var s := a + [c] + tail;
    SplitAfterWord(a, c, tail);
    SplitFirstWord("", tail);
    assert "" + tail == tail;
    assert s[|a|] == c;
    assert |JavaSplit(s)| >= 2 ==> JavaSplit(s)[1] == SplitOnSpaces(s)[1];
  }

  /** The pieces of a well-formed "DDMMh DDDMMh" string are read back exactly. */
  lemma DecodePartsOfTokens(latitude: nat, latHem: char, longitude: nat, lonHem: char)
    requires latitude <= 9999 && longitude <= 99999
    requires IsHemisphereLetter(latHem) && IsHemisphereLetter(lonHem)
    ensures var s := LatitudeToken(latitude, latHem) + " " + LongitudeToken(longitude, lonHem);
      Trim(s) == s && DecodeParts(s) == Some(Parts(latitude, latHem, longitude, lonHem))
  {
    var a := LatitudeToken(latitude, latHem);
    var b := LongitudeToken(longitude, lonHem);
    LatitudeTokenPieces(latitude, latHem);
    LongitudeTokenPieces(longitude, lonHem);
    var s := a + " " + b;
    assert s == a + [' '] + b + [];
    assert s[0] == a[0] && s[|s| - 1] == b[5];
    DecodePartsOfWords(a, ' ', b, []);
  }

  /** Encoding a position yields an already trimmed text whose pieces are the magnitudes and hemisphere letters. */
  lemma EncodedParts(p: Position)
    requires InRange(p)
    ensures Trim(EncodeCoordinates(p)) == EncodeCoordinates(p)
    ensures DecodeParts(EncodeCoordinates(p))
      == Some(Parts(Abs(p.latitude), if p.latitude < 0 then 'S' else 'N', Abs(p.longitude), if p.longitude < 0 then 'W' else 'E'))
  {
    var latHem := if p.latitude < 0 then 'S' else 'N';
    var lonHem := if p.longitude < 0 then 'W' else 'E';
    var s := LatitudeToken(Abs(p.latitude), latHem) + " " + LongitudeToken(Abs(p.longitude), lonHem);
    assert EncodeCoordinates(p) == s;
    DecodePartsOfTokens(Abs(p.latitude), latHem, Abs(p.longitude), lonHem);
    assert Trim(s) == s;
    assert DecodeParts(s) == Some(Parts(Abs(p.latitude), latHem, Abs(p.longitude), lonHem));
  }

  /** Decoding inverts encoding for every position the two fields can express. */
  lemma {:induction false} DecodeEncode(p: Position)
    requires InRange(p)
    ensures DecodeCoordinates(EncodeCoordinates(p)) == Some(p)
  {
    var s := EncodeCoordinates(p);
    EncodedParts(p);
    var r := DecodeCoordinates(s);
    assert r.Some?;
    assert r.value.latitude == p.latitude;
    assert r.value.longitude == p.longitude;
  }

  /** The shipped decoding loses the sign of every southern latitude and western longitude. */
  lemma {:induction false} AsWrittenDropsHemisphere(p: Position)
    requires InRange(p)
    ensures DecodeCoordinatesAsWritten(EncodeCoordinates(p)) == Some(Position(Abs(p.latitude), Abs(p.longitude)))
  {
    EncodedParts(p);
  }

  lemma PaddedTwo(n: nat)
    requires n < 100
    ensures Padded(n, 2) == [DigitChar(n / 10), DigitChar(n % 10)]
  {
    assert Pow10(1) == 10;
    assert Padded(n / 10, 1) == Padded(0, 0) + [DigitChar(n / 10)];
  }

  lemma LatitudeExample(hemisphere: char)
    ensures LatitudeToken(4230, hemisphere) == ['4', '2', '3', '0', hemisphere]
  {
    assert 4230 / 100 == 42 && 4230 % 100 == 30;
    PaddedTwo(42);
    PaddedTwo(30);
    assert DigitChar(4) == '4' && DigitChar(2) == '2';
    assert DigitChar(3) == '3' && DigitChar(0) == '0';
  }

  lemma LongitudeExample(hemisphere: char)
    ensures LongitudeToken(115, hemisphere) == ['0', '0', '1', '1', '5', hemisphere]
  {
    assert 115 / 100 == 1 && 115 % 100 == 15;
    PaddedTwo(15);
    PaddedTwo(0);
    assert Padded(1, 3) == Padded(0, 2) + [DigitChar(1)];
    assert DigitChar(0) == '0' && DigitChar(1) == '1' && DigitChar(5) == '5';
  }

  /** Five and six characters joined by a space, spelled out. */
  lemma TwoTokens(a: string, b: string)
    requires |a| == 5 && |b| == 6
    ensures a + " " + b == [a[0], a[1], a[2], a[3], a[4], ' ', b[0], b[1], b[2], b[3], b[4], b[5]]
  {
  }

  /** "4230S 00115W" is the text of the position -42.30 / -1.15. */
  lemma SouthWestText()
    ensures EncodeCoordinates(Position(-4230, -115)) == "4230S 00115W"
  {
    LatitudeExample('S');
    LongitudeExample('W');
    TwoTokens(LatitudeToken(4230, 'S'), LongitudeToken(115, 'W'));
  }

  /** "4230N 00115E" is the text of the position 42.30 / 1.15. */
  lemma NorthEastText()
    ensures EncodeCoordinates(Position(4230, 115)) == "4230N 00115E"
  {
    LatitudeExample('N');
    LongitudeExample('E');
    TwoTokens(LatitudeToken(4230, 'N'), LongitudeToken(115, 'E'));
  }

  /** "4230S 00115W": intended -42.30 / -1.15, shipped +42.30 / +1.15. */
  lemma SouthWestExample()
    ensures DecodeCoordinates("4230S 00115W") == Some(Position(-4230, -115))
    ensures DecodeCoordinatesAsWritten("4230S 00115W") == Some(Position(4230, 115))
  {
    SouthWestText();
    DecodeEncode(Position(-4230, -115));
    AsWrittenDropsHemisphere(Position(-4230, -115));
  }

  /** "4230N 00115E" decodes to 42.30 / 1.15. */
  lemma NorthEastExample()
    ensures DecodeCoordinates("4230N 00115E") == Some(Position(4230, 115))
  {
    NorthEastText();
    DecodeEncode(Position(4230, 115));
  }

  // ---------------------------------------------------------------------------
  // Point WKT text

  /** The fraction digits `Double.toString` writes for `f` hundredths: one digit when the second would be a trailing zero. */
  function FractionText(f: nat): (t: string)
    requires f < 100
  {
    if f % 10 == 0 then [DigitChar(f / 10)] else [DigitChar(f / 10), DigitChar(f % 10)]
  }

  /** `Double.toString` of the non-negative value with `m` hundredths (42.30 is written "42.3", 1.00 is "1.0"). */
  function MagnitudeText(m: nat): string
  {
    NatToString(m / 100) + "." + FractionText(m % 100)
  }

  /** `Double.toString` of the value with `h` hundredths. */
  function DegreesText(h: int): string
  {
    if h < 0 then "-" + MagnitudeText(-h) else MagnitudeText(h)
  }

  /** The WKT text `"POINT (" + longitude + " " + latitude + ")"`: x, the longitude, comes first. */
  function PointWkt(longitude: int, latitude: int): string
  {
    "POINT (" + DegreesText(longitude) + " " + DegreesText(latitude) + ")"
  }

  /** The two ordinates of a WKT point, in the order they are written. */
  datatype XY = XY(x: int, y: int)

  /** Reads digits, '.', then one or two digits, as hundredths. */
  function ParseMagnitude(u: string): Option<nat>
  {
    match IndexOf(u, '.')
    case None => None
    case Some(k) =>
      var whole := u[..k];
      var fraction := u[k + 1..];
      if |fraction| != 1 && |fraction| != 2 then None
      else
        match (ParseUnsigned(whole), ParseUnsigned(fraction))
        case (Some(w), Some(f)) => Some(w * 100 + (if |fraction| == 1 then f * 10 else f))
        case _ => None
  }

  /** Reads a numeral as `DegreesText` writes it: an optional '-' before the magnitude. */
  function ParseDegrees(t: string): Option<int>
  {
    if t != [] && t[0] == '-' then
      match ParseMagnitude(t[1..])
      case None => None
      case Some(m) => Some(-(m as int))
    else
      match ParseMagnitude(t)
      case None => None
      case Some(m) => Some(m as int)
  }

  /** Reads "x y" where x holds no space. */
  function ParsePointBody(body: string): Option<XY>
  {
    match IndexOf(body, ' ')
    case None => None
    case Some(k) =>
      match (ParseDegrees(body[..k]), ParseDegrees(body[k + 1..]))
      case (Some(x), Some(y)) => Some(XY(x, y))
      case _ => None
  }

  /** Reads the two ordinates of a text "POINT (x y)". */
  function ParsePointWkt(s: string): Option<XY>
  {
    if |s| < 8 || s[..7] != "POINT (" || s[|s| - 1] != ')' then None
    else ParsePointBody(s[7..|s| - 1])
  }

  lemma {:induction false} FractionTextRoundTrip(f: nat)
    requires f < 100
    ensures var t := FractionText(f);
      (|t| == 1 || |t| == 2) && AllDigits(t) && ParseUnsigned(t).Some?
      && (if |t| == 1 then ParseUnsigned(t).value * 10 else ParseUnsigned(t).value) == f
  {
    var t := FractionText(f);
    if f % 10 == 0 {
      DigitsValueAppend([], DigitChar(f / 10));
      assert [] + [DigitChar(f / 10)] == t;
    } else {
      DigitsValueAppend([], DigitChar(f / 10));
      assert [] + [DigitChar(f / 10)] == [DigitChar(f / 10)];
      DigitsValueAppend([DigitChar(f / 10)], DigitChar(f % 10));
      assert [DigitChar(f / 10)] + [DigitChar(f % 10)] == t;
    }
  }

  /** A magnitude is written with digits and one '.', and reads back as itself. */
  lemma {:induction false} MagnitudeTextRoundTrip(m: nat)
    ensures ParseMagnitude(MagnitudeText(m)) == Some(m)
    ensures MagnitudeText(m) != [] && IsDigit(MagnitudeText(m)[0]) && ' ' !in MagnitudeText(m)
  {
    var w := NatToString(m / 100);
    var f := FractionText(m % 100);
    FractionTextRoundTrip(m % 100);
    var u := MagnitudeText(m);
    assert u == w + ['.'] + f;
    assert '.' !in w by {
      forall i | 0 <= i < |w| ensures w[i] != '.' { assert IsDigit(w[i]); }
    }
    IndexOfAfterWord(w, '.', f);
    assert u[..|w|] == w && u[|w| + 1..] == f;
    assert ParseMagnitude(u) == Some(m) by {
      HundredsSplit(m);
    }
    assert u[0] == w[0];
    forall i | 0 <= i < |u| ensures u[i] != ' ' {
      if i < |w| { assert u[i] == w[i] && IsDigit(w[i]); }
      else if i > |w| { assert u[i] == f[i - |w| - 1] && IsDigit(f[i - |w| - 1]); }
    }
  }

  /** A leading '-' negates what the rest reads as. */
  lemma NegatedText(u: string, m: nat)
    requires ParseMagnitude(u) == Some(m) && ' ' !in u
    ensures ParseDegrees("-" + u) == Some(-(m as int)) && ' ' !in "-" + u
  {
    var t := "-" + u;
    assert t[0] == '-' && t[1..] == u;
    assert forall i :: 1 <= i < |t| ==> t[i] == u[i - 1];
  }

  /** Without a leading '-' the text reads as its magnitude. */
  lemma UnsignedText(u: string, m: nat)
    requires ParseMagnitude(u) == Some(m) && u != [] && u[0] != '-'
    ensures ParseDegrees(u) == Some(m as int)
  {
  }

  /** Writing a value and reading it back gives the value again. */
  lemma {:induction false} DegreesTextRoundTrip(h: int)
    ensures ParseDegrees(DegreesText(h)) == Some(h)
    ensures ' ' !in DegreesText(h)
  {
    var u := MagnitudeText(Abs(h));
    MagnitudeTextRoundTrip(Abs(h));
    if h < 0 {
      assert DegreesText(h) == "-" + u;
      NegatedText(u, Abs(h));
    } else {
      assert DegreesText(h) == u;
      UnsignedText(u, Abs(h));
    }
  }

  /** The point of an entry at latitude 10, longitude 20 is written with `Double.toString` digits: "POINT (20.0 10.0)". */
  lemma PointWktExample()
    ensures PointWkt(2000, 1000) == "POINT (20.0 10.0)"
  {
    TwentyText();
    TenText();
  }

  lemma TwentyText()
    ensures DegreesText(2000) == "20.0"
  {
    assert NatToString(20) == "20" by { assert NatToString(2) == "2"; }
    assert FractionText(0) == "0";
  }

  lemma TenText()
    ensures DegreesText(1000) == "10.0"
  {
    assert NatToString(10) == "10" by { assert NatToString(1) == "1"; }
    assert FractionText(0) == "0";
  }

  /** A south-western point carries both signs: "POINT (-1.15 -42.3)". */
  lemma SouthWestPointExample()
    ensures PointWkt(-115, -4230) == "POINT (-1.15 -42.3)"
  {
    assert NatToString(1) == "1";
    assert NatToString(42) == "42" by { assert NatToString(4) == "4"; }
    assert FractionText(15) == "15" && FractionText(30) == "3";
    assert DegreesText(-115) == "-1.15";
    assert DegreesText(-4230) == "-42.3";
  }

  /** The framing "POINT (" ... ")" around a body is recognised and stripped. */
  lemma PointWktFrame(body: string)
    ensures ParsePointWkt("POINT (" + body + ")") == ParsePointBody(body)
  {
    var s := "POINT (" + body + ")";
    assert s[..7] == "POINT (";
    assert s[7..|s| - 1] == body;
  }

  /** "x y" reads back as the two numerals on either side of the space. */
  lemma PointBodyOfWords(a: string, b: string, x: int, y: int)
    requires ParseDegrees(a) == Some(x) && ' ' !in a && ParseDegrees(b) == Some(y)
    ensures ParsePointBody(a + " " + b) == Some(XY(x, y))
  {
    var body := a + " " + b;
    IndexOfAfterWord(a, ' ', b);
    assert body == a + [' '] + b;
    assert body[..|a|] == a && body[|a| + 1..] == b;
  }

  /** The point text reads back as x = longitude, y = latitude. */
  lemma {:induction false} PointWktRoundTrip(longitude: int, latitude: int)
    ensures ParsePointWkt(PointWkt(longitude, latitude)) == Some(XY(longitude, latitude))
  {
    var a := DegreesText(longitude);
    var b := DegreesText(latitude);
    assert PointWkt(longitude, latitude) == "POINT (" + (a + " " + b) + ")";
    PointWktFrame(a + " " + b);
    DegreesTextRoundTrip(longitude);
    DegreesTextRoundTrip(latitude);
    PointBodyOfWords(a, b, longitude, latitude);
  }

}
