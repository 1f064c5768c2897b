/** The coordinate printer and parser of src/gpsmisc.c, over exact reals. */
module Coordinates {
  import opened Common
  import opened Decimal

  datatype Mode = DegMinSec | DegMinDec | DegDec

  /** The two bytes of the degree sign in UTF-8. */
  const GRADSYM: string := "\U{00C2}\U{00B0}"

  /** *dec when the text cannot be read. */
  const BAD_COORDINATE: real := -1002.0

  // ---------------------------------------------------------------- the parser

  /** g_ascii_strup on one character. */
  function Upper(c: char): char {
    if 'a' <= c <= 'z' then (c as int - 32) as char else c
  }

  /** After upper-casing: ',' becomes '.', and what is not a digit or '.' becomes a blank. */
  function CleanChar(c: char): char {
    if c == ',' then '.' else if IsDigit(c) || c == '.' then c else ' '
  }

  function Clean(s: string): (t: string)
    ensures |t| == |s| && forall i :: 0 <= i < |s| ==> t[i] == CleanChar(s[i])
  {
    if s == "" then "" else [CleanChar(s[0])] + Clean(s[1..])
  }

  /** The text has a letter or sign that makes the value negative. */
  predicate Negative(s: string) {
    exists i :: 0 <= i < |s| && Upper(s[i]) in {'S', 'W', '-'}
  }

  function SkipBlanks(s: string): (t: string)
    ensures |t| <= |s| && (t != "" ==> t[0] != ' ')
  {
    if s != "" && s[0] == ' ' then SkipBlanks(s[1..]) else s
  }

  /** sscanf with `count` "%lf" directives: the values converted before the first failure. */
  function ScanDoubles(s: string, count: nat): (values: seq<real>)
    ensures |values| <= count
    decreases count
  {
    if count == 0 then []
    else
      match ScanUnsigned(SkipBlanks(s))
      case None => []
      case Some(v) => [v.value] + ScanDoubles(v.rest, count - 1)
  }

  function ValueAt(values: seq<real>, i: nat): real {
    if i < |values| then values[i] else 0.0
  }

  /** sscanf answers 0: there is something to read, and the first number cannot be read. */
  predicate Refused(text: string) {
    var clean := Clean(text);
    ScanDoubles(clean, 3) == [] && SkipBlanks(clean) != ""
  }

  /** Degrees, minutes and seconds added up; what was not converted is zero. */
  function Magnitude(text: string): real {
    var values := ScanDoubles(Clean(text), 3);
    ValueAt(values, 0) + ValueAt(values, 1) / 60.0 + ValueAt(values, 2) / 3600.0
  }

  /** coordinate_string2gdouble. sscanf answers EOF, which is not zero, for a text with nothing to read. */
  function ParseCoordinate(text: string): real {
    if Refused(text) then BAD_COORDINATE
    else if Negative(text) then -Magnitude(text)
    else Magnitude(text)
  }

  // ---------------------------------------------------------------- reading printed text

  lemma {:induction false} CleanConcat(a: string, b: string)
    ensures Clean(a + b) == Clean(a) + Clean(b)
  {
    if a == "" {
      assert a + b == b;
    } else {
      assert (a + b)[1..] == a[1..] + b;
      CleanConcat(a[1..], b);
    }
  }

  /** Characters of numbers stay; they are neither letters nor signs. */
  predicate Numeric(s: string) {
    forall i :: 0 <= i < |s| ==> IsDigit(s[i]) || s[i] == '.'
  }

  lemma CleanNumeric(s: string)
    requires Numeric(s)
    ensures Clean(s) == s
  {
  }

  lemma {:induction false} SkipBlanksThen(blanks: string, s: string)
    requires forall i :: 0 <= i < |blanks| ==> blanks[i] == ' '
    requires s == "" || s[0] != ' '
    ensures SkipBlanks(blanks + s) == s
  {
    if blanks == "" {
      assert blanks + s == s;
    } else {
      assert (blanks + s)[1..] == blanks[1..] + s;
      SkipBlanksThen(blanks[1..], s);
    }
  }

  /** An unsigned number as text: digits, with or without a point and further digits. */
  datatype Numeral = Whole(digits: string) | Pointed(digits: string, fraction: string) {
    predicate Valid() {
      digits != "" && AllDigits(digits) && (Pointed? ==> AllDigits(fraction))
    }

    function Text(): string {
      match this
      case Whole(d) => d
      case Pointed(d, f) => d + "." + f
    }

    function Value(): real
      requires Valid()
    {
      match this
      case Whole(d) => PointValue(d, "")
      case Pointed(d, f) => PointValue(d, f)
    }
  }

  lemma ScanNumeral(n: Numeral, rest: string)
    requires n.Valid() && (rest == "" || rest[0] == ' ')
    ensures ScanUnsigned(n.Text() + rest) == Some(Scanned(n.Value(), rest))
  {
    match n
    case Whole(d) => DigitsThenRest(d, rest);
    case Pointed(d, f) => ScanParts(d, f, rest);
  }

  /** "%0Wd" as a numeral. */
  lemma IntegerNumeral(n: nat, width: nat)
    ensures var m := Whole(PaddedText(n, width)); m.Valid() && m.Value() == n as real
  {
    PaddedValue(n, width);
  }

  /** The digits that "%.Nf" prints before and after the point. */
  lemma UnitsParts(n: nat, places: nat) returns (whole: string, fraction: string)
    requires places >= 1
    ensures whole != "" && AllDigits(whole) && AllDigits(fraction)
    ensures UnitsText(n, places) == whole + "." + fraction && PointValue(whole, fraction) == FromUnits(n, places)
  {
    hide NatText, PaddedText, NatValue, Pow10, AllDigits;
    var scale := Pow10(places);
    whole, fraction := NatText(n / scale), PaddedText(n % scale, places);
    TextValue(n / scale);
    PaddedValue(n % scale, places);
    RemainderIsSmall(n, scale);
    PaddedLength(n % scale, places);
    WholeAndFraction(n, scale);
  }

  /** "%.Nf", possibly behind zeros, as a numeral. */
  lemma DecimalNumeral(k: nat, n: nat, places: nat) returns (m: Numeral)
    requires places >= 1
    ensures m.Valid() && m.Text() == Zeros(k) + UnitsText(n, places) && m.Value() == FromUnits(n, places)
  {
    hide NatValue, Pow10, UnitsText, FromUnits, Zeros;
    var whole, fraction := UnitsParts(n, places);
    LeadingZeros(k, whole);
    m := Pointed(Zeros(k) + whole, fraction);
    assert m.Text() == Zeros(k) + (whole + "." + fraction);
  }

  /** Text around numbers that cleans to blanks. */
  predicate Filler(s: string) {
    forall i :: 0 <= i < |s| ==> !IsDigit(s[i]) && s[i] != '.' && s[i] != ','
  }

  lemma FillerCleansToBlanks(s: string)
    requires Filler(s)
    ensures forall i :: 0 <= i < |s| ==> Clean(s)[i] == ' '
  {
  }

  /** A number and the text in front of it. */
  datatype Field = Field(filler: string, number: Numeral)

  /** A printed coordinate: fields, then closing text. */
  function Assemble(fields: seq<Field>, close: string): string {
    if fields == [] then close
    else fields[0].filler + fields[0].number.Text() + Assemble(fields[1..], close)
  }

  predicate WellFormed(fields: seq<Field>, close: string) {
    && Filler(close)
    && forall i :: 0 <= i < |fields| ==>
      fields[i].number.Valid() && Filler(fields[i].filler) && (i > 0 ==> fields[i].filler != "")
  }

  function Values(fields: seq<Field>): seq<real>
    requires forall i :: 0 <= i < |fields| ==> fields[i].number.Valid()
  {
    if fields == [] then [] else [fields[0].number.Value()] + Values(fields[1..])
  }

  lemma StartsWithBlank(fields: seq<Field>, close: string)
    requires WellFormed(fields, close) && (fields != [] ==> fields[0].filler != "")
    ensures var c := Clean(Assemble(fields, close)); c == "" || c[0] == ' '
  {
    var t := Assemble(fields, close);
    if fields != [] { assert t[0] == fields[0].filler[0]; }
  }

  lemma ScanOne(blanks: string, number: Numeral, rest: string, count: nat)
    requires number.Valid() && (forall i :: 0 <= i < |blanks| ==> blanks[i] == ' ')
    requires count > 0 && (rest == "" || rest[0] == ' ')
    ensures var s := blanks + (number.Text() + rest);
      SkipBlanks(s) != "" && ScanDoubles(s, count) == [number.Value()] + ScanDoubles(rest, count - 1)
  {
    hide ScanUnsigned;
    SkipBlanksThen(blanks, number.Text() + rest);
    ScanNumeral(number, rest);
  }

  lemma CleanFirst(fields: seq<Field>, close: string)
    requires WellFormed(fields, close) && fields != []
    ensures var f := fields[0];
      Clean(Assemble(fields, close)) == Clean(f.filler) + (f.number.Text() + Clean(Assemble(fields[1..], close)))
  {
    hide Clean, Filler;
    var f, rest := fields[0], Assemble(fields[1..], close);
    CleanConcat(f.filler + f.number.Text(), rest);
    CleanConcat(f.filler, f.number.Text());
    CleanNumeral(f.number);
  }

  lemma CleanNumeral(n: Numeral)
    requires n.Valid()
    ensures Clean(n.Text()) == n.Text()
  {
    hide Clean;
    CleanNumeric(n.Text());
  }

  lemma RestIsWellFormed(fields: seq<Field>, close: string)
    requires WellFormed(fields, close) && fields != []
    ensures WellFormed(fields[1..], close) && (fields[1..] != [] ==> fields[1..][0].filler != "")
    ensures fields[0].number.Valid() && Filler(fields[0].filler)
  {
    hide Filler, AllDigits;
  }

  /** The parser finds exactly the numbers of the fields. */
  lemma {:induction false} ScanFindsValues(fields: seq<Field>, close: string, count: nat)
    requires WellFormed(fields, close) && |fields| <= count
    ensures ScanDoubles(Clean(Assemble(fields, close)), count) == Values(fields)
    ensures fields != [] ==> SkipBlanks(Clean(Assemble(fields, close))) != ""
  {
    hide Clean, SkipBlanks, ScanDoubles, Filler, AllDigits;
    if fields == [] {
      NothingToScan(close, count);
    } else {
      var filler, number, rest := fields[0].filler, fields[0].number, Assemble(fields[1..], close);
      RestIsWellFormed(fields, close);
      CleanFirst(fields, close);
      hide Assemble;
      FillerCleansToBlanks(filler);
      StartsWithBlank(fields[1..], close);
      ScanOne(Clean(filler), number, Clean(rest), count);
      ScanFindsValues(fields[1..], close, count - 1);
    }
  }

  lemma NothingToScan(close: string, count: nat)
    requires Filler(close)
    ensures ScanDoubles(Clean(close), count) == []
  {
    FillerCleansToBlanks(close);
    assert Clean(close) + "" == Clean(close);
    SkipBlanksThen(Clean(close), "");
    NoNumber();
  }

  lemma NoNumber()
    ensures ScanUnsigned("") == None
  {
  }

  lemma NegativeConcat(a: string, b: string)
    ensures Negative(a + b) <==> Negative(a) || Negative(b)
  {
    assert forall i :: 0 <= i < |a| ==> (a + b)[i] == a[i];
    assert forall i :: 0 <= i < |b| ==> (a + b)[|a| + i] == b[i];
    if Negative(a + b) {
      var i :| 0 <= i < |a + b| && Upper((a + b)[i]) in {'S', 'W', '-'};
      if i >= |a| { assert (a + b)[i] == b[i - |a|]; }
    }
  }

  /** Only the first filler can make the text negative when the others do not. */
  lemma {:induction false} OnlyLettersNegate(fields: seq<Field>, close: string)
    requires WellFormed(fields, close) && !Negative(close)
    requires forall i :: 1 <= i < |fields| ==> !Negative(fields[i].filler)
    ensures Negative(Assemble(fields, close)) <==> fields != [] && Negative(fields[0].filler)
  {
    if fields != [] {
      var f := fields[0];
      OnlyLettersNegate(fields[1..], close);
      NegativeConcat(f.filler + f.number.Text(), Assemble(fields[1..], close));
      NegativeConcat(f.filler, f.number.Text());
    }
  }

  // ---------------------------------------------------------------- what is refused

  /** A digit, a point, or a comma that becomes one. */
  predicate Mark(c: char) {
    IsDigit(c) || c in {'.', ','}
  }

  /** Position of the first mark, or the length of a text without one. */
  function FirstMark(s: string): (k: nat)
    ensures k <= |s| && (forall i :: 0 <= i < k ==> !Mark(s[i])) && (k < |s| ==> Mark(s[k]))
  {
    if s == "" || Mark(s[0]) then 0 else 1 + FirstMark(s[1..])
  }

  lemma {:induction false} BlanksUpToMark(s: string)
    ensures SkipBlanks(Clean(s)) == Clean(s)[FirstMark(s)..]
  {
    if s != "" && !Mark(s[0]) {
      BlanksUpToMark(s[1..]);
      assert Clean(s)[1..] == Clean(s[1..]);
    }
  }

  /** A number starts at a mark exactly when that is a digit, or a point with a digit after it. */
  lemma NumberStarts(t: string)
    requires t != "" && (IsDigit(t[0]) || t[0] == '.')
    ensures ScanUnsigned(t).Some? <==> IsDigit(t[0]) || (|t| > 1 && IsDigit(t[1]))
  {
    hide PointValue;
    if !IsDigit(t[0]) {
      assert Digits(t) == ("", t);
      assert |t| > 1 ==> t[1..][0] == t[1];
    }
  }

  /** In front of k there are no digits, points and commas; k is a point or comma, and no digit follows. */
  predicate LonePoint(text: string, k: nat) {
    && k < |text| && text[k] in {'.', ','} && (k + 1 < |text| ==> !('0' <= text[k + 1] <= '9'))
    && forall i :: 0 <= i < k ==> !('0' <= text[i] <= '9') && text[i] !in {'.', ','}
  }

  /** A text is refused exactly when its first digit, point or comma is a point or comma without a digit after it. */
  lemma RefusedExactlyWhen(text: string)
    ensures Refused(text) <==> exists k :: LonePoint(text, k)
  {
    hide Refused, FirstMark;
    RefusedAtFirstMark(text);
    if k :| LonePoint(text, k) {
      assert FirstMark(text) == k;
    }
    if Refused(text) { assert LonePoint(text, FirstMark(text)); }
  }

  lemma RefusedAtFirstMark(text: string)
    ensures var k := FirstMark(text);
      Refused(text) <==> k < |text| && !IsDigit(text[k]) && (k + 1 == |text| || !IsDigit(text[k + 1]))
  {
    hide ScanUnsigned;
    var clean, k := Clean(text), FirstMark(text);
    BlanksUpToMark(text);
    if k < |text| {
      var rest := clean[k..];
      NumberStarts(rest);
      assert |rest| > 1 ==> rest[1] == clean[k + 1];
    }
  }

  /** A text without digits, points and commas is read as 0. */
  lemma NothingReadsAsZero(text: string)
    requires FirstMark(text) == |text|
    ensures ParseCoordinate(text) == 0.0
  {
    hide Refused;
    RefusedAtFirstMark(text);
    BlanksUpToMark(text);
    NoNumber();
    assert ScanDoubles(Clean(text), 3) == [];
  }

  /** A lone point is refused, and a word reads as 0. */
  lemma PointAndWord()
    ensures ParseCoordinate(".") == BAD_COORDINATE && ParseCoordinate("north") == 0.0
  {
    hide Refused, Clean, ScanDoubles;
    RefusedAtFirstMark(".");
    NothingReadsAsZero("north");
  }

  /** A text that is not refused is negative exactly when it has one of five characters somewhere. */
  lemma SignOfText(text: string)
    requires !Refused(text)
    ensures ParseCoordinate(text) ==
      if exists i :: 0 <= i < |text| && text[i] in {'S', 's', 'W', 'w', '-'} then -Magnitude(text) else Magnitude(text)
  {
    hide Refused, Magnitude, Upper;
    forall i | 0 <= i < |text| ensures Upper(text[i]) in {'S', 'W', '-'} <==> text[i] in {'S', 's', 'W', 'w', '-'} {
      SignCharacters(text[i]);
    }
  }

  lemma SignCharacters(c: char)
    ensures Upper(c) in {'S', 'W', '-'} <==> c in {'S', 's', 'W', 'w', '-'}
  {
  }

  /** The same characters for the scan: a comma is a point, and anything else that is no digit is a blank. */
  predicate ReadAlike(c: char, d: char) {
    || c == d
    || (c in {'.', ','} && d in {'.', ','})
    || (!('0' <= c <= '9') && c !in {'.', ','} && !('0' <= d <= '9') && d !in {'.', ','})
  }

  lemma {:induction false} AlikeCleansAlike(s: string, t: string)
    requires |s| == |t| && forall i :: 0 <= i < |s| ==> ReadAlike(s[i], t[i])
    ensures Clean(s) == Clean(t)
  {
    if s != "" { AlikeCleansAlike(s[1..], t[1..]); }
  }

  /** Apart from the sign, texts that differ only in such characters have the same value, or are both refused. */
  lemma AlikeReadAlike(s: string, t: string)
    requires |s| == |t| && forall i :: 0 <= i < |s| ==> ReadAlike(s[i], t[i])
    ensures Magnitude(s) == Magnitude(t) && (Refused(s) <==> Refused(t))
  {
    AlikeCleansAlike(s, t);
    hide Clean, ScanDoubles, SkipBlanks;
  }

  lemma NumberIsNonNegative(s: string)
    ensures ScanUnsigned(s).Some? ==> ScanUnsigned(s).value.value >= 0.0
  {
    hide NatValue, Pow10;
  }

  lemma {:induction false} ScannedIsNonNegative(s: string, count: nat)
    ensures forall i :: 0 <= i < |ScanDoubles(s, count)| ==> ScanDoubles(s, count)[i] >= 0.0
    decreases count
  {
    hide ScanUnsigned;
    if count > 0 {
      var v := ScanUnsigned(SkipBlanks(s));
      NumberIsNonNegative(SkipBlanks(s));
      if v.Some? { ScannedIsNonNegative(v.value.rest, count - 1); }
    }
  }

  /** The value that stands for a refusal is also what 1002 degrees with a letter or sign read as, and nothing else. */
  lemma LooksRefusedExactlyWhen(text: string)
    ensures ParseCoordinate(text) == BAD_COORDINATE <==> Refused(text) || (Negative(text) && Magnitude(text) == 1002.0)
  {
    hide Refused, Negative, ScanDoubles, Clean;
    ScannedIsNonNegative(Clean(text), 3);
  }

  /** 1002 degrees south cannot be told from a refusal. */
  lemma SouthLooksRefused()
    ensures ParseCoordinate("S1002") == BAD_COORDINATE && !Refused("S1002")
  {
    hide Refused, Clean, ScanDoubles, PointValue, Assemble, ParseCoordinate;
    RefusedAtFirstMark("S1002");
    FourDigits();
    var south := Field("S", Whole("1002"));
    OneField(south, "");
    assert "S" + "1002" + "" == "S1002" && ['S'] + "" == "S";
    ReadAssembled('S', "", [south], "");
  }

  lemma FourDigits()
    ensures AllDigits("1002") && PointValue("1002", "") == 1002.0
  {
    assert "1002"[..3] == "100" && "100"[..2] == "10" && "10"[..1] == "1" && "1"[..0] == "";
    assert NatValue("1") == 1 && NatValue("10") == 10 && NatValue("100") == 100;
  }

  // ---------------------------------------------------------------- the printer

  function Hemisphere(minus: bool, isLat: bool): char {
    if isLat then (if minus then 'S' else 'N') else (if minus then 'W' else 'E')
  }

  predicate WholeText(s: string) {
    s != "" && forall i :: 0 <= i < |s| ==> '0' <= s[i] <= '9'
  }

  /** Digits, a point, and this number of digits. */
  predicate DecimalText(s: string, places: nat) {
    && |s| > places + 1 && s[|s| - places - 1] == '.'
    && forall i :: 0 <= i < |s| && i != |s| - places - 1 ==> '0' <= s[i] <= '9'
  }

  /** A letter, whole degrees, whole minutes of two digits, and seconds with two decimals. */
  predicate IsDegMinSec(text: string, h: char, d: string, m: string, s: string) {
    && text == [h] + " " + d + "\U{00C2}\U{00B0} " + m + "' " + s + "\""
    && WholeText(d) && WholeText(m) && |m| >= 2 && DecimalText(s, 2) && |s| >= 5
  }

  /** Minutes have three decimals. */
  predicate IsDegMinDec(text: string, h: char, d: string, m: string) {
    text == [h] + " " + d + "\U{00C2}\U{00B0} " + m + "'" && WholeText(d) && DecimalText(m, 3)
  }

  /** Degrees have five decimals, right-aligned in eight columns. */
  predicate IsDegDec(text: string, h: char, blanks: string, d: string) {
    && text == [h] + " " + blanks + d + "\U{00C2}\U{00B0}" && DecimalText(d, 5)
    && |blanks| == (if |d| < 8 then 8 - |d| else 0) && forall i :: 0 <= i < |blanks| ==> blanks[i] == ' '
  }

  lemma UnitsAreDecimal(n: nat, places: nat, k: nat)
    requires places >= 1
    ensures DecimalText(Zeros(k) + UnitsText(n, places), places)
  {
    hide NatText, PaddedText, Pow10;
    var scale := Pow10(places);
    RemainderIsSmall(n, scale);
    PaddedLength(n % scale, places);
    var whole, fraction := NatText(n / scale), PaddedText(n % scale, places);
    var s := Zeros(k) + UnitsText(n, places);
    assert s == (Zeros(k) + whole) + "." + fraction;
  }

  lemma FixedIsDecimal(x: real, places: nat, width: nat)
    requires x >= 0.0 && places >= 1
    ensures DecimalText(FixedText(x, places), places) && DecimalText(PaddedFixed(x, places, width), places)
    ensures |PaddedFixed(x, places, width)| >= width
  {
    hide UnitsText, DecimalText, Units;
    var n := Units(x, places);
    var s := UnitsText(n, places);
    UnitsAreDecimal(n, places, 0);
    UnitsAreDecimal(n, places, if |s| < width then width - |s| else 0);
    assert Zeros(0) + s == s;
  }

  /** How many numbers the parser finds in a text. */
  function NumbersIn(text: string): nat {
    |ScanDoubles(Clean(text), 3)|
  }

  /** Reading any assembled coordinate. */
  lemma ReadAssembled(h: char, filler: string, fields: seq<Field>, close: string)
    requires h in {'N', 'E', 'S', 'W'} && 1 <= |fields| <= 3 && WellFormed(fields, close)
    requires fields[0].filler == [h] + filler && !Negative(filler) && !Negative(close)
    requires forall i :: 1 <= i < |fields| ==> !Negative(fields[i].filler)
    ensures var v := Values(fields);
      var magnitude := ValueAt(v, 0) + ValueAt(v, 1) / 60.0 + ValueAt(v, 2) / 3600.0;
      ParseCoordinate(Assemble(fields, close)) == if h in {'S', 'W'} then -magnitude else magnitude
    ensures NumbersIn(Assemble(fields, close)) == |Values(fields)|
  {
    hide Clean, ScanDoubles, Assemble;
    ScanFindsValues(fields, close, 3);
    OnlyLettersNegate(fields, close);
    NegativeConcat([h], filler);
    assert [h][0] == h;
  }

  /** "%0W.Nf" of a non-negative value. */
  function PaddedFixed(x: real, places: nat, width: nat): string
    requires x >= 0.0 && places >= 1
  {
    var s := FixedText(x, places);
    Zeros(if |s| < width then width - |s| else 0) + s
  }

  function Spaces(k: nat): (s: string)
    ensures |s| == k && forall i :: 0 <= i < k ==> s[i] == ' '
  {
    seq(k, _ => ' ')
  }

  lemma OneField(a: Field, close: string)
    requires a.number.Valid()
    ensures Assemble([a], close) == a.filler + a.number.Text() + close && Values([a]) == [a.number.Value()]
  {
    assert [a][1..] == [];
  }

  lemma TwoFields(a: Field, b: Field, close: string)
    requires a.number.Valid() && b.number.Valid()
    ensures Assemble([a, b], close) == a.filler + a.number.Text() + b.filler + b.number.Text() + close
    ensures Values([a, b]) == [a.number.Value(), b.number.Value()]
  {
    assert [a, b][1..] == [b];
    OneField(b, close);
  }

  lemma ThreeFields(a: Field, b: Field, c: Field, close: string)
    requires a.number.Valid() && b.number.Valid() && c.number.Valid()
    ensures Assemble([a, b, c], close)
         == a.filler + a.number.Text() + b.filler + b.number.Text() + c.filler + c.number.Text() + close
    ensures Values([a, b, c]) == [a.number.Value(), b.number.Value(), c.number.Value()]
  {
    assert [a, b, c][1..] == [b, c];
    TwoFields(b, c, close);
  }

  lemma FixedUnits(x: real, places: nat, width: nat) returns (k: nat, n: nat)
    requires x >= 0.0 && places >= 1
    ensures FixedText(x, places) == UnitsText(n, places) && Rounded(x, places) == FromUnits(n, places)
    ensures PaddedFixed(x, places, width) == Zeros(k) + UnitsText(n, places) && (width == 0 ==> k == 0)
  {
    hide UnitsText, Units, FromUnits;
    n := Units(x, places);
    var s := UnitsText(n, places);
    k := if |s| < width then width - |s| else 0;
  }

  /** "%0W.Nf" as a numeral; width 0 is plain "%.Nf". */
  lemma FixedNumeral(x: real, places: nat, width: nat) returns (m: Numeral)
    requires x >= 0.0 && places >= 1
    ensures m.Valid() && m.Text() == PaddedFixed(x, places, width) && m.Value() == Rounded(x, places)
    ensures width == 0 ==> PaddedFixed(x, places, width) == FixedText(x, places)
  {
    hide UnitsText, FromUnits, PaddedFixed, FixedText, Rounded, PointValue, AllDigits;
    var k, n := FixedUnits(x, places, width);
    m := DecimalNumeral(k, n, places);
    assert Zeros(0) + UnitsText(n, places) == UnitsText(n, places);
  }

  lemma PlainIsPadded(n: nat)
    ensures PaddedText(n, 1) == NatText(n)
  {
  }

  lemma FillersAreNeutral(k: nat)
    ensures Filler(GRADSYM + " ") && Filler("' ") && Filler("\"") && Filler("'") && Filler(GRADSYM)
      && Filler(" " + Spaces(k))
    ensures !Negative(GRADSYM + " ") && !Negative("' ") && !Negative("\"") && !Negative("'") && !Negative(GRADSYM)
    ensures !Negative(" " + Spaces(k))
  {
  }

  lemma LetterIsFiller(h: char)
    requires h in {'N', 'E', 'S', 'W'}
    ensures Filler([h] + " ")
  {
  }

  /** The three texts that are printed, apart from the number of digits. */
  function DegMinSecText(h: char, grad: nat, min: nat, sec: real): string
    requires sec >= 0.0
  {
    [h] + " " + NatText(grad) + GRADSYM + " " + PaddedText(min, 2) + "' " + PaddedFixed(sec, 2, 5) + "\""
  }

  function DegMinDecText(h: char, grad: nat, minf: real): string
    requires minf >= 0.0
  {
    [h] + " " + NatText(grad) + GRADSYM + " " + FixedText(minf, 3) + "'"
  }

  function DegDecText(h: char, pos: real): string
    requires pos >= 0.0
  {
    var number := FixedText(pos, 5);
    [h] + " " + Spaces(if |number| < 8 then 8 - |number| else 0) + number + GRADSYM
  }

  lemma Regroup(a: string, b: string, c: string)
    ensures a + b + c == a + (b + c)
  {
  }

  lemma DegMinSecFields(h: char, grad: nat, min: nat, sec: real) returns (fields: seq<Field>)
    requires h in {'N', 'E', 'S', 'W'} && sec >= 0.0
    ensures |fields| == 3 && WellFormed(fields, "\"") && fields[0].filler == [h] + " "
    ensures fields[1].filler == GRADSYM + " " && fields[2].filler == "' "
    ensures Assemble(fields, "\"") == DegMinSecText(h, grad, min, sec)
    ensures Values(fields) == [grad as real, min as real, Rounded(sec, 2)]
  {
    hide NatText, PaddedText, FixedText, PaddedFixed, Rounded, Values, Assemble, Filler, AllDigits;
    FillersAreNeutral(0);
    LetterIsFiller(h);
    IntegerNumeral(grad, 1);
    PlainIsPadded(grad);
    IntegerNumeral(min, 2);
    var third := FixedNumeral(sec, 2, 5);
    var f, g, m := Field([h] + " ", Whole(NatText(grad))), Field(GRADSYM + " ", Whole(PaddedText(min, 2))),
      Field("' ", third);
    ThreeFields(f, g, m, "\"");
    Regroup([h] + " " + NatText(grad), GRADSYM, " ");
    fields := [f, g, m];
  }

  lemma ReadDegMinSec(h: char, grad: nat, min: nat, sec: real)
    requires h in {'N', 'E', 'S', 'W'} && sec >= 0.0
    ensures NumbersIn(DegMinSecText(h, grad, min, sec)) == 3
    ensures var magnitude := grad as real + min as real / 60.0 + Rounded(sec, 2) / 3600.0;
      ParseCoordinate(DegMinSecText(h, grad, min, sec)) == if h in {'S', 'W'} then -magnitude else magnitude
  {
    hide DegMinSecText, Rounded, ParseCoordinate, NumbersIn, Values, Assemble;
    FillersAreNeutral(0);
    var fields := DegMinSecFields(h, grad, min, sec);
    ReadAssembled(h, " ", fields, "\"");
  }

  lemma ReadDegMinDec(h: char, grad: nat, minf: real)
    requires h in {'N', 'E', 'S', 'W'} && minf >= 0.0
    ensures NumbersIn(DegMinDecText(h, grad, minf)) == 2
    ensures var magnitude := grad as real + Rounded(minf, 3) / 60.0;
      ParseCoordinate(DegMinDecText(h, grad, minf)) == if h in {'S', 'W'} then -magnitude else magnitude
  {
    hide NatText, PaddedText, FixedText, PaddedFixed, Rounded, ParseCoordinate, NumbersIn, Clean, Values, Assemble;
    FillersAreNeutral(0);
    IntegerNumeral(grad, 1);
    PlainIsPadded(grad);
    var second := FixedNumeral(minf, 3, 0);
    var f, g := Field([h] + " ", Whole(NatText(grad))), Field(GRADSYM + " ", second);
    TwoFields(f, g, "'");
    ReadAssembled(h, " ", [f, g], "'");
    assert Assemble([f, g], "'") == DegMinDecText(h, grad, minf);
  }

  lemma ReadDegDec(h: char, pos: real)
    requires h in {'N', 'E', 'S', 'W'} && pos >= 0.0
    ensures NumbersIn(DegDecText(h, pos)) == 1
    ensures ParseCoordinate(DegDecText(h, pos)) == if h in {'S', 'W'} then -Rounded(pos, 5) else Rounded(pos, 5)
  {
    hide FixedText, PaddedFixed, Rounded, ParseCoordinate, NumbersIn, Clean, Values, Assemble;
    var number := FixedText(pos, 5);
    var k := if |number| < 8 then 8 - |number| else 0;
    FillersAreNeutral(k);
    var first := FixedNumeral(pos, 5, 0);
    var f := Field([h] + (" " + Spaces(k)), first);
    OneField(f, GRADSYM);
    ReadAssembled(h, " " + Spaces(k), [f], GRADSYM);
    assert Assemble([f], GRADSYM) == DegDecText(h, pos);
  }

  /** Half a unit in the last place, for the numbers of places in use. */
  lemma PrintedError(x: real)
    ensures -0.005 <= Rounded(x, 2) - x <= 0.005
    ensures -0.0005 <= Rounded(x, 3) - x <= 0.0005
    ensures -0.000005 <= Rounded(x, 5) - x <= 0.000005
  {
    hide Rounded, Pow10;
    PowersOfTen();
    RoundedIsNear(x, 2);
    RoundedIsNear(x, 3);
    RoundedIsNear(x, 5);
  }

  lemma PowersOfTen()
    ensures Pow10(2) == 100 && Pow10(3) == 1000 && Pow10(5) == 100000
  {
    assert Pow10(1) == 10 * Pow10(0);
    assert Pow10(2) == 10 * Pow10(1);
    assert Pow10(3) == 10 * Pow10(2);
    assert Pow10(4) == 10 * Pow10(3);
    assert Pow10(5) == 10 * Pow10(4);
  }

  /** coordinate2gchar: printing, then parsing, comes back within the tolerance of the mode. */
  method Coordinate2Gchar(position: real, isLat: bool, mode: Mode) returns (buff: string)
    requires -2147483648.0 < position < 2147483648.0
    ensures var v := ParseCoordinate(buff);
      && (position < 0.0 ==> v <= 0.0) && (position >= 0.0 ==> v >= 0.0)
      && match mode
         case DegMinSec => -0.005 <= (v - position) * 3600.0 <= 0.005
         case DegMinDec => -0.0005 <= (v - position) * 60.0 <= 0.0005
         case DegDec => -0.000005 <= v - position <= 0.000005
    ensures NumbersIn(buff) == match mode case DegMinSec => 3 case DegMinDec => 2 case DegDec => 1
    ensures buff != ""
    ensures (buff[0] == 'N' <==> isLat && position >= 0.0) && (buff[0] == 'S' <==> isLat && position < 0.0)
    ensures (buff[0] == 'E' <==> !isLat && position >= 0.0) && (buff[0] == 'W' <==> !isLat && position < 0.0)
    ensures mode == DegMinSec ==> exists d, m, s :: IsDegMinSec(buff, buff[0], d, m, s)
    ensures mode == DegMinDec ==> exists d, m :: IsDegMinDec(buff, buff[0], d, m)
    ensures mode == DegDec ==> exists blanks, d :: IsDegDec(buff, buff[0], blanks, d)
  {
    hide ParseCoordinate, NumbersIn, FixedText, NatText, PaddedText, Rounded, PaddedFixed, DecimalText;
    var pos := position;
    var minus := false;
    var grad := Trunc(pos);
    if pos < 0.0 {
      grad := -grad;
      pos := -pos;
      minus := true;
    }
    var minf := (pos - grad as real) * 60.0;
    var min := Trunc(minf);
    var sec := (minf - min as real) * 60.0;
    var h := Hemisphere(minus, isLat);
    match mode
    case DegMinSec =>
      buff := [h] + " " + NatText(grad) + GRADSYM + " " + PaddedText(min, 2) + "' " + PaddedFixed(sec, 2, 5) + "\"";
      ReadDegMinSec(h, grad, min, sec);
      FixedIsDecimal(sec, 2, 5);
      assert IsDegMinSec(buff, h, NatText(grad), PaddedText(min, 2), PaddedFixed(sec, 2, 5));
      PrintedError(sec);
    case DegMinDec =>
      buff := [h] + " " + NatText(grad) + GRADSYM + " " + FixedText(minf, 3) + "'";
      ReadDegMinDec(h, grad, minf);
      FixedIsDecimal(minf, 3, 0);
      assert IsDegMinDec(buff, h, NatText(grad), FixedText(minf, 3));
      PrintedError(minf);
    case DegDec =>
      var number := FixedText(pos, 5);
      buff := [h] + " " + Spaces(if |number| < 8 then 8 - |number| else 0) + number + GRADSYM;
      ReadDegDec(h, pos);
      FixedIsDecimal(pos, 5, 0);
      assert IsDegDec(buff, h, Spaces(if |number| < 8 then 8 - |number| else 0), number);
      PrintedError(pos);
  }
}
