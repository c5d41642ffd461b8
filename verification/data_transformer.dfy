/**
  Transformation of scraped records of the Polish looted-art register into
  artworks: a parser for the run-on "Label:value" description text, artist and
  creation-year heuristics, and the rewrite of image URLs to the Polish host.
  The regular expressions of the year heuristic are modelled by hand, with the
  classes `\b`, `\w` and `\d` over ASCII.
 */
module DataTransformer {
  import opened Wrappers
  import opened Text
  import opened Entities

  // ---------------------------------------------------------------------------
  // Structured description
  // ---------------------------------------------------------------------------

  /** The labels of each field, English first, then Polish (as the site serves it, mis-decoded). */
  const CARD_NUMBER_LABELS: seq<string> := ["Card number:", "Numer karty:"]
  const AUTHOR_LABELS: seq<string> := ["Author / School / Workshop:", "Autor / Szko\U{C5}\U{201A}a / Pracownia:"]
  const DATE_LABELS: seq<string> := ["Date of creation:", "Data powstania:"]
  const OBJECT_TYPE_LABELS: seq<string> := ["Object type:", "Typ obiektu:"]

  /** The markers that end a field's value. */
  const FIELD_MARKERS: seq<string> :=
    ["Card number:", "Author", "Date of creation:", "Object type:", "Numer karty:", "Autor", "Data powstania:", "Typ obiektu:"]

  /** The dictionary `_parse_structured_description` returns; an absent key is `None`. */
  datatype ParsedFields = ParsedFields(cardNumber: Option<string>, author: Option<string>,
                                       dateOfCreation: Option<string>, objectType: Option<string>)

  /** The marker scan: the nearest first occurrence, at an offset above 0, of any marker, or `endPos`. */
  function ValueEnd(remaining: string, markers: seq<string>, endPos: int): (r: int)
    ensures r <= endPos
    ensures forall k :: 0 <= k < |markers| && Find(remaining, markers[k]) > 0 ==> r <= Find(remaining, markers[k])
    ensures r == endPos || exists k :: 0 <= k < |markers| && Find(remaining, markers[k]) > 0 && r == Find(remaining, markers[k])
  {
    if |markers| == 0 then endPos
    else
      var pos := Find(remaining, markers[0]);
      var r := ValueEnd(remaining, markers[1..], if pos > 0 && pos < endPos then pos else endPos);
      assert forall k :: 0 < k < |markers| ==> markers[k] == markers[1..][k - 1];
      r
  }

  /** The text after the first occurrence of `label`. */
  function After(description: string, tag: string): (r: string)
    requires Contains(description, tag)
    ensures exists k :: OccursAt(description, tag, k) && r == description[k + |tag|..]
  {
    description[Find(description, tag) + |tag|..]
  }

  /** The index of the first label, in list order, that occurs in the description. */
  function FirstLabel(description: string, labels: seq<string>): (r: Option<nat>)
    ensures r.Some? ==> r.value < |labels| && Contains(description, labels[r.value])
                        && forall j :: 0 <= j < r.value ==> !Contains(description, labels[j])
    ensures r.None? ==> forall j :: 0 <= j < |labels| ==> !Contains(description, labels[j])
  {
    if |labels| == 0 then None
    else if Contains(description, labels[0]) then Some(0)
    else match FirstLabel(description, labels[1..])
      case None => None
      case Some(k) => Some(k + 1)
  }

  /** The value of a field: the text after the first label that occurs, cut at the nearest marker. */
  function FieldValue(description: string, labels: seq<string>): Option<string> {
    match FirstLabel(description, labels)
    case None => None
    case Some(k) => Some(CutValue(After(description, labels[k])))
  }

  /**
    The stripped text before the nearest marker found at an offset above 0, or the whole
    stripped text when there is none.
   */
  function CutValue(remaining: string): (r: string)
    ensures exists e :: 0 <= e <= |remaining| && r == Strip(remaining[..e])
                        && (forall k :: 0 <= k < |FIELD_MARKERS| && Find(remaining, FIELD_MARKERS[k]) > 0 ==>
                                        e <= Find(remaining, FIELD_MARKERS[k]))
    ensures (forall k :: 0 <= k < |FIELD_MARKERS| ==> Find(remaining, FIELD_MARKERS[k]) <= 0) ==> r == Strip(remaining)
    ensures forall k :: 0 <= k < |FIELD_MARKERS| && NearestMarker(remaining, FIELD_MARKERS, k) ==>
              r == Strip(remaining[..Find(remaining, FIELD_MARKERS[k])])
  {
    MarkersNonEmpty();
    CutAt(remaining, FIELD_MARKERS)
  }

  /** `CutValue` for any list of non-empty markers. */
  function CutAt(remaining: string, markers: seq<string>): (r: string)
    requires forall k :: 0 <= k < |markers| ==> |markers[k]| > 0
    ensures exists e :: 0 <= e <= |remaining| && r == Strip(remaining[..e])
                        && (forall k :: 0 <= k < |markers| && Find(remaining, markers[k]) > 0 ==> e <= Find(remaining, markers[k]))
    ensures (forall k :: 0 <= k < |markers| ==> Find(remaining, markers[k]) <= 0) ==> r == Strip(remaining)
    ensures forall k :: 0 <= k < |markers| && NearestMarker(remaining, markers, k) ==>
              r == Strip(remaining[..Find(remaining, markers[k])])
  {
    var e := ValueEnd(remaining, markers, |remaining|);
    MarkerEnd(remaining, markers, e);
    assert remaining[..|remaining|] == remaining;
    Strip(remaining[..e])
  }

  lemma MarkersNonEmpty()
    ensures forall k :: 0 <= k < |FIELD_MARKERS| ==> |FIELD_MARKERS[k]| > 0
  {
  }

  /** Marker `k` is found at an offset above 0, and no marker is found nearer. */
  predicate NearestMarker(remaining: string, markers: seq<string>, k: nat)
    requires k < |markers|
  {
    && Find(remaining, markers[k]) > 0
    && forall j :: 0 <= j < |markers| && Find(remaining, markers[j]) > 0 ==> Find(remaining, markers[k]) <= Find(remaining, markers[j])
  }

  /** The marker scan over the whole remaining text ends at the nearest marker, or at the end when none is found. */
  lemma MarkerEnd(remaining: string, markers: seq<string>, e: int)
    requires forall k :: 0 <= k < |markers| ==> |markers[k]| > 0
    requires e == ValueEnd(remaining, markers, |remaining|)
    ensures 0 <= e <= |remaining|
    ensures (forall k :: 0 <= k < |markers| ==> Find(remaining, markers[k]) <= 0) ==> e == |remaining|
    ensures forall k :: 0 <= k < |markers| && NearestMarker(remaining, markers, k) ==> e == Find(remaining, markers[k])
  {
    if e != |remaining| {
      var k :| 0 <= k < |markers| && Find(remaining, markers[k]) > 0 && e == Find(remaining, markers[k]);
    }
    forall k | 0 <= k < |markers| && NearestMarker(remaining, markers, k) ensures e == Find(remaining, markers[k]) {
      assert OccursAt(remaining, markers[k], Find(remaining, markers[k]));
    }
  }

  /** `_parse_structured_description`. */
  function ParseStructured(description: string): ParsedFields {
    ParsedFields(FieldValue(description, CARD_NUMBER_LABELS), FieldValue(description, AUTHOR_LABELS),
                 FieldValue(description, DATE_LABELS), FieldValue(description, OBJECT_TYPE_LABELS))
  }

  /**
    A field is present exactly when one of its labels occurs; its value then comes
    from the English label whenever that occurs, and from the Polish one otherwise.
   */
  lemma FieldPresence(description: string, labels: seq<string>)
    requires |labels| == 2
    ensures FieldValue(description, labels).Some? <==> Contains(description, labels[0]) || Contains(description, labels[1])
    ensures Contains(description, labels[0]) ==>
              FieldValue(description, labels) == Some(CutValue(After(description, labels[0])))
    ensures !Contains(description, labels[0]) && Contains(description, labels[1]) ==>
              FieldValue(description, labels) == Some(CutValue(After(description, labels[1])))
  {
    if !Contains(description, labels[0]) && Contains(description, labels[1]) {
      assert FirstLabel(description, labels) == Some(1);
    }
  }

  // ---------------------------------------------------------------------------
  // Artist
  // ---------------------------------------------------------------------------

  const UNKNOWN_AUTHORS: seq<string> := ["unknown", "nieznany", "", "date of creation:"]
  const LEAKED_LABELS: seq<string> := ["date of creation", "object type", "card number"]
  const NATIONALITIES: seq<string> :=
    ["German", "Polish", "Italian", "French", "Dutch", "Spanish", "English", "Russian", "Austrian"]

  /** The first nationality, in list order, that the name mentions (case-sensitively). */
  function FirstNationality(name: string, nationalities: seq<string>): (r: Option<string>)
    ensures r.None? <==> forall k :: 0 <= k < |nationalities| ==> !Contains(name, nationalities[k])
    ensures r.Some? ==> exists k :: 0 <= k < |nationalities| && nationalities[k] == r.value && Contains(name, r.value)
                                    && forall j :: 0 <= j < k ==> !Contains(name, nationalities[j])
  {
    if |nationalities| == 0 then None
    else if Contains(name, nationalities[0]) then Some(nationalities[0])
    else
      var r := FirstNationality(name, nationalities[1..]);
      assert forall k :: 0 < k < |nationalities| ==> nationalities[k] == nationalities[1..][k - 1];
      r
  }

  /** The author text with no usable artist in it. */
  predicate NoArtist(authorText: string) {
    authorText == "" || Lower(authorText) in UNKNOWN_AUTHORS || ContainsAny(Lower(authorText), LEAKED_LABELS)
  }

  /** `_extract_artist`: the stripped author text as the name, and the first nationality it mentions. */
  function ExtractArtist(fields: ParsedFields): (r: Option<Artist>)
    ensures var text := Strip(fields.author.GetOr(""));
            && (r.None? <==> NoArtist(text))
            && (r.Some? ==> r.value.name == text && r.value.name != ""
                            && r.value.birthYear.None? && r.value.deathYear.None?
                            && r.value.nationality == FirstNationality(text, NATIONALITIES))
  {
    var text := Strip(fields.author.GetOr(""));
    if NoArtist(text) then None
    else Some(Artist(text, None, None, FirstNationality(text, NATIONALITIES)))
  }

  /** "Unknown" is recognised in any letter case, as is a leaked field label. */
  lemma UnknownInAnyCase(fields: ParsedFields)
    requires Lower(Strip(fields.author.GetOr(""))) == "unknown"
    ensures ExtractArtist(fields).None?
  {
    assert UNKNOWN_AUTHORS[0] == "unknown";
  }

  // ---------------------------------------------------------------------------
  // Creation year
  // ---------------------------------------------------------------------------

  /** The value of a non-empty run of decimal digits, as `int()` reads it. */
  function DigitsValue(s: string): nat
    requires forall i :: 0 <= i < |s| ==> IsDigit(s[i])
  {
    if |s| == 0 then 0 else DigitsValue(s[..|s| - 1]) * 10 + Digit(s[|s| - 1])
  }

  function Digit(c: char): nat
    requires IsDigit(c)
  {
    c as int - '0' as int
  }

  /** A four-digit run read positionally. */
  lemma FourDigits(s: string)
    requires |s| == 4 && forall i :: 0 <= i < 4 ==> IsDigit(s[i])
    ensures DigitsValue(s) == Digit(s[0]) * 1000 + Digit(s[1]) * 100 + Digit(s[2]) * 10 + Digit(s[3])
  {
    var a := s[..3];
    var b := a[..2];
    var c := b[..1];
    assert c[..0] == [];
    assert DigitsValue(c) == Digit(s[0]);
    assert DigitsValue(b) == Digit(s[0]) * 10 + Digit(s[1]);
    assert DigitsValue(a) == Digit(s[0]) * 100 + Digit(s[1]) * 10 + Digit(s[2]);
  }

  /** A two-digit run read positionally. */
  lemma TwoDigits(s: string)
    requires |s| == 2 && IsDigit(s[0]) && IsDigit(s[1])
    ensures DigitsValue(s) == Digit(s[0]) * 10 + Digit(s[1])
  {
    assert s[..1][..0] == [];
    assert DigitsValue(s[..1]) == Digit(s[0]);
  }

  /** The regex `\b` at index `i`: a word character on exactly one side. */
  predicate WordBoundary(s: string, i: nat) {
    (0 < i <= |s| && IsWordChar(s[i - 1])) != (i < |s| && IsWordChar(s[i]))
  }

  /** The regex `\b(1[0-9]{3}|20[0-2][0-9])\b` matches at `i`. */
  predicate YearAt(s: string, i: nat) {
    && i + 4 <= |s|
    && WordBoundary(s, i) && WordBoundary(s, i + 4)
    && IsDigit(s[i]) && IsDigit(s[i + 1]) && IsDigit(s[i + 2]) && IsDigit(s[i + 3])
    && (s[i] == '1' || (s[i] == '2' && s[i + 1] == '0' && '0' <= s[i + 2] <= '2'))
  }

  /** `re.findall` of that regex from index `i`: matches left to right, never overlapping. */
  function YearsFrom(s: string, i: nat): (r: seq<nat>)
    ensures forall k :: 0 <= k < |r| ==> 1000 <= r[k] <= 2029
    decreases |s| - i
  {
    if i + 4 > |s| then []
    else if YearAt(s, i) then
      FourDigits(s[i..i + 4]);
      [DigitsValue(s[i..i + 4])] + YearsFrom(s, i + 4)
    else YearsFrom(s, i + 1)
  }

  /** The end of the run of characters satisfying the digit test, from `i`. */
  function DigitRunEnd(s: string, i: nat): (j: nat)
    requires i <= |s|
    ensures i <= j <= |s| && (forall k :: i <= k < j ==> IsDigit(s[k])) && (j == |s| || !IsDigit(s[j]))
    decreases |s| - i
  {
    if i < |s| && IsDigit(s[i]) then DigitRunEnd(s, i + 1) else i
  }

  function SpaceRunEnd(s: string, i: nat): (j: nat)
    requires i <= |s|
    ensures i <= j <= |s| && (forall k :: i <= k < j ==> IsSpace(s[k])) && (j == |s| || !IsSpace(s[j]))
    decreases |s| - i
  {
    if i < |s| && IsSpace(s[i]) then SpaceRunEnd(s, i + 1) else i
  }

  const ORDINAL_SUFFIXES: seq<string> := ["th", "st", "nd", "rd"]

  /**
    The regex `(\d+)(?:th|st|nd|rd)\.?\s*(?:century|cent\.?)` matches at `i`: the
    greedy digit run, an ordinal suffix, an optional dot, any whitespace, then "cent".
   */
  predicate CenturyAt(s: string, i: nat) {
    && i < |s| && IsDigit(s[i])
    && var j := DigitRunEnd(s, i);
       && j + 2 <= |s| && s[j..j + 2] in ORDINAL_SUFFIXES
       && var k := if j + 2 < |s| && s[j + 2] == '.' then j + 3 else j + 2;
          StartsWith(s[SpaceRunEnd(s, k)..], "cent")
  }

  /** `re.search` of the century regex: its leftmost match at or after `i`. */
  function FindCentury(s: string, i: nat): (r: Option<nat>)
    ensures r.Some? ==> i <= r.value < |s|
    decreases |s| - i
  {
    if i >= |s| then None
    else if CenturyAt(s, i) then Some(i)
    else FindCentury(s, i + 1)
  }

  /** The century match is the leftmost position at or after `i` where the pattern matches; none only when it matches nowhere. */
  lemma {:induction false} FindCenturyLeftmost(s: string, i: nat)
    ensures var r := FindCentury(s, i);
            && (r.Some? ==> CenturyAt(s, r.value) && forall q :: i <= q < r.value ==> !CenturyAt(s, q))
            && (r.None? ==> forall q :: i <= q ==> !CenturyAt(s, q))
    decreases |s| - i
  {
    if i < |s| && !CenturyAt(s, i) {
      FindCenturyLeftmost(s, i + 1);
    }
  }

  /** The number the century match captures. */
  function CenturyNumber(s: string, i: nat): nat
    requires i < |s|
  {
    DigitsValue(s[i..DigitRunEnd(s, i)])
  }

  /** The text names a quarter by its ordinal (`digits`, as written) or by its word (`word`, in any case). */
  predicate HasMarker(text: string, digits: string, word: string) {
    Contains(text, digits) || Contains(Lower(text), word)
  }

  /** The quarter markers: "1st"/"first" to "4th"/"fourth", tried in that order, and the year in the century each gives. */
  function QuarterOffset(text: string): (r: nat)
    ensures r in {12, 37, 62, 87, 50}
    ensures r == 12 <==> HasMarker(text, "1st", "first")
    ensures r == 37 <==> !HasMarker(text, "1st", "first") && HasMarker(text, "2nd", "second")
    ensures r == 62 <==> !HasMarker(text, "1st", "first") && !HasMarker(text, "2nd", "second")
                         && HasMarker(text, "3rd", "third")
    ensures r == 87 <==> !HasMarker(text, "1st", "first") && !HasMarker(text, "2nd", "second")
                         && !HasMarker(text, "3rd", "third") && HasMarker(text, "4th", "fourth")
    ensures r == 50 <==> !HasMarker(text, "1st", "first") && !HasMarker(text, "2nd", "second")
                         && !HasMarker(text, "3rd", "third") && !HasMarker(text, "4th", "fourth")
  {
    if Contains(text, "1st") || Contains(Lower(text), "first") then 12
    else if Contains(text, "2nd") || Contains(Lower(text), "second") then 37
    else if Contains(text, "3rd") || Contains(Lower(text), "third") then 62
    else if Contains(text, "4th") || Contains(Lower(text), "fourth") then 87
    else 50
  }

  /**
    The four-digit-year part shared by both readings: the floor of the mean of the
    first two years, or the only year.
   */
  function YearFromYears(years: seq<nat>): (r: Option<int>)
    ensures |years| == 0 <==> r.None?
    ensures |years| >= 2 ==> (years[0] <= r.value <= years[1] || years[1] <= r.value <= years[0])
    ensures |years| == 1 ==> r == Some(years[0] as int)
  {
    if |years| >= 2 then Some((years[0] + years[1]) / 2)
    else if |years| == 1 then Some(years[0] as int)
    else None
  }

  /**
    `_extract_year` as written: the quarter markers are looked for in the whole
    text, so the century's own ordinal ("14th", "21st") is read as a quarter.
   */
  function ExtractYearAsWritten(text: string): (r: Option<int>)
    ensures text == "" ==> r.None?
  {
    if text == "" then None
    else
      var years := YearsFrom(text, 0);
      if |years| > 0 then YearFromYears(years)
      else match FindCentury(Lower(text), 0)
        case None => None
        case Some(p) => Some((CenturyNumber(Lower(text), p) as int - 1) * 100 + QuarterOffset(text))
  }

  /**
    `_extract_year` with the quarter markers looked for only before the century
    expression: "4th. quarter of 19th cent." still gives 1887 and "14th cent."
    gives the century's middle, 1350.
   */
  function ExtractYear(text: string): (r: Option<int>)
    ensures text == "" ==> r.None?
    ensures |YearsFrom(text, 0)| > 0 ==> r == YearFromYears(YearsFrom(text, 0))
    ensures |YearsFrom(text, 0)| == 0 && FindCentury(Lower(text), 0).Some? ==>
              var p := FindCentury(Lower(text), 0).value;
              var c := CenturyNumber(Lower(text), p) as int;
              r.Some? && (c - 1) * 100 < r.value < c * 100
              && (QuarterOffset(text[..p]) == 50 ==> r.value == (c - 1) * 100 + 50)
  {
    if text == "" then None
    else
      var years := YearsFrom(text, 0);
      if |years| > 0 then YearFromYears(years)
      else match FindCentury(Lower(text), 0)
        case None => None
        case Some(p) => Some((CenturyNumber(Lower(text), p) as int - 1) * 100 + QuarterOffset(text[..p]))
  }

  /** The two readings differ only in where a quarter marker may appear. */
  lemma ReadingsAgreeWithoutCentury(text: string)
    requires FindCentury(Lower(text), 0).None? || |YearsFrom(text, 0)| > 0
    ensures ExtractYear(text) == ExtractYearAsWritten(text)
  {
  }

  /** The documented range example: "1820-1830" gives the midpoint 1825. */
  lemma RangeMidpointExample()
    ensures ExtractYear("1820-1830") == Some(1825)
  {
    var s := "1820-1830";
    assert YearAt(s, 0);
    assert s[0..4] == "1820";
    FourDigits("1820");
    assert !YearAt(s, 4);
    assert YearAt(s, 5);
    assert s[5..9] == "1830";
    FourDigits("1830");
    assert YearsFrom(s, 9) == [];
    assert YearsFrom(s, 5) == [1830];
    assert YearsFrom(s, 4) == [1830];
    assert YearsFrom(s, 0) == [1820, 1830];
  }

  /** The documented quarter example gives 1887 under both readings (the comment beside it says 1875). */
  lemma QuarterExample()
    ensures ExtractYear("4th. quarter of 19th cent.") == Some(1887)
    ensures ExtractYearAsWritten("4th. quarter of 19th cent.") == Some(1887)
  {
    var s := "4th. quarter of 19th cent.";
    QuarterTextHasNoYears(s);
    QuarterTextCentury(s);
    QuarterTextOffset(s);
    QuarterTextLower(s);
  }

  lemma QuarterTextHasNoYears(s: string)
    requires s == "4th. quarter of 19th cent."
    ensures YearsFrom(s, 0) == []
  {
    NoYears(s);
  }

  lemma QuarterTextCentury(s: string)
    requires s == "4th. quarter of 19th cent."
    ensures FindCentury(s, 0) == Some(16)
    ensures CenturyNumber(s, 16) == 19
  {
    NoCenturyAtStart(s);
    NineteenthAt16(s);
    NoDigitsBefore16(s);
    NoCenturyBetween(s, 1, 16);
    NineteenthNumber(s);
  }

  lemma NoDigitsBefore16(s: string)
    requires s == "4th. quarter of 19th cent."
    ensures forall q :: 1 <= q < 16 ==> q < |s| && !IsDigit(s[q])
  {
    var t := s[..16];
    assert t == "4th. quarter of ";
    forall q | 1 <= q < 16
      ensures !IsDigit(s[q])
    {
      assert s[q] == t[q];
    }
  }

  lemma NoCenturyAtStart(s: string)
    requires s == "4th. quarter of 19th cent."
    ensures !CenturyAt(s, 0)
  {
    assert DigitRunEnd(s, 0) == 1;
    assert s[3] == '.';
    assert SpaceRunEnd(s, 4) == 5;
    assert s[5] == 'q';
    assert s[5..][..4][0] == 'q';
  }

  lemma NineteenthAt16(s: string)
    requires s == "4th. quarter of 19th cent."
    ensures DigitRunEnd(s, 16) == 18
    ensures CenturyAt(s, 16)
  {
    assert DigitRunEnd(s, 18) == 18;
    assert DigitRunEnd(s, 17) == 18;
    assert s[18..20] == "th";
    assert SpaceRunEnd(s, 21) == 21;
    assert SpaceRunEnd(s, 20) == 21;
    assert s[21..][..4] == "cent";
  }

  lemma NineteenthNumber(s: string)
    requires s == "4th. quarter of 19th cent."
    requires DigitRunEnd(s, 16) == 18
    ensures CenturyNumber(s, 16) == 19
  {
    TwoDigits(s[16..18]);
  }

  lemma QuarterTextLower(s: string)
    requires s == "4th. quarter of 19th cent."
    ensures Lower(s) == s
    ensures Lower(s[..16]) == s[..16]
  {
    assert Lower(s) == s;
    assert Lower(s[..16]) == s[..16];
  }

  lemma QuarterTextOffset(s: string)
    requires s == "4th. quarter of 19th cent."
    ensures QuarterOffset(s) == 87
    ensures QuarterOffset(s[..16]) == 87
  {
    QuarterTextWhole(s);
    QuarterTextPrefix(s, s[..16]);
  }

  lemma QuarterTextWhole(s: string)
    requires s == "4th. quarter of 19th cent."
    ensures QuarterOffset(s) == 87
  {
    QuarterTextLower(s);
    QuarterTextLacks(s);
    FourthQuarterOnly(s, 0);
  }

  lemma QuarterTextLacks(s: string)
    requires s == "4th. quarter of 19th cent."
    ensures '2' !in s && '3' !in s && 's' !in s && 'i' !in s
  {
    var t, u := s[..16], s[16..];
    assert t == "4th. quarter of " && u == "19th cent.";
    QuarterWordsLack(t);
    CenturyWordsLack(u);
    assert s == t + u;
  }

  lemma QuarterTextPrefix(s: string, t: string)
    requires s == "4th. quarter of 19th cent." && t == s[..16]
    ensures QuarterOffset(t) == 87
  {
    QuarterTextLower(s);
    assert t == "4th. quarter of ";
    QuarterWordsLack(t);
    FourthQuarterOnly(t, 0);
  }

  lemma QuarterWordsLack(t: string)
    requires t == "4th. quarter of "
    ensures '2' !in t && '3' !in t && 's' !in t && 'i' !in t
  {
  }

  lemma CenturyWordsLack(u: string)
    requires u == "19th cent."
    ensures '2' !in u && '3' !in u && 's' !in u && 'i' !in u
  {
  }

  /** Text whose only quarter marker is a "4th" at index `k`: it has no '2', '3', 's' or 'i'. */
  lemma FourthQuarterOnly(s: string, k: nat)
    requires k + 3 <= |s| && s[k] == '4' && s[k + 1] == 't' && s[k + 2] == 'h'
    requires '2' !in s && '3' !in s && 's' !in s && 'i' !in s
    requires Lower(s) == s
    ensures QuarterOffset(s) == 87
  {
    AbsentByChar(s, "1st", 1);
    AbsentByChar(s, "first", 1);
    AbsentByChar(s, "2nd", 0);
    AbsentByChar(s, "second", 0);
    AbsentByChar(s, "3rd", 0);
    AbsentByChar(s, "third", 2);
    assert s[k..k + 3] == "4th";
    OccursContains(s, "4th", k);
    FourthMarkerFirst(s);
  }

  lemma FourthMarkerFirst(s: string)
    requires Lower(s) == s
    requires !Contains(s, "1st") && !Contains(s, "first")
    requires !Contains(s, "2nd") && !Contains(s, "second")
    requires !Contains(s, "3rd") && !Contains(s, "third")
    requires Contains(s, "4th")
    ensures QuarterOffset(s) == 87
  {
  }

  /**
    The finding: "14th cent." is read as the last quarter of the fourteenth century
    (1387) because "4th" occurs inside "14th"; the corrected reading gives 1350.
   */
  lemma CenturyOrdinalReadAsQuarter()
    ensures ExtractYearAsWritten("14th cent.") == Some(1387)
    ensures ExtractYear("14th cent.") == Some(1350)
  {
    var s := "14th cent.";
    assert Lower(s) == s;
    NoYears(s);
    FourteenthCentury();
    FourthInFourteenth(s);
    assert s[..0] == "";
    NoQuarterInEmpty();
  }

  /** "14th cent." holds a century expression at its start, numbered 14. */
  lemma FourteenthCentury()
    ensures FindCentury("14th cent.", 0) == Some(0)
    ensures CenturyNumber("14th cent.", 0) == 14
  {
    var s := "14th cent.";
    assert DigitRunEnd(s, 0) == 2;
    assert s[2..4] == "th";
    assert SpaceRunEnd(s, 4) == 5;
    assert s[5..][..4] == "cent";
    assert CenturyAt(s, 0);
    assert s[0..2] == "14";
    TwoDigits(s[0..2]);
  }

  /** The "4th" inside "14th" is the only quarter marker the whole text offers. */
  lemma FourthInFourteenth(s: string)
    requires s == "14th cent."
    ensures QuarterOffset(s) == 87
  {
    assert Lower(s) == s;
    FourthQuarterOnly(s, 1);
  }

  lemma NoQuarterInEmpty()
    ensures QuarterOffset("") == 50
  {
    ContainsIff("", "1st");
    ContainsIff("", "first");
    ContainsIff("", "2nd");
    ContainsIff("", "second");
    ContainsIff("", "3rd");
    ContainsIff("", "third");
    ContainsIff("", "4th");
    ContainsIff("", "fourth");
  }

  lemma OccursContains(s: string, p: string, k: int)
    requires OccursAt(s, p, k)
    ensures Contains(s, p)
  {
    ContainsIff(s, p);
  }

  /** A text with no four consecutive digits has no four-digit year. */
  lemma {:induction false} NoYears(s: string)
    requires forall i :: 0 <= i && i + 3 < |s| ==> !(IsDigit(s[i]) && IsDigit(s[i + 1]) && IsDigit(s[i + 2]) && IsDigit(s[i + 3]))
    ensures YearsFrom(s, 0) == []
  {
    NoYearsFrom(s, 0);
  }

  lemma {:induction false} NoYearsFrom(s: string, i: nat)
    requires forall j :: 0 <= j && j + 3 < |s| ==> !(IsDigit(s[j]) && IsDigit(s[j + 1]) && IsDigit(s[j + 2]) && IsDigit(s[j + 3]))
    ensures YearsFrom(s, i) == []
    decreases |s| - i
  {
    if i + 4 <= |s| {
      assert !YearAt(s, i);
      NoYearsFrom(s, i + 1);
    }
  }

  lemma {:induction false} NoCenturyBetween(s: string, from: nat, to: nat)
    requires from <= to
    requires forall q :: from <= q < to ==> q < |s| && !IsDigit(s[q])
    requires to < |s| && CenturyAt(s, to)
    ensures FindCentury(s, from) == Some(to)
    decreases (to as int) - (from as int)
  {
    if from < to {
      assert !CenturyAt(s, from);
      NoCenturyBetween(s, from + 1, to);
    }
  }

  // ---------------------------------------------------------------------------
  // Image URL and the whole record
  // ---------------------------------------------------------------------------

  const ENGLISH_HOST: string := "lootedart.gov.pl"
  const POLISH_HOST: string := "dzielautracone.gov.pl"

  /** `_fix_image_url`: every occurrence of the English host replaced by the Polish one. */
  function FixImageUrl(url: Option<string>): (r: Option<string>)
    ensures url.None? || url == Some("") ==> r == url
    ensures url.Some? && !Contains(url.value, ENGLISH_HOST) ==> r == url
    ensures url.Some? ==> r.Some?
  {
    if url.None? || url.value == "" then url
    else if Contains(url.value, ENGLISH_HOST) then Some(ReplaceAll(url.value, ENGLISH_HOST, POLISH_HOST))
    else url
  }

  /**
    A URL naming the English host once, after a prefix in which no occurrence of the host
    starts and before a rest that does not mention it, is rewritten to name the Polish host
    and is otherwise unchanged.
   */
  lemma FixImageUrlRewritesHost(prefix: string, rest: string)
    requires forall k :: 0 <= k < |prefix| ==> !OccursAt(prefix + ENGLISH_HOST + rest, ENGLISH_HOST, k)
    requires !Contains(rest, ENGLISH_HOST)
    ensures FixImageUrl(Some(prefix + ENGLISH_HOST + rest)) == Some(prefix + POLISH_HOST + rest)
  {
    var url := prefix + ENGLISH_HOST + rest;
    assert url == prefix + (ENGLISH_HOST + rest);
    assert OccursAt(url, ENGLISH_HOST, |prefix|) by {
      assert url[|prefix|..|prefix| + |ENGLISH_HOST|] == ENGLISH_HOST;
    }
    OccursContains(url, ENGLISH_HOST, |prefix|);
    ReplaceAfterPrefix(prefix, ENGLISH_HOST + rest, ENGLISH_HOST, POLISH_HOST);
    var hostAndRest := ENGLISH_HOST + rest;
    assert hostAndRest[..|ENGLISH_HOST|] == ENGLISH_HOST;
    assert hostAndRest[|ENGLISH_HOST|..] == rest;
    ReplaceAbsent(rest, ENGLISH_HOST, POLISH_HOST);
    assert ReplaceAll(hostAndRest, ENGLISH_HOST, POLISH_HOST) == POLISH_HOST + rest;
    assert ReplaceAll(url, ENGLISH_HOST, POLISH_HOST) == prefix + (POLISH_HOST + rest);
    assert prefix + (POLISH_HOST + rest) == prefix + POLISH_HOST + rest;
  }

  /** A scraped record; an absent key is `None`. */
  datatype RawArtwork = RawArtwork(title: Option<string>, description: Option<string>, imageUrl: Option<string>)

  /** Every register entry was last known in Poland on the day of the invasion. */
  const LAST_KNOWN_LOCATION: string := "Poland"
  const LAST_KNOWN_DATE: Date := Date(1939, 9, 1)

  /**
    `transform_scraped_artwork`, with `id` the identifier the new artwork takes.
    No artwork for a blank title; a `Failure` when the artwork constructor refuses
    the creation year (a "0th century" gives the year -50).
   */
  function TransformScrapedArtwork(raw: RawArtwork, id: string): (r: Result<Option<Artwork>>)
    ensures r == Success(None) <==> Strip(raw.title.GetOr("")) == ""
    ensures r.Failure? ==> var y := ExtractYear(ParseStructured(raw.description.GetOr("")).dateOfCreation.GetOr(""));
                           y.Some? && y.value < 0
    ensures r.Success? && r.value.Some? ==>
              var a := r.value.value;
              var fields := ParseStructured(raw.description.GetOr(""));
              && a.id == id && a.title == Strip(raw.title.GetOr("")) && a.title != ""
              && a.status == KnownLooted
              && a.lastKnownLocation == Some(LAST_KNOWN_LOCATION) && a.lastKnownDate == Some(LAST_KNOWN_DATE)
              && a.description == fields.objectType.GetOr("")
              && a.artist == ExtractArtist(fields)
              && a.creationYear == ExtractYear(fields.dateOfCreation.GetOr(""))
              && a.imageUrl == FixImageUrl(raw.imageUrl)
  {
    var title := Strip(raw.title.GetOr(""));
    if title == "" then Success(None)
    else
      var fields := ParseStructured(raw.description.GetOr(""));
      match NewArtwork(id, title, ExtractArtist(fields), ExtractYear(fields.dateOfCreation.GetOr("")),
                       fields.objectType.GetOr(""), KnownLooted, FixImageUrl(raw.imageUrl),
                       Some(LAST_KNOWN_LOCATION), Some(LAST_KNOWN_DATE))
      case Success(a) => Success(Some(a))
      case Failure(e) => Failure(e)
  }

  /**
    The loop of `transform_batch` over the per-record outcomes: the artworks in
    order, or the first record's error, which aborts the batch.
   */
  function CollectBatch(results: seq<Result<Option<Artwork>>>): Result<seq<Artwork>> {
    if |results| == 0 then Success([])
    else if results[0].Failure? then Failure(results[0].error)
    else match CollectBatch(results[1..])
      case Failure(e) => Failure(e)
      case Success(rest) => Success((if results[0].value.Some? then [results[0].value.value] else []) + rest)
  }

  /**
    The batch succeeds iff every outcome does, and then holds exactly the artworks
    the outcomes carry, at most one each; otherwise it carries the first error.
   */
  lemma {:induction false} CollectBatchMeaning(results: seq<Result<Option<Artwork>>>)
    ensures var r := CollectBatch(results);
            && (r.Success? <==> forall k :: 0 <= k < |results| ==> results[k].Success?)
            && (r.Success? ==> |r.value| <= |results|)
            && (r.Success? ==> forall a :: a in r.value <==> exists k :: 0 <= k < |results| && results[k] == Success(Some(a)))
            && (r.Failure? ==> exists k :: 0 <= k < |results| && results[k] == Failure(r.error)
                                          && forall j :: 0 <= j < k ==> results[j].Success?)
  {
    if |results| > 0 {
      var tail := results[1..];
      CollectBatchMeaning(tail);
      var rest := CollectBatch(tail);
      assert forall k :: 0 < k < |results| ==> results[k] == tail[k - 1];
      if results[0].Success? {
        if rest.Failure? {
          var k :| 0 <= k < |tail| && tail[k] == Failure(rest.error) && forall j :: 0 <= j < k ==> tail[j].Success?;
          assert results[k + 1] == Failure(rest.error);
        } else {
          var kept := (if results[0].value.Some? then [results[0].value.value] else []) + rest.value;
          assert forall a :: a in kept <==> (results[0].value == Some(a) || a in rest.value);
        }
      }
    }
  }

  /** The outcome of each record, `ids[k]` being the identifier of record `k`'s artwork. */
  function Outcomes(raws: seq<RawArtwork>, ids: seq<string>): (r: seq<Result<Option<Artwork>>>)
    requires |ids| == |raws|
    ensures |r| == |raws| && forall k :: 0 <= k < |raws| ==> r[k] == TransformScrapedArtwork(raws[k], ids[k])
  {
    seq(|raws|, k requires 0 <= k < |raws| => TransformScrapedArtwork(raws[k], ids[k]))
  }

  /** `transform_batch`: the artworks of the records that yield one, in input order. */
  function TransformBatch(raws: seq<RawArtwork>, ids: seq<string>): (r: Result<seq<Artwork>>)
    requires |ids| == |raws|
  {
    CollectBatch(Outcomes(raws, ids))
  }

  /**
    The batch succeeds exactly when every record does; it then holds precisely the
    artworks some record yields, at most one per record. A failed batch carries the
    error of its first failing record.
   */
  lemma TransformBatchContents(raws: seq<RawArtwork>, ids: seq<string>)
    requires |ids| == |raws|
    ensures TransformBatch(raws, ids).Success? <==>
              forall k :: 0 <= k < |raws| ==> TransformScrapedArtwork(raws[k], ids[k]).Success?
    ensures TransformBatch(raws, ids).Success? ==> |TransformBatch(raws, ids).value| <= |raws|
    ensures TransformBatch(raws, ids).Success? ==> forall a :: a in TransformBatch(raws, ids).value <==>
              exists k :: 0 <= k < |raws| && TransformScrapedArtwork(raws[k], ids[k]) == Success(Some(a))
    ensures TransformBatch(raws, ids).Failure? ==>
              exists k :: 0 <= k < |raws| && TransformScrapedArtwork(raws[k], ids[k]) == Failure(TransformBatch(raws, ids).error)
  {
    TransformBatchSucceeds(raws, ids);
    TransformBatchHolds(raws, ids);
    TransformBatchError(raws, ids);
  }

  lemma TransformBatchSucceeds(raws: seq<RawArtwork>, ids: seq<string>)
    requires |ids| == |raws|
    ensures TransformBatch(raws, ids).Success? <==>
              forall k :: 0 <= k < |raws| ==> TransformScrapedArtwork(raws[k], ids[k]).Success?
  {
    CollectBatchMeaning(Outcomes(raws, ids));
  }

  lemma TransformBatchHolds(raws: seq<RawArtwork>, ids: seq<string>)
    requires |ids| == |raws|
    ensures TransformBatch(raws, ids).Success? ==> |TransformBatch(raws, ids).value| <= |raws|
    ensures TransformBatch(raws, ids).Success? ==> forall a :: a in TransformBatch(raws, ids).value <==>
              exists k :: 0 <= k < |raws| && TransformScrapedArtwork(raws[k], ids[k]) == Success(Some(a))
  {
    CollectBatchMeaning(Outcomes(raws, ids));
  }

  lemma TransformBatchError(raws: seq<RawArtwork>, ids: seq<string>)
    requires |ids| == |raws|
    ensures TransformBatch(raws, ids).Failure? ==>
              exists k :: 0 <= k < |raws| && TransformScrapedArtwork(raws[k], ids[k]) == Failure(TransformBatch(raws, ids).error)
  {
    var o := Outcomes(raws, ids);
    var r := CollectBatch(o);
    CollectBatchMeaning(o);
    if r.Failure? {
      var k :| 0 <= k < |o| && o[k] == Failure(r.error) && forall j :: 0 <= j < k ==> o[j].Success?;
      assert TransformScrapedArtwork(raws[k], ids[k]) == Failure(r.error);
    }
  }

  /** Collecting two runs of outcomes gives the first run's artworks followed by the second's. */
  lemma {:induction false} CollectBatchConcat(a: seq<Result<Option<Artwork>>>, b: seq<Result<Option<Artwork>>>)
    requires CollectBatch(a).Success? && CollectBatch(b).Success?
    ensures CollectBatch(a + b) == Success(CollectBatch(a).value + CollectBatch(b).value)
  {
    if |a| == 0 {
      assert a + b == b;
      assert [] + CollectBatch(b).value == CollectBatch(b).value;
    } else {
      assert (a + b)[1..] == a[1..] + b;
      assert (a + b)[0] == a[0];
      CollectBatchConcat(a[1..], b);
      var head := if a[0].value.Some? then [a[0].value.value] else [];
      var x, y := CollectBatch(a[1..]).value, CollectBatch(b).value;
      assert head + (x + y) == (head + x) + y;
    }
  }

  /** The batch of two runs of records is the first run's artworks followed by the second's. */
  lemma TransformBatchConcat(a: seq<RawArtwork>, ia: seq<string>, b: seq<RawArtwork>, ib: seq<string>)
    requires |ia| == |a| && |ib| == |b|
    requires TransformBatch(a, ia).Success? && TransformBatch(b, ib).Success?
    ensures TransformBatch(a + b, ia + ib) == Success(TransformBatch(a, ia).value + TransformBatch(b, ib).value)
  {
    OutcomesConcat(a, ia, b, ib);
    CollectBatchConcat(Outcomes(a, ia), Outcomes(b, ib));
  }

  lemma OutcomesConcat(a: seq<RawArtwork>, ia: seq<string>, b: seq<RawArtwork>, ib: seq<string>)
    requires |ia| == |a| && |ib| == |b|
    ensures Outcomes(a + b, ia + ib) == Outcomes(a, ia) + Outcomes(b, ib)
  {
    var o, oa, ob := Outcomes(a + b, ia + ib), Outcomes(a, ia), Outcomes(b, ib);
    forall k | 0 <= k < |o|
      ensures o[k] == (oa + ob)[k]
    {
      if k < |a| {
        assert (a + b)[k] == a[k] && (ia + ib)[k] == ia[k];
      } else {
        assert (a + b)[k] == b[k - |a|] && (ia + ib)[k] == ib[k - |a|];
      }
    }
  }

  /** Records with a blank title are dropped and the rest kept, one artwork each. */
  lemma {:induction false} BatchKeepsTitled(raws: seq<RawArtwork>, ids: seq<string>)
    requires |ids| == |raws|
    requires TransformBatch(raws, ids).Success?
    ensures |TransformBatch(raws, ids).value| == TitledCount(raws)
  {
    if |raws| > 0 {
      var o := Outcomes(raws, ids);
      assert Outcomes(raws[1..], ids[1..]) == o[1..];
      assert o[0] == TransformScrapedArtwork(raws[0], ids[0]);
      BatchKeepsTitled(raws[1..], ids[1..]);
    }
  }

  /** The number of records with a non-blank title. */
  function TitledCount(raws: seq<RawArtwork>): nat {
    if |raws| == 0 then 0
    else (if Strip(raws[0].title.GetOr("")) == "" then 0 else 1) + TitledCount(raws[1..])
  }
}
