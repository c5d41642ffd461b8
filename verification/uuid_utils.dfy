/**
  UUID text in the 8-4-4-4-12 layout of section 3 of RFC 4122: inserting the
  hyphens into 32 hexadecimal characters and taking them out again.
 */
module UuidUtils {
  import opened Text

  const UUID_LENGTH_WITHOUT_HYPHENS: nat := 32

  /** Where the groups of the hyphen-free text end: after 8, 12, 16 and 20 characters. */
  const HYPHEN_POSITION_1: nat := 8
  const HYPHEN_POSITION_2: nat := 12
  const HYPHEN_POSITION_3: nat := 16
  const HYPHEN_POSITION_4: nat := 20

  /** `remove_uuid_hyphens`: `replace('-', '')`, which drops every hyphen and keeps the rest in order. */
  function RemoveUuidHyphens(s: string): (r: string)
    ensures r == Without(s, '-')
    ensures forall i :: 0 <= i < |r| ==> r[i] != '-'
    ensures |r| == |s| - Occurrences(s, '-')
  {
    ReplaceCharByNothing(s, '-');
    WithoutFacts(s, '-');
    ReplaceAll(s, "-", "")
  }

  /** The five groups of `clean` joined by hyphens. */
  function Hyphenated(clean: string): string
    requires |clean| == UUID_LENGTH_WITHOUT_HYPHENS
  {
    clean[..HYPHEN_POSITION_1] + "-" + clean[HYPHEN_POSITION_1..HYPHEN_POSITION_2] + "-"
    + clean[HYPHEN_POSITION_2..HYPHEN_POSITION_3] + "-" + clean[HYPHEN_POSITION_3..HYPHEN_POSITION_4] + "-"
    + clean[HYPHEN_POSITION_4..]
  }

  /**
    Thirty-two hyphen-free characters come out as 36 characters with hyphens at
    indices 8, 13, 18 and 23 only, and dropping those hyphens gives the input back.
   */
  lemma HyphenatedLayout(clean: string)
    requires |clean| == UUID_LENGTH_WITHOUT_HYPHENS
    requires forall i :: 0 <= i < |clean| ==> clean[i] != '-'
    ensures |Hyphenated(clean)| == 36
    ensures forall i :: 0 <= i < 36 ==> (Hyphenated(clean)[i] == '-' <==> i in {8, 13, 18, 23})
    ensures Without(Hyphenated(clean), '-') == clean
  {
    HyphenPositions(clean);
    HyphensRemoved(clean);
  }

  lemma HyphenPositions(clean: string)
    requires |clean| == UUID_LENGTH_WITHOUT_HYPHENS
    requires forall i :: 0 <= i < |clean| ==> clean[i] != '-'
    ensures |Hyphenated(clean)| == 36
    ensures forall i :: 0 <= i < 36 ==> (Hyphenated(clean)[i] == '-' <==> i in {8, 13, 18, 23})
  {
    var r := Hyphenated(clean);
    assert r == clean[..8] + "-" + clean[8..12] + "-" + clean[12..16] + "-" + clean[16..20] + "-" + clean[20..];
    forall i | 0 <= i < 36
      ensures r[i] == '-' <==> i in {8, 13, 18, 23}
    {
      if i < 8 { assert r[i] == clean[i]; }
      else if 8 < i < 13 { assert r[i] == clean[i - 1]; }
      else if 13 < i < 18 { assert r[i] == clean[i - 2]; }
      else if 18 < i < 23 { assert r[i] == clean[i - 3]; }
      else if 23 < i { assert r[i] == clean[i - 4]; }
    }
  }

  lemma HyphensRemoved(clean: string)
    requires |clean| == UUID_LENGTH_WITHOUT_HYPHENS
    requires forall i :: 0 <= i < |clean| ==> clean[i] != '-'
    ensures Without(Hyphenated(clean), '-') == clean
  {
    var g1, g2, g3, g4, g5 := clean[..8], clean[8..12], clean[12..16], clean[16..20], clean[20..];
    var x2 := g1 + "-" + g2;
    var x3 := x2 + "-" + g3;
    var x4 := x3 + "-" + g4;
    assert Hyphenated(clean) == x4 + "-" + g5;
    WithoutNone(g1, '-');
    HyphenThenGroup(g1, g2);
    HyphenThenGroup(x2, g3);
    HyphenThenGroup(x3, g4);
    HyphenThenGroup(x4, g5);
    assert g1 + g2 + g3 + g4 + g5 == clean;
  }

  /** Dropping the hyphens after appending a hyphen and a hyphen-free group leaves the group appended. */
  lemma HyphenThenGroup(x: string, g: string)
    requires forall i :: 0 <= i < |g| ==> g[i] != '-'
    ensures Without(x + "-" + g, '-') == Without(x, '-') + g
  {
    WithoutNone(g, '-');
    assert Without("-", '-') == [];
    WithoutConcat(x, "-", '-');
    WithoutConcat(x + "-", g, '-');
  }

  /**
    `format_uuid_with_hyphens`: text whose hyphen-free form is not 32 characters
    long is returned as given; otherwise the hyphens are put where the layout wants
    them. Either way the hyphen-free form is unchanged.
   */
  function FormatUuidWithHyphens(s: string): (r: string)
    ensures |RemoveUuidHyphens(s)| != UUID_LENGTH_WITHOUT_HYPHENS ==> r == s
    ensures |RemoveUuidHyphens(s)| == UUID_LENGTH_WITHOUT_HYPHENS ==>
              |r| == 36 && forall i :: 0 <= i < 36 ==> (r[i] == '-' <==> i in {8, 13, 18, 23})
    ensures RemoveUuidHyphens(r) == RemoveUuidHyphens(s)
  {
    var clean := RemoveUuidHyphens(s);
    if |clean| != UUID_LENGTH_WITHOUT_HYPHENS then s
    else
      HyphenatedLayout(clean);
      Hyphenated(clean)
  }

  /** Formatting twice is formatting once. */
  lemma FormatIdempotent(s: string)
    ensures FormatUuidWithHyphens(FormatUuidWithHyphens(s)) == FormatUuidWithHyphens(s)
  {
    var r := FormatUuidWithHyphens(s);
    assert RemoveUuidHyphens(r) == RemoveUuidHyphens(s);
  }
}
