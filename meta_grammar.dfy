/** The `@HD` record (src/header/parser/meta.rs) as functions: its tag table,
    the value parsers for `VN`, `SO`, `GO` and `SS`, and the record built
    from the filled slots. */
module MetaGrammar {
  import opened Bytes
  import opened Errors
  import opened Numbers
  import opened Utf8
  import opened HeaderTypes
  import opened Tokens
  import opened Fields

  const VN: Tag := Tag('V' as int, 'N' as int)
  const SO: Tag := Tag('S' as int, 'O' as int)
  const GO: Tag := Tag('G' as int, 'O' as int)
  const SS: Tag := Tag('S' as int, 'S' as int)

  /** One half of a version: UTF-8 text that `usize::from_str` accepts. */
  function VersionPart(part: Bytes): (r: Result<usize>)
    ensures r.Ok? <==> ParseUnsigned(part, USIZE_MAX).Some?
    ensures r.Ok? ==> Some(r.value as nat) == ParseUnsigned(part, USIZE_MAX)
  {
    if !ValidUtf8(part) then
      assert ParseUnsigned(part, USIZE_MAX).None? by {
        if ParseUnsigned(part, USIZE_MAX).Some? {
          UnsignedAscii(part, USIZE_MAX);
          AsciiIsUtf8(part);
        }
      }
      Err(InvalidUTF8)
    else
      match ParseUnsigned(part, USIZE_MAX)
      case None => Err(BadVersion)
      case Some(n) => Ok(n)
  }

  /** `parse_version` once the value is read: split at the first `.`, and
      read the major and minor numbers on either side. */
  function VersionValue(raw: Bytes): (r: Result<Version>)
    ensures r.Ok? ==> DOT in raw
    ensures r.Err? ==> r.error == BadVersion || r.error == InvalidUTF8
  {
    var i := IndexOf(raw, DOT);
    if i == |raw| then Err(BadVersion)
    else
      var major :- VersionPart(raw[..i]);
      var minor :- VersionPart(raw[i + 1..]);
      Ok(Version(major, minor))
  }

  /** The canonical text of a version: `major.minor` in decimal. */
  function VersionText(v: Version): Bytes {
    Decimal(v.major) + [DOT] + Decimal(v.minor)
  }

  const UNKNOWN_TEXT: Bytes := ['u' as int, 'n' as int, 'k' as int, 'n' as int, 'o' as int, 'w' as int, 'n' as int]
  const UNSORTED_TEXT: Bytes := ['u' as int, 'n' as int, 's' as int, 'o' as int, 'r' as int, 't' as int, 'e' as int, 'd' as int]
  const QUERYNAME_TEXT: Bytes := ['q' as int, 'u' as int, 'e' as int, 'r' as int, 'y' as int, 'n' as int, 'a' as int, 'm' as int, 'e' as int]
  const COORDINATE_TEXT: Bytes := ['c' as int, 'o' as int, 'o' as int, 'r' as int, 'd' as int, 'i' as int, 'n' as int, 'a' as int, 't' as int, 'e' as int]
  const NONE_TEXT: Bytes := ['n' as int, 'o' as int, 'n' as int, 'e' as int]
  const QUERY_TEXT: Bytes := ['q' as int, 'u' as int, 'e' as int, 'r' as int, 'y' as int]
  const REFERENCE_TEXT: Bytes := ['r' as int, 'e' as int, 'f' as int, 'e' as int, 'r' as int, 'e' as int, 'n' as int, 'c' as int, 'e' as int]

  /** The spelling `SO` uses for each sort order. */
  function SortOrderText(o: SortOrder): Bytes {
    match o
    case Unknown => UNKNOWN_TEXT
    case Unsorted => UNSORTED_TEXT
    case QueryName => QUERYNAME_TEXT
    case Coordinate => COORDINATE_TEXT
  }

  /** `parse_sort_order` once the value is read: one of four exact spellings. */
  function SortOrderValue(raw: Bytes): (r: Result<SortOrder>)
    ensures r.Ok? ==> SortOrderText(r.value) == raw
    ensures r.Err? ==> r.error == UnknownValue
  {
    if raw == UNKNOWN_TEXT then Ok(Unknown)
    else if raw == UNSORTED_TEXT then Ok(Unsorted)
    else if raw == QUERYNAME_TEXT then Ok(QueryName)
    else if raw == COORDINATE_TEXT then Ok(Coordinate)
    else Err(UnknownValue)
  }

  /** The spelling `GO` uses for each grouping. */
  function GroupingText(g: AlignmentGrouping): Bytes {
    match g
    case None => NONE_TEXT
    case Query => QUERY_TEXT
    case Reference => REFERENCE_TEXT
  }

  /** `parse_grouping` once the value is read: one of three exact spellings. */
  function GroupingValue(raw: Bytes): (r: Result<AlignmentGrouping>)
    ensures r.Ok? ==> GroupingText(r.value) == raw
    ensures r.Err? ==> r.error == UnknownValue
  {
    if raw == NONE_TEXT then Ok(AlignmentGrouping.None)
    else if raw == QUERY_TEXT then Ok(Query)
    else if raw == REFERENCE_TEXT then Ok(Reference)
    else Err(UnknownValue)
  }

  predicate Known(t: Tag) {
    t == VN || t == SO || t == GO || t == SS
  }

  /** The value parser behind each tag of the `match` in `parse_meta`. */
  function Interpret(t: Tag, raw: Bytes): Result<Slot> {
    if t == VN then
      var v :- VersionValue(raw);
      Ok(VersionSlot(v))
    else if t == SO then
      var o :- SortOrderValue(raw);
      Ok(SortOrderSlot(o))
    else if t == GO then
      var g :- GroupingValue(raw);
      Ok(GroupingSlot(g))
    else
      var text :- StrValue(raw);
      Ok(TextSlot(text))
  }

  const GRAMMAR: Grammar := Grammar(Known, Interpret)

  /** The record once the loop is done; the version is mandatory. */
  function Build(slots: Slots): (r: Result<HeaderMeta>)
    ensures r.Err? <==> VersionIn(slots, VN).None?
    ensures r.Err? ==> r.error == MissingVersion
    ensures r.Ok? ==> r.value == HeaderMeta(VersionIn(slots, VN).value,
      SortOrderIn(slots, SO), GroupingIn(slots, GO), TextIn(slots, SS))
  {
    match VersionIn(slots, VN)
    case None => Err(MissingVersion)
    case Some(version) =>
      Ok(HeaderMeta(version, SortOrderIn(slots, SO), GroupingIn(slots, GO), TextIn(slots, SS)))
  }

  /** `parse_meta`: the fields of an `@HD` line after its record code. */
  function ParseMeta(s: Bytes): (p: Parsed<HeaderMeta>)
    ensures p.Done? ==> p.rest == []
  {
    var slots :- Loop(GRAMMAR, s, map[]);
    Located(Build(slots.value), slots.rest)
  }

  /** The record an accepted list of fields describes, read field by field. */
  function MetaOf(fs: seq<TagValue>): Result<HeaderMeta> {
    match Decoded(ValueOf(fs, VN), VersionValue)
    case None => Err(MissingVersion)
    case Some(version) =>
      Ok(HeaderMeta(version,
        Decoded(ValueOf(fs, SO), SortOrderValue),
        Decoded(ValueOf(fs, GO), GroupingValue),
        Decoded(ValueOf(fs, SS), StrValue)))
  }

  /** Every canonical version text reads back as that version. */
  lemma VersionRoundTrip(v: Version)
    ensures VersionValue(VersionText(v)) == Ok(v)
  {
    var a, b := Decimal(v.major), Decimal(v.minor);
    DecimalDigits(v.major);
    DecimalDigits(v.minor);
    assert DOT !in a by {
      assert IsDigit(a[0]);
      forall k | 0 <= k < |a| ensures a[k] != DOT {
        assert IsDigit(a[k]);
      }
    }
    IndexOfJoined(a, b, DOT);
    var raw := VersionText(v);
    assert raw[..|a|] == a && raw[|a| + 1..] == b;
    UnsignedRoundTrip(v.major, USIZE_MAX);
    UnsignedRoundTrip(v.minor, USIZE_MAX);
  }

  /** An accepted version has exactly one `.`: a second one falls in the
      minor number, which must be digits. */
  lemma VersionOneDot(raw: Bytes)
    requires VersionValue(raw).Ok?
    ensures Count(raw, DOT) == 1
  {
    var i := IndexOf(raw, DOT);
    var minor := raw[i + 1..];
    assert DOT !in minor by {
      if DOT in minor {
        var k :| 0 <= k < |minor| && minor[k] == DOT;
        UnsignedRejectsOther(minor, USIZE_MAX, k);
      }
    }
    CountOnce(raw, DOT, i);
  }

  /** A version without a `.`, or with nothing before or nothing after its
      first `.`, is refused. */
  lemma VersionNeedsBothParts(raw: Bytes)
    requires IsAscii(raw)
    requires DOT !in raw || raw[0] == DOT || raw[|raw| - 1] == DOT
    ensures VersionValue(raw) == Err(BadVersion)
  {
    var i := IndexOf(raw, DOT);
    if i < |raw| {
      var major, minor := raw[..i], raw[i + 1..];
      AsciiPart(major);
      AsciiPart(minor);
      if raw[0] == DOT {
        assert major == [];
        assert VersionPart(major) == Err(BadVersion);
      } else {
        if minor != [] {
          assert minor[|minor| - 1] == DOT;
          UnsignedRejectsOther(minor, USIZE_MAX, |minor| - 1);
        }
        assert VersionPart(minor) == Err(BadVersion);
        assert VersionPart(major).Ok? || VersionPart(major) == Err(BadVersion);
      }
    }
  }

  /** A version is read from the two halves around its first `.`: it is
      accepted exactly when both halves are `usize` numbers, it holds their
      values, and ASCII text is refused only as `BadVersion` (so `1.x`, `1.6x`
      and a minor number past `usize` are `BadVersion`). */
  lemma VersionHalves(raw: Bytes)
    ensures var i := IndexOf(raw, DOT);
      VersionValue(raw).Ok? <==>
        i < |raw| && ParseUnsigned(raw[..i], USIZE_MAX).Some? && ParseUnsigned(raw[i + 1..], USIZE_MAX).Some?
    ensures var i := IndexOf(raw, DOT);
      VersionValue(raw).Ok? ==>
        Some(VersionValue(raw).value.major as nat) == ParseUnsigned(raw[..i], USIZE_MAX) &&
        Some(VersionValue(raw).value.minor as nat) == ParseUnsigned(raw[i + 1..], USIZE_MAX)
    ensures IsAscii(raw) && VersionValue(raw).Err? ==> VersionValue(raw) == Err(BadVersion)
  {
    var i := IndexOf(raw, DOT);
    if i < |raw| && IsAscii(raw) {
      AsciiPart(raw[..i]);
      AsciiPart(raw[i + 1..]);
    }
  }

  /** There is no prefix match: trailing text after the minor number, as in
      `1.6x`, refuses the whole version. */
  lemma VersionTrailingText()
    ensures VersionValue(['1' as int, DOT, '6' as int, 'x' as int]) == Err(BadVersion)
  {
    var raw: Bytes := ['1' as int, DOT, '6' as int, 'x' as int];
    VersionHalves(raw);
    assert raw[2..] == ['6' as int, 'x' as int];
    UnsignedRejectsOther(raw[2..], USIZE_MAX, 1);
  }

  /** An ASCII half of a version is refused only as `BadVersion`. */
  lemma AsciiPart(part: Bytes)
    requires IsAscii(part)
    ensures VersionPart(part).Err? ==> VersionPart(part) == Err(BadVersion)
  {
    AsciiIsUtf8(part);
  }

  lemma SortOrderRoundTrip(o: SortOrder)
    ensures SortOrderValue(SortOrderText(o)) == Ok(o)
  {
  }

  lemma GroupingRoundTrip(g: AlignmentGrouping)
    ensures GroupingValue(GroupingText(g)) == Ok(g)
  {
  }

  /** The slots hold what the fields give, tag by tag. */
  ghost predicate Filled(r: Slots, fs: seq<TagValue>) {
    forall t :: (t in r <==> ValueOf(fs, t).Some?) && (t in r ==> Ok(r[t]) == Interpret(t, ValueOf(fs, t).value))
  }

  /** Slots filled from a list of fields build the record those fields describe. */
  lemma BuildFrom(r: Slots, fs: seq<TagValue>)
    requires forall t :: t in r <==> ValueOf(fs, t).Some?
    requires forall t :: t in r ==> Ok(r[t]) == Interpret(t, ValueOf(fs, t).value)
    ensures Build(r) == MetaOf(fs)
  {
    assert Filled(r, fs);
    TypedFrom(r, fs);
  }

  /** What `Filled` says about one tag. */
  lemma SlotFrom(r: Slots, fs: seq<TagValue>, t: Tag)
    requires Filled(r, fs)
    ensures t in r <==> ValueOf(fs, t).Some?
    ensures t in r ==> Ok(r[t]) == Interpret(t, ValueOf(fs, t).value)
  {
  }

  lemma VersionFrom(r: Slots, fs: seq<TagValue>)
    requires VN in r <==> ValueOf(fs, VN).Some?
    requires VN in r ==> Ok(r[VN]) == Interpret(VN, ValueOf(fs, VN).value)
    ensures VersionIn(r, VN) == Decoded(ValueOf(fs, VN), VersionValue)
  {
  }

  lemma SortOrderFrom(r: Slots, fs: seq<TagValue>)
    requires SO in r <==> ValueOf(fs, SO).Some?
    requires SO in r ==> Ok(r[SO]) == Interpret(SO, ValueOf(fs, SO).value)
    ensures SortOrderIn(r, SO) == Decoded(ValueOf(fs, SO), SortOrderValue)
  {
  }

  lemma GroupingFrom(r: Slots, fs: seq<TagValue>)
    requires GO in r <==> ValueOf(fs, GO).Some?
    requires GO in r ==> Ok(r[GO]) == Interpret(GO, ValueOf(fs, GO).value)
    ensures GroupingIn(r, GO) == Decoded(ValueOf(fs, GO), GroupingValue)
  {
  }

  lemma SubsortingFrom(r: Slots, fs: seq<TagValue>)
    requires SS in r <==> ValueOf(fs, SS).Some?
    requires SS in r ==> Ok(r[SS]) == Interpret(SS, ValueOf(fs, SS).value)
    ensures TextIn(r, SS) == Decoded(ValueOf(fs, SS), StrValue)
  {
  }

  lemma TypedFrom(r: Slots, fs: seq<TagValue>)
    requires Filled(r, fs)
    ensures VersionIn(r, VN) == Decoded(ValueOf(fs, VN), VersionValue)
    ensures SortOrderIn(r, SO) == Decoded(ValueOf(fs, SO), SortOrderValue)
    ensures GroupingIn(r, GO) == Decoded(ValueOf(fs, GO), GroupingValue)
    ensures TextIn(r, SS) == Decoded(ValueOf(fs, SS), StrValue)
  {
    SlotFrom(r, fs, VN);
    VersionFrom(r, fs);
    SlotFrom(r, fs, SO);
    SortOrderFrom(r, fs);
    SlotFrom(r, fs, GO);
    GroupingFrom(r, fs);
    SlotFrom(r, fs, SS);
    SubsortingFrom(r, fs);
  }

  /** An accepted `@HD` line is read as the fields on it say: the version and
      the optional attributes come from the fields carrying their tags, the
      attributes whose tag is absent are `None`, and a line without `VN`
      fails with `MissingVersion`. */
  lemma MetaLine(fs: seq<TagValue>)
    requires TabFree(fs) && Accepted(GRAMMAR, fs, {})
    ensures ParseMeta(Line(fs)).ToResult() == MetaOf(fs)
  {
    LineValues(GRAMMAR, fs);
    var r := Loop(GRAMMAR, Line(fs), map[]).value;
    BuildFrom(r, fs);
  }
}
