/** The `@RG` record (src/header/parser/read_group.rs) as functions: its tag
    table, the value parsers for `PI` and `PL` (every other tag is UTF-8
    text), and the record built from the filled slots. */
module ReadGroupGrammar {
  import opened Bytes
  import opened Errors
  import opened Numbers
  import opened Utf8
  import opened HeaderTypes
  import opened Tokens
  import opened Fields

  const ID: Tag := Tag('I' as int, 'D' as int)
  const BC: Tag := Tag('B' as int, 'C' as int)
  const CN: Tag := Tag('C' as int, 'N' as int)
  const DS: Tag := Tag('D' as int, 'S' as int)
  const DT: Tag := Tag('D' as int, 'T' as int)
  const FO: Tag := Tag('F' as int, 'O' as int)
  const KS: Tag := Tag('K' as int, 'S' as int)
  const LB: Tag := Tag('L' as int, 'B' as int)
  const PG: Tag := Tag('P' as int, 'G' as int)
  const PI: Tag := Tag('P' as int, 'I' as int)
  const PL: Tag := Tag('P' as int, 'L' as int)
  const PM: Tag := Tag('P' as int, 'M' as int)
  const PU: Tag := Tag('P' as int, 'U' as int)
  const SM: Tag := Tag('S' as int, 'M' as int)

  /** The `PI` arm once the value is read: UTF-8 text that `u32::from_str` accepts. */
  function InsertSizeValue(raw: Bytes): (r: Result<u32>)
    ensures r.Ok? <==> ParseUnsigned(raw, U32_MAX).Some?
    ensures r.Ok? ==> Some(r.value as nat) == ParseUnsigned(raw, U32_MAX)
    ensures r.Err? ==> r.error == (if ValidUtf8(raw) then UnknownValue else InvalidUTF8)
  {
    if !ValidUtf8(raw) then
      assert ParseUnsigned(raw, U32_MAX).None? by {
        if ParseUnsigned(raw, U32_MAX).Some? {
          UnsignedAscii(raw, U32_MAX);
          AsciiIsUtf8(raw);
        }
      }
      Err(InvalidUTF8)
    else
      match ParseUnsigned(raw, U32_MAX)
      case None => Err(UnknownValue)
      case Some(n) => Ok(n)
  }

  const CAPILLARY_TEXT: Bytes := ['C' as int, 'A' as int, 'P' as int, 'I' as int, 'L' as int, 'L' as int, 'A' as int, 'R' as int, 'Y' as int]
  const DNBSEQ_TEXT: Bytes := ['D' as int, 'N' as int, 'B' as int, 'S' as int, 'E' as int, 'Q' as int]
  const ELEMENT_TEXT: Bytes := ['E' as int, 'L' as int, 'E' as int, 'M' as int, 'E' as int, 'N' as int, 'T' as int]
  const HELICOS_TEXT: Bytes := ['H' as int, 'E' as int, 'L' as int, 'I' as int, 'C' as int, 'O' as int, 'S' as int]
  const ILLUMINA_TEXT: Bytes := ['I' as int, 'L' as int, 'L' as int, 'U' as int, 'M' as int, 'I' as int, 'N' as int, 'A' as int]
  const IONTORRENT_TEXT: Bytes := ['I' as int, 'O' as int, 'N' as int, 'T' as int, 'O' as int, 'R' as int, 'R' as int, 'E' as int, 'N' as int, 'T' as int]
  const LS454_TEXT: Bytes := ['L' as int, 'S' as int, '4' as int, '5' as int, '4' as int]
  const ONT_TEXT: Bytes := ['O' as int, 'N' as int, 'T' as int]
  const PACBIO_TEXT: Bytes := ['P' as int, 'A' as int, 'C' as int, 'B' as int, 'I' as int, 'O' as int]
  const SINGULAR_TEXT: Bytes := ['S' as int, 'I' as int, 'N' as int, 'G' as int, 'U' as int, 'L' as int, 'A' as int, 'R' as int]
  const SOLID_TEXT: Bytes := ['S' as int, 'O' as int, 'L' as int, 'I' as int, 'D' as int]
  const ULTIMA_TEXT: Bytes := ['U' as int, 'L' as int, 'T' as int, 'I' as int, 'M' as int, 'A' as int]

  /** The spelling `PL` uses for each platform (`IONTORRENT` names `Iontorent`). */
  function PlatformText(p: Platform): Bytes {
    match p
    case Capillary => CAPILLARY_TEXT
    case Dnbseq => DNBSEQ_TEXT
    case Element => ELEMENT_TEXT
    case Helicos => HELICOS_TEXT
    case Illumina => ILLUMINA_TEXT
    case Iontorent => IONTORRENT_TEXT
    case LS454 => LS454_TEXT
    case Ont => ONT_TEXT
    case Pacbio => PACBIO_TEXT
    case Singular => SINGULAR_TEXT
    case Solid => SOLID_TEXT
    case Ultima => ULTIMA_TEXT
  }

  /** `parse_plaform` once the value is read: one of twelve exact,
      upper-case spellings. */
  function PlatformValue(raw: Bytes): (r: Result<Platform>)
    ensures r.Ok? ==> PlatformText(r.value) == raw
    ensures r.Err? ==> r.error == UnknownValue
  {
    if raw == CAPILLARY_TEXT then Ok(Capillary)
    else if raw == DNBSEQ_TEXT then Ok(Dnbseq)
    else if raw == ELEMENT_TEXT then Ok(Element)
    else if raw == HELICOS_TEXT then Ok(Helicos)
    else if raw == ILLUMINA_TEXT then Ok(Illumina)
    else if raw == IONTORRENT_TEXT then Ok(Iontorent)
    else if raw == LS454_TEXT then Ok(LS454)
    else if raw == ONT_TEXT then Ok(Ont)
    else if raw == PACBIO_TEXT then Ok(Pacbio)
    else if raw == SINGULAR_TEXT then Ok(Singular)
    else if raw == SOLID_TEXT then Ok(Solid)
    else if raw == ULTIMA_TEXT then Ok(Ultima)
    else Err(UnknownValue)
  }

  predicate Known(t: Tag) {
    || t == ID || t == BC || t == CN || t == DS || t == DT || t == FO || t == KS
    || t == LB || t == PG || t == PI || t == PL || t == PM || t == PU || t == SM
  }

  /** The value parser behind each tag of the `match` in `parse_read_group`. */
  function Interpret(t: Tag, raw: Bytes): Result<Slot> {
    if t == PI then
      var n :- InsertSizeValue(raw);
      Ok(InsertSizeSlot(n))
    else if t == PL then
      var platform :- PlatformValue(raw);
      Ok(PlatformSlot(platform))
    else
      var text :- StrValue(raw);
      Ok(TextSlot(text))
  }

  const GRAMMAR: Grammar := Grammar(Known, Interpret)

  /** The record once the loop is done; the id is mandatory. */
  function Build(slots: Slots): (r: Result<ReadGroup>)
    ensures r.Ok? <==> TextIn(slots, ID).Some?
    ensures r.Err? ==> r.error == MissingRadGroupId
  {
    match TextIn(slots, ID)
    case None => Err(MissingRadGroupId)
    case Some(id) =>
      Ok(ReadGroup(id, TextIn(slots, BC), TextIn(slots, CN), TextIn(slots, DS), TextIn(slots, DT),
        TextIn(slots, FO), TextIn(slots, KS), TextIn(slots, LB), TextIn(slots, PG),
        InsertSizeIn(slots, PI), PlatformIn(slots, PL), TextIn(slots, PM), TextIn(slots, PU),
        TextIn(slots, SM)))
  }

  /** `parse_read_group`: the fields of an `@RG` line after its record code. */
  function ParseReadGroup(s: Bytes): (p: Parsed<ReadGroup>)
    ensures p.Done? ==> p.rest == []
  {
    var slots :- Loop(GRAMMAR, s, map[]);
    Located(Build(slots.value), slots.rest)
  }

  /** The record an accepted list of fields describes, read field by field. */
  function ReadGroupOf(fs: seq<TagValue>): Result<ReadGroup> {
    match Decoded(ValueOf(fs, ID), StrValue)
    case None => Err(MissingRadGroupId)
    case Some(id) =>
      Ok(ReadGroup(id,
        Decoded(ValueOf(fs, BC), StrValue),
        Decoded(ValueOf(fs, CN), StrValue),
        Decoded(ValueOf(fs, DS), StrValue),
        Decoded(ValueOf(fs, DT), StrValue),
        Decoded(ValueOf(fs, FO), StrValue),
        Decoded(ValueOf(fs, KS), StrValue),
        Decoded(ValueOf(fs, LB), StrValue),
        Decoded(ValueOf(fs, PG), StrValue),
        Decoded(ValueOf(fs, PI), InsertSizeValue),
        Decoded(ValueOf(fs, PL), PlatformValue),
        Decoded(ValueOf(fs, PM), StrValue),
        Decoded(ValueOf(fs, PU), StrValue),
        Decoded(ValueOf(fs, SM), StrValue)))
  }

  /** Every platform's spelling reads back as that platform. */
  lemma PlatformRoundTrip(p: Platform)
    ensures PlatformValue(PlatformText(p)) == Ok(p)
  {
  }

  /** An illustration of `PlatformValue`'s contract: platform names are
      case-sensitive, so the lower-case spelling is refused. */
  lemma PlatformCaseSensitive()
    ensures PlatformValue(['i' as int, 'l' as int, 'l' as int, 'u' as int, 'm' as int, 'i' as int, 'n' as int, 'a' as int]) == Err(UnknownValue)
  {
  }

  /** Every insert size that fits in a `u32` reads back from its decimal text. */
  lemma InsertSizeRoundTrip(n: nat)
    ensures InsertSizeValue(Decimal(n)) == if n <= U32_MAX then Ok(n) else Err(UnknownValue)
  {
    UnsignedRoundTrip(n, U32_MAX);
    DecimalAscii(n);
    AsciiIsUtf8(Decimal(n));
  }

  /** The slots hold what the fields give, tag by tag. */
  ghost predicate Filled(r: Slots, fs: seq<TagValue>) {
    forall t :: (t in r <==> ValueOf(fs, t).Some?) && (t in r ==> Ok(r[t]) == Interpret(t, ValueOf(fs, t).value))
  }

  lemma TextFrom(r: Slots, fs: seq<TagValue>, t: Tag)
    requires t != PI && t != PL
    requires Filled(r, fs)
    ensures TextIn(r, t) == Decoded(ValueOf(fs, t), StrValue)
  {
    assert (t in r <==> ValueOf(fs, t).Some?) && (t in r ==> Ok(r[t]) == Interpret(t, ValueOf(fs, t).value));
  }

  /** Slots filled from a list of fields build the record those fields describe. */
  lemma BuildFrom(r: Slots, fs: seq<TagValue>)
    requires forall t :: t in r <==> ValueOf(fs, t).Some?
    requires forall t :: t in r ==> Ok(r[t]) == Interpret(t, ValueOf(fs, t).value)
    ensures Build(r) == ReadGroupOf(fs)
  {
    assert Filled(r, fs);
    TextFrom(r, fs, ID);
    TextFrom(r, fs, BC);
    TextFrom(r, fs, CN);
    TextFrom(r, fs, DS);
    TextFrom(r, fs, DT);
    TextFrom(r, fs, FO);
    TextFrom(r, fs, KS);
    TextFrom(r, fs, LB);
    TextFrom(r, fs, PG);
    TextFrom(r, fs, PM);
    TextFrom(r, fs, PU);
    TextFrom(r, fs, SM);
    TypedFrom(r, fs);
  }

  lemma TypedFrom(r: Slots, fs: seq<TagValue>)
    requires Filled(r, fs)
    ensures InsertSizeIn(r, PI) == Decoded(ValueOf(fs, PI), InsertSizeValue)
    ensures PlatformIn(r, PL) == Decoded(ValueOf(fs, PL), PlatformValue)
  {
    assert (PI in r <==> ValueOf(fs, PI).Some?) && (PI in r ==> Ok(r[PI]) == Interpret(PI, ValueOf(fs, PI).value));
    assert (PL in r <==> ValueOf(fs, PL).Some?) && (PL in r ==> Ok(r[PL]) == Interpret(PL, ValueOf(fs, PL).value));
  }

  /** An accepted `@RG` line is read as the fields on it say: each attribute
      comes from the field carrying its tag, an absent optional tag is
      `None`, and a missing `ID` is an error. */
  lemma ReadGroupLine(fs: seq<TagValue>)
    requires TabFree(fs) && Accepted(GRAMMAR, fs, {})
    ensures ParseReadGroup(Line(fs)).ToResult() == ReadGroupOf(fs)
  {
    LineValues(GRAMMAR, fs);
    var r := Loop(GRAMMAR, Line(fs), map[]).value;
    BuildFrom(r, fs);
  }
}
