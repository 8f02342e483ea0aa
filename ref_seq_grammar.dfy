/** The `@SQ` record (src/header/parser/ref_seq.rs) as functions: its tag
    table, the value parsers for `LN`, `AN` and `TP` (every other tag is
    UTF-8 text), and the record built from the filled slots. */
module RefSeqGrammar {
  import opened Bytes
  import opened Errors
  import opened Numbers
  import opened Utf8
  import opened HeaderTypes
  import opened Tokens
  import opened Fields

  const SN: Tag := Tag('S' as int, 'N' as int)
  const LN: Tag := Tag('L' as int, 'N' as int)
  const AH: Tag := Tag('A' as int, 'H' as int)
  const AN: Tag := Tag('A' as int, 'N' as int)
  const AS: Tag := Tag('A' as int, 'S' as int)
  const DS: Tag := Tag('D' as int, 'S' as int)
  const M5: Tag := Tag('M' as int, '5' as int)
  const SP: Tag := Tag('S' as int, 'P' as int)
  const TP: Tag := Tag('T' as int, 'P' as int)
  const UR: Tag := Tag('U' as int, 'R' as int)

  /** `parse_len` once the value is read: UTF-8 text that `u64::from_str` accepts. */
  function LenValue(raw: Bytes): (r: Result<u64>)
    ensures r.Ok? <==> ParseUnsigned(raw, U64_MAX).Some?
    ensures r.Ok? ==> Some(r.value as nat) == ParseUnsigned(raw, U64_MAX)
    ensures r.Err? ==> r.error == (if ValidUtf8(raw) then UnknownValue else InvalidUTF8)
  {
    if !ValidUtf8(raw) then
      assert ParseUnsigned(raw, U64_MAX).None? by {
        if ParseUnsigned(raw, U64_MAX).Some? {
          UnsignedAscii(raw, U64_MAX);
          AsciiIsUtf8(raw);
        }
      }
      Err(InvalidUTF8)
    else
      match ParseUnsigned(raw, U64_MAX)
      case None => Err(UnknownValue)
      case Some(n) => Ok(n)
  }

  /** `parse_alt_names` once the value is read: UTF-8 text cut at every `,`. */
  function AltNamesValue(raw: Bytes): (r: Result<seq<Bytes>>)
    ensures r.Ok? <==> ValidUtf8(raw)
    ensures r.Err? ==> r.error == InvalidUTF8
  {
    var text :- StrValue(raw);
    Ok(Split(text, COMMA))
  }

  const LINEAR_TEXT: Bytes := ['l' as int, 'i' as int, 'n' as int, 'e' as int, 'a' as int, 'r' as int]
  const CIRCULAR_TEXT: Bytes := ['c' as int, 'i' as int, 'r' as int, 'c' as int, 'u' as int, 'l' as int, 'a' as int, 'r' as int]

  /** The spelling `TP` uses for each topology. */
  function TopologyText(t: Topology): Bytes {
    match t
    case Linear => LINEAR_TEXT
    case Circular => CIRCULAR_TEXT
  }

  /** `parse_topology` once the value is read: one of two exact spellings. */
  function TopologyValue(raw: Bytes): (r: Result<Topology>)
    ensures r.Ok? ==> TopologyText(r.value) == raw
    ensures r.Err? ==> r.error == UnknownValue
  {
    if raw == LINEAR_TEXT then Ok(Linear)
    else if raw == CIRCULAR_TEXT then Ok(Circular)
    else Err(UnknownValue)
  }

  predicate Known(t: Tag) {
    t == SN || t == LN || t == AH || t == AN || t == AS || t == DS || t == M5 || t == SP || t == TP || t == UR
  }

  /** The value parser behind each tag of the `match` in `parse_ref_seq`. */
  function Interpret(t: Tag, raw: Bytes): Result<Slot> {
    if t == LN then
      var n :- LenValue(raw);
      Ok(LengthSlot(n))
    else if t == AN then
      var names :- AltNamesValue(raw);
      Ok(NamesSlot(names))
    else if t == TP then
      var topology :- TopologyValue(raw);
      Ok(TopologySlot(topology))
    else
      var text :- StrValue(raw);
      Ok(TextSlot(text))
  }

  const GRAMMAR: Grammar := Grammar(Known, Interpret)

  /** The record once the loop is done; the name is checked before the length. */
  function Build(slots: Slots): (r: Result<ReferenceSeq>)
    ensures r.Ok? <==> TextIn(slots, SN).Some? && LengthIn(slots, LN).Some?
    ensures TextIn(slots, SN).None? ==> r == Err(MissingRefSeqName)
    ensures TextIn(slots, SN).Some? && LengthIn(slots, LN).None? ==> r == Err(MissingRefSeqLen)
  {
    match TextIn(slots, SN)
    case None => Err(MissingRefSeqName)
    case Some(name) =>
      match LengthIn(slots, LN)
      case None => Err(MissingRefSeqLen)
      case Some(length) =>
        Ok(ReferenceSeq(name, length, TextIn(slots, AH), NamesIn(slots, AN), TextIn(slots, AS),
          TextIn(slots, DS), TextIn(slots, M5), TextIn(slots, SP), TopologyIn(slots, TP), TextIn(slots, UR)))
  }

  /** `parse_ref_seq`: the fields of an `@SQ` line after its record code. */
  function ParseRefSeq(s: Bytes): (p: Parsed<ReferenceSeq>)
    ensures p.Done? ==> p.rest == []
  {
    var slots :- Loop(GRAMMAR, s, map[]);
    Located(Build(slots.value), slots.rest)
  }

  /** The record an accepted list of fields describes, read field by field. */
  function RefSeqOf(fs: seq<TagValue>): Result<ReferenceSeq> {
    match Decoded(ValueOf(fs, SN), StrValue)
    case None => Err(MissingRefSeqName)
    case Some(name) =>
      match Decoded(ValueOf(fs, LN), LenValue)
      case None => Err(MissingRefSeqLen)
      case Some(length) =>
        Ok(ReferenceSeq(name, length,
          Decoded(ValueOf(fs, AH), StrValue),
          Decoded(ValueOf(fs, AN), AltNamesValue),
          Decoded(ValueOf(fs, AS), StrValue),
          Decoded(ValueOf(fs, DS), StrValue),
          Decoded(ValueOf(fs, M5), StrValue),
          Decoded(ValueOf(fs, SP), StrValue),
          Decoded(ValueOf(fs, TP), TopologyValue),
          Decoded(ValueOf(fs, UR), StrValue)))
  }

  /** Every length that fits in a `u64` reads back from its decimal text. */
  lemma LenRoundTrip(n: nat)
    ensures LenValue(Decimal(n)) == if n <= U64_MAX then Ok(n) else Err(UnknownValue)
  {
    UnsignedRoundTrip(n, U64_MAX);
    DecimalAscii(n);
    AsciiIsUtf8(Decimal(n));
  }

  /** A negative length is refused. */
  lemma LenNotNegative(raw: Bytes)
    requires |raw| > 0 && raw[0] == MINUS && ValidUtf8(raw)
    ensures LenValue(raw) == Err(UnknownValue)
  {
    UnsignedRejectsOther(raw, U64_MAX, 0);
  }

  /** `AN` holds one name more than it has commas, and the names joined with
      commas give back the value. */
  lemma AltNamesSplit(raw: Bytes)
    requires ValidUtf8(raw)
    ensures |AltNamesValue(raw).value| == Count(raw, COMMA) + 1
    ensures Join(AltNamesValue(raw).value, COMMA) == raw
  {
    SplitCount(raw, COMMA);
    JoinSplit(raw, COMMA);
  }

  lemma TopologyRoundTrip(t: Topology)
    ensures TopologyValue(TopologyText(t)) == Ok(t)
  {
  }

  /** The slots hold what the fields give, tag by tag. */
  ghost predicate Filled(r: Slots, fs: seq<TagValue>) {
    forall t :: (t in r <==> ValueOf(fs, t).Some?) && (t in r ==> Ok(r[t]) == Interpret(t, ValueOf(fs, t).value))
  }

  /** Slots filled from a list of fields build the record those fields describe. */
  lemma BuildFrom(r: Slots, fs: seq<TagValue>)
    requires forall t :: t in r <==> ValueOf(fs, t).Some?
    requires forall t :: t in r ==> Ok(r[t]) == Interpret(t, ValueOf(fs, t).value)
    ensures Build(r) == RefSeqOf(fs)
  {
    assert Filled(r, fs);
    TextFrom(r, fs, SN);
    TextFrom(r, fs, AH);
    TextFrom(r, fs, AS);
    TextFrom(r, fs, DS);
    TextFrom(r, fs, M5);
    TextFrom(r, fs, SP);
    TextFrom(r, fs, UR);
    TypedFrom(r, fs);
  }

  lemma TextFrom(r: Slots, fs: seq<TagValue>, t: Tag)
    requires t != LN && t != AN && t != TP
    requires Filled(r, fs)
    ensures TextIn(r, t) == Decoded(ValueOf(fs, t), StrValue)
  {
    assert (t in r <==> ValueOf(fs, t).Some?) && (t in r ==> Ok(r[t]) == Interpret(t, ValueOf(fs, t).value));
  }

  lemma TypedFrom(r: Slots, fs: seq<TagValue>)
    requires Filled(r, fs)
    ensures LengthIn(r, LN) == Decoded(ValueOf(fs, LN), LenValue)
    ensures NamesIn(r, AN) == Decoded(ValueOf(fs, AN), AltNamesValue)
    ensures TopologyIn(r, TP) == Decoded(ValueOf(fs, TP), TopologyValue)
  {
    assert (LN in r <==> ValueOf(fs, LN).Some?) && (LN in r ==> Ok(r[LN]) == Interpret(LN, ValueOf(fs, LN).value));
    assert (AN in r <==> ValueOf(fs, AN).Some?) && (AN in r ==> Ok(r[AN]) == Interpret(AN, ValueOf(fs, AN).value));
    assert (TP in r <==> ValueOf(fs, TP).Some?) && (TP in r ==> Ok(r[TP]) == Interpret(TP, ValueOf(fs, TP).value));
  }

  /** An accepted `@SQ` line is read as the fields on it say: each attribute
      comes from the field carrying its tag, an absent optional tag is
      `None`, and a missing `SN` (checked first) or `LN` is an error. */
  lemma RefSeqLine(fs: seq<TagValue>)
    requires TabFree(fs) && Accepted(GRAMMAR, fs, {})
    ensures ParseRefSeq(Line(fs)).ToResult() == RefSeqOf(fs)
  {
    LineValues(GRAMMAR, fs);
    var r := Loop(GRAMMAR, Line(fs), map[]).value;
    BuildFrom(r, fs);
  }
}
