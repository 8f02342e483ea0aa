/** The alignment line parser (src/alignment/parser.rs) as functions: eleven
    positional tab-separated fields read in order, each type-checked, then
    any further fields checked for UTF-8 and dropped. */
module AlignmentGrammar {
  import opened Bytes
  import opened Errors
  import opened Numbers
  import opened Utf8
  import opened Tokens
  import opened Alignments

  /** The number of mandatory fields. */
  const MANDATORY: nat := 11

  /** `next_field`: the field at position `k` as text, or
      `MissingAlignmentField` past the last one. */
  function NextField(fields: seq<Bytes>, k: nat): Result<Bytes> {
    if k < |fields| then StrValue(fields[k]) else Err(MissingAlignmentField)
  }

  /** `str::parse` into an unsigned type whose largest value is `max`. */
  function UnsignedField(text: Bytes, max: nat): (r: Result<nat>)
    ensures r.Ok? ==> r.value <= max
  {
    match ParseUnsigned(text, max)
    case None => Err(UnknownValue)
    case Some(n) => Ok(n)
  }

  /** `str::parse::<i32>`. */
  function SignedField(text: Bytes): (r: Result<int>)
    ensures r.Ok? ==> I32_MIN <= r.value <= I32_MAX
  {
    match ParseSigned(text, I32_MIN, I32_MAX)
    case None => Err(UnknownValue)
    case Some(n) => Ok(n)
  }

  /** The fields after the eleventh, collected through `parse_str`. */
  function OtherFields(fields: seq<Bytes>): Result<()>
    decreases |fields|
  {
    if fields == [] then Ok(())
    else
      var _ :- StrValue(fields[0]);
      OtherFields(fields[1..])
  }

  /** `parse_alignment`: the first error in field order, or the record. */
  function ParseAlignment(line: Bytes): Result<Alignment> {
    ParseFields(Split(line, TAB))
  }

  /** The body of `parse_alignment` once the line is cut at its tabs: QNAME
      to MAPQ, then `ParseRest`. */
  function ParseFields(fields: seq<Bytes>): Result<Alignment> {
    var queryName :- NextField(fields, 0);
    var flagText :- NextField(fields, 1);
    var flag :- UnsignedField(flagText, U16_MAX);
    var refSeqName :- NextField(fields, 2);
    var posText :- NextField(fields, 3);
    var pos :- UnsignedField(posText, U32_MAX);
    var mapQualityText :- NextField(fields, 4);
    var mapQuality :- UnsignedField(mapQualityText, U8_MAX);
    ParseRest(fields, queryName, Flag(flag as bv16), refSeqName, pos, mapQuality)
  }

  /** The rest of `parse_alignment` once MAPQ is read: CIGAR to QUAL, the
      further fields, then the record. */
  function ParseRest(fields: seq<Bytes>, queryName: Bytes, flag: Flag, refSeqName: Bytes, pos: u32, mapQuality: u8)
    : Result<Alignment>
  {
    var cigar :- NextField(fields, 5);
    var rnext :- NextField(fields, 6);
    var pnextText :- NextField(fields, 7);
    var pnext :- UnsignedField(pnextText, U32_MAX);
    var templateLenText :- NextField(fields, 8);
    var templateLen :- SignedField(templateLenText);
    var sequence :- NextField(fields, 9);
    var phredQuality :- NextField(fields, 10);
    var _ :- OtherFields(fields[MANDATORY..]);
    Ok(Alignment(queryName, flag, refSeqName, pos, mapQuality, cigar, rnext,
      pnext, templateLen, sequence, phredQuality))
  }

  /** `map(read).collect()` into a `Result`: every line read in order, the
      first error stopping the collection. */
  function Collect<T>(read: Bytes -> Result<T>, lines: seq<Bytes>): Result<seq<T>>
    decreases |lines|
  {
    if lines == [] then Ok([])
    else
      var init :- Collect(read, lines[..|lines| - 1]);
      var last :- read(lines[|lines| - 1]);
      Ok(init + [last])
  }

  /** `parse`: one record per line. */
  function ParseAll(lines: seq<Bytes>): Result<seq<Alignment>> {
    Collect(ParseAlignment, lines)
  }

  // ---- The fields one at a time ----

  /** Field `k` (one of the eleven) would be accepted at its position: text,
      and a number of the right range where a number is expected. */
  predicate Typed(k: nat, raw: Bytes) {
    && ValidUtf8(raw)
    && (k == 1 ==> ParseUnsigned(raw, U16_MAX).Some?)
    && (k == 3 || k == 7 ==> ParseUnsigned(raw, U32_MAX).Some?)
    && (k == 4 ==> ParseUnsigned(raw, U8_MAX).Some?)
    && (k == 8 ==> ParseSigned(raw, I32_MIN, I32_MAX).Some?)
  }

  /** The error a field that is not `Typed` is refused with. */
  function Refusal(raw: Bytes): ParseError {
    if ValidUtf8(raw) then UnknownValue else InvalidUTF8
  }

  /** The text of a well-typed alignment's eleven fields. */
  function FieldsOf(a: Alignment): (fs: seq<Bytes>)
    ensures |fs| == MANDATORY
  {
    [a.queryName, Decimal(a.flag.bits as nat), a.refSeqName, Decimal(a.pos), Decimal(a.mapQuality),
     a.cigar, a.rnext, Decimal(a.pnext), SignedDecimal(a.templateLen), a.sequence, a.phredQuality]
  }

  /** A line of text fields joined by tabs. */
  function Format(fields: seq<Bytes>): Bytes {
    Join(fields, TAB)
  }

  predicate IsText(t: Bytes) {
    TAB !in t && ValidUtf8(t)
  }

  /** Every text field of `a` can be written on a line: tab-free UTF-8. */
  predicate WellFormed(a: Alignment) {
    && IsText(a.queryName) && IsText(a.refSeqName) && IsText(a.cigar)
    && IsText(a.rnext) && IsText(a.sequence) && IsText(a.phredQuality)
  }

  /** The extra fields are accepted exactly when all of them are text. */
  lemma {:induction false} OtherFieldsText(fields: seq<Bytes>)
    ensures OtherFields(fields).Ok? <==> forall k :: 0 <= k < |fields| ==> ValidUtf8(fields[k])
    ensures OtherFields(fields).Err? ==> OtherFields(fields).error == InvalidUTF8
    decreases |fields|
  {
    if fields != [] {
      OtherFieldsText(fields[1..]);
      assert forall k :: 1 <= k < |fields| ==> fields[k] == fields[1..][k - 1];
    }
  }

  /** The conditions under which a line's fields are accepted: at least
      eleven of them, each of the eleven well typed, every further one text. */
  predicate Acceptable(fs: seq<Bytes>) {
    && |fs| >= MANDATORY
    && (forall k :: 0 <= k < MANDATORY ==> Typed(k, fs[k]))
    && (forall k :: MANDATORY <= k < |fs| ==> ValidUtf8(fs[k]))
  }

  /** The record acceptable fields denote: each text field byte for byte,
      each number by its value. */
  function AlignmentOf(fs: seq<Bytes>): Alignment
    requires Acceptable(fs)
  {
    assert Typed(1, fs[1]) && Typed(3, fs[3]) && Typed(4, fs[4]) && Typed(7, fs[7]) && Typed(8, fs[8]);
    Alignment(fs[0], Flag(ParseUnsigned(fs[1], U16_MAX).value as bv16), fs[2],
      ParseUnsigned(fs[3], U32_MAX).value, ParseUnsigned(fs[4], U8_MAX).value, fs[5], fs[6],
      ParseUnsigned(fs[7], U32_MAX).value, ParseSigned(fs[8], I32_MIN, I32_MAX).value, fs[9], fs[10])
  }

  /** Acceptable fields are read as the record they denote. */
  lemma AcceptedIf(fs: seq<Bytes>)
    requires Acceptable(fs)
    ensures ParseFields(fs) == Ok(AlignmentOf(fs))
  {
    assert Typed(0, fs[0]) && Typed(1, fs[1]) && Typed(2, fs[2]) && Typed(3, fs[3]) && Typed(4, fs[4]);
    RestAccepted(fs);
  }

  lemma RestAccepted(fs: seq<Bytes>)
    requires Acceptable(fs)
    ensures var a := AlignmentOf(fs);
      ParseRest(fs, a.queryName, a.flag, a.refSeqName, a.pos, a.mapQuality) == Ok(a)
  {
    assert OtherFields(fs[MANDATORY..]).Ok? by {
      OtherFieldsText(fs[MANDATORY..]);
      assert forall k :: MANDATORY <= k < |fs| ==> fs[k] == fs[MANDATORY..][k - MANDATORY];
    }
    assert Typed(5, fs[5]) && Typed(6, fs[6]) && Typed(7, fs[7]);
    assert Typed(8, fs[8]) && Typed(9, fs[9]) && Typed(10, fs[10]);
  }

  /** Only acceptable fields are accepted. */
  lemma AcceptedOnlyIf(fs: seq<Bytes>)
    requires ParseFields(fs).Ok?
    ensures Acceptable(fs)
  {
    MandatoryTyped(fs);
    OtherFieldsText(fs[MANDATORY..]);
    assert forall k :: MANDATORY <= k < |fs| ==> fs[k] == fs[MANDATORY..][k - MANDATORY];
  }

  lemma MandatoryTyped(fs: seq<Bytes>)
    requires ParseFields(fs).Ok?
    ensures |fs| >= MANDATORY && OtherFields(fs[MANDATORY..]).Ok?
    ensures forall k :: 0 <= k < MANDATORY ==> Typed(k, fs[k])
  {
    assert Typed(0, fs[0]) && Typed(1, fs[1]) && Typed(2, fs[2]) && Typed(3, fs[3]);
    assert Typed(4, fs[4]) && Typed(5, fs[5]) && Typed(6, fs[6]) && Typed(7, fs[7]);
    assert Typed(8, fs[8]) && Typed(9, fs[9]) && Typed(10, fs[10]);
    forall k | 0 <= k < MANDATORY
      ensures Typed(k, fs[k])
    {
      if k < 6 {
        match k
        case 0 => case 1 => case 2 => case 3 => case 4 => case 5 =>
      } else {
        match k
        case 6 => case 7 => case 8 => case 9 => case 10 =>
      }
    }
  }

  /** Fields are checked in order: when the first `k` fields are well typed
      and field `k` is missing or refused, that decides the error, whatever
      follows it. */
  lemma FirstBadField(fs: seq<Bytes>, k: nat)
    requires k < MANDATORY
    requires k <= |fs| && forall j :: 0 <= j < k ==> Typed(j, fs[j])
    requires k < |fs| ==> !Typed(k, fs[k])
    ensures ParseFields(fs) == Err(if k < |fs| then Refusal(fs[k]) else MissingAlignmentField)
  {
    if k < 6 {
      FirstBadLeading(fs, k);
    } else {
      FirstBadTrailing(fs, k);
    }
  }

  lemma FirstBadLeading(fs: seq<Bytes>, k: nat)
    requires k < 6
    requires k <= |fs| && forall j :: 0 <= j < k ==> Typed(j, fs[j])
    requires k < |fs| ==> !Typed(k, fs[k])
    ensures ParseFields(fs) == Err(if k < |fs| then Refusal(fs[k]) else MissingAlignmentField)
  {
    match k
    case 0 => case 1 => case 2 => case 3 => case 4 => case 5 =>
  }

  lemma FirstBadTrailing(fs: seq<Bytes>, k: nat)
    requires 6 <= k < MANDATORY
    requires k <= |fs| && forall j :: 0 <= j < k ==> Typed(j, fs[j])
    requires k < |fs| ==> !Typed(k, fs[k])
    ensures ParseFields(fs) == Err(if k < |fs| then Refusal(fs[k]) else MissingAlignmentField)
  {
    assert Typed(0, fs[0]) && Typed(1, fs[1]) && Typed(2, fs[2]) && Typed(3, fs[3]) && Typed(4, fs[4]) && Typed(5, fs[5]);
    match k
    case 6 => case 7 => case 8 => case 9 => case 10 =>
  }

  /** Eleven well-typed fields followed by a further one that is not text
      are refused with `InvalidUTF8`. */
  lemma ExtraRefused(fs: seq<Bytes>, k: nat)
    requires MANDATORY <= k < |fs| && !ValidUtf8(fs[k])
    requires forall j :: 0 <= j < MANDATORY ==> Typed(j, fs[j])
    ensures ParseFields(fs) == Err(InvalidUTF8)
  {
    OtherFieldsText(fs[MANDATORY..]);
    assert fs[MANDATORY..][k - MANDATORY] == fs[k];
    assert Typed(0, fs[0]) && Typed(1, fs[1]) && Typed(2, fs[2]) && Typed(3, fs[3]);
    assert Typed(4, fs[4]) && Typed(5, fs[5]) && Typed(6, fs[6]) && Typed(7, fs[7]);
    assert Typed(8, fs[8]) && Typed(9, fs[9]) && Typed(10, fs[10]);
  }

  /** An accepted line has at least ten tabs. */
  lemma AcceptedTabs(line: Bytes)
    requires ParseAlignment(line).Ok?
    ensures Count(line, TAB) >= MANDATORY - 1
  {
    MandatoryTyped(Split(line, TAB));
    SplitCount(line, TAB);
  }

  lemma DecimalText(n: nat)
    ensures IsText(Decimal(n)) && Decimal(n) != [] && AllDigits(Decimal(n))
  {
    DecimalDigits(n);
    DecimalAscii(n);
    AsciiIsUtf8(Decimal(n));
    assert forall i :: 0 <= i < |Decimal(n)| ==> Decimal(n)[i] != TAB by {
      forall i | 0 <= i < |Decimal(n)| ensures Decimal(n)[i] != TAB {
        assert IsDigit(Decimal(n)[i]);
      }
    }
  }

  lemma SignedDecimalText(x: int)
    ensures IsText(SignedDecimal(x))
  {
    if x < 0 {
      DecimalText(-x);
      DecimalAscii(-x);
      var s := SignedDecimal(x);
      assert forall i :: 1 <= i < |s| ==> s[i] == Decimal(-x)[i - 1];
      assert IsAscii(s);
      AsciiIsUtf8(s);
    } else {
      DecimalText(x);
    }
  }

  /** A number in range is written as text that reads back as it. */
  lemma NumberText(n: nat, max: nat)
    requires n <= max
    ensures IsText(Decimal(n)) && ParseUnsigned(Decimal(n), max) == Some(n)
  {
    DecimalText(n);
    UnsignedRoundTrip(n, max);
  }

  /** The eleven fields of a well-formed alignment are tab-free and well typed. */
  lemma FieldsTyped(a: Alignment)
    requires WellFormed(a)
    ensures var fs := FieldsOf(a);
      forall k :: 0 <= k < MANDATORY ==> TAB !in fs[k] && Typed(k, fs[k])
  {
    var fs := FieldsOf(a);
    NumberText(a.flag.bits as nat, U16_MAX);
    NumberText(a.pos, U32_MAX);
    NumberText(a.mapQuality, U8_MAX);
    NumberText(a.pnext, U32_MAX);
    SignedDecimalText(a.templateLen);
    SignedRoundTrip(a.templateLen, I32_MIN, I32_MAX);
    forall k | 0 <= k < MANDATORY
      ensures TAB !in fs[k] && Typed(k, fs[k])
    {
      if k < 6 {
        match k
        case 0 => case 1 => case 2 => case 3 => case 4 => case 5 =>
      } else {
        match k
        case 6 => case 7 => case 8 => case 9 => case 10 =>
      }
    }
  }

  /** The fields of a well-formed alignment denote that alignment. */
  lemma FieldsDenote(a: Alignment, fs: seq<Bytes>)
    requires WellFormed(a) && Acceptable(fs)
    requires forall k :: 0 <= k < MANDATORY ==> fs[k] == FieldsOf(a)[k]
    ensures AlignmentOf(fs) == a
  {
    UnsignedRoundTrip(a.flag.bits as nat, U16_MAX);
    UnsignedRoundTrip(a.pos, U32_MAX);
    UnsignedRoundTrip(a.mapQuality, U8_MAX);
    UnsignedRoundTrip(a.pnext, U32_MAX);
    SignedRoundTrip(a.templateLen, I32_MIN, I32_MAX);
    assert (a.flag.bits as nat) as bv16 == a.flag.bits;
  }

  /** A well-formed alignment's fields, with further fields after them, are
      read as the alignment when the further fields are text, and refused
      with `InvalidUTF8` when one is not. */
  lemma ReadBack(a: Alignment, extra: seq<Bytes>)
    requires WellFormed(a)
    ensures ParseFields(FieldsOf(a) + extra) ==
      if forall k :: 0 <= k < |extra| ==> ValidUtf8(extra[k]) then Ok(a) else Err(InvalidUTF8)
  {
    var fs := FieldsOf(a) + extra;
    FieldsTyped(a);
    assert forall k :: 0 <= k < MANDATORY ==> fs[k] == FieldsOf(a)[k];
    assert forall k :: 0 <= k < |extra| ==> fs[MANDATORY + k] == extra[k];
    if forall k :: 0 <= k < |extra| ==> ValidUtf8(extra[k]) {
      assert Acceptable(fs) by {
        forall k | MANDATORY <= k < |fs| ensures ValidUtf8(fs[k]) {
          assert fs[k] == extra[k - MANDATORY];
        }
      }
      AcceptedIf(fs);
      FieldsDenote(a, fs);
    } else {
      var k :| 0 <= k < |extra| && !ValidUtf8(extra[k]);
      ExtraRefused(fs, MANDATORY + k);
    }
  }

  /** Writing a well-formed alignment's fields on a line, with any further
      tab-free fields after them, and reading the line back gives the
      alignment when the further fields are text, and `InvalidUTF8` when one
      is not. */
  lemma RoundTrip(a: Alignment, extra: seq<Bytes>)
    requires WellFormed(a)
    requires forall k :: 0 <= k < |extra| ==> TAB !in extra[k]
    ensures ParseAlignment(Format(FieldsOf(a) + extra)) ==
      if forall k :: 0 <= k < |extra| ==> ValidUtf8(extra[k]) then Ok(a) else Err(InvalidUTF8)
  {
    var fs := FieldsOf(a) + extra;
    FieldsTyped(a);
    assert forall k :: 0 <= k < |fs| ==> TAB !in fs[k] by {
      forall k | 0 <= k < |fs| ensures TAB !in fs[k] {
        if k >= MANDATORY {
          assert fs[k] == extra[k - MANDATORY];
        } else {
          assert fs[k] == FieldsOf(a)[k];
        }
      }
    }
    SplitJoin(fs, TAB);
    ReadBack(a, extra);
  }

  /** Text fields may be empty: there is no `MissingValue` check on a line. */
  lemma EmptyTextFields(flag: Flag, pos: u32, mapQuality: u8, pnext: u32, templateLen: i32)
    ensures var a := Alignment([], flag, [], pos, mapQuality, [], [], pnext, templateLen, [], []);
      ParseAlignment(Format(FieldsOf(a))) == Ok(a)
  {
    var a := Alignment([], flag, [], pos, mapQuality, [], [], pnext, templateLen, [], []);
    RoundTrip(a, []);
    assert FieldsOf(a) + [] == FieldsOf(a);
  }

  // The text fields of the example alignment record of the SAM format
  // description.
  const R001: Bytes := ['r' as int, '0' as int, '0' as int, '1' as int]
  const CHR1: Bytes := ['c' as int, 'h' as int, 'r' as int, '1' as int]
  const CIGAR_8M2I4M1D3M: Bytes := ['8' as int, 'M' as int, '2' as int, 'I' as int, '4' as int, 'M' as int, '1' as int, 'D' as int, '3' as int, 'M' as int]
  const SAME: Bytes := ['=' as int]
  const SEQ_TTAGATAAAGGATACTG: Bytes := ['T' as int, 'T' as int, 'A' as int, 'G' as int, 'A' as int, 'T' as int, 'A' as int, 'A' as int, 'A' as int, 'G' as int, 'G' as int, 'A' as int, 'T' as int, 'A' as int, 'C' as int, 'T' as int, 'G' as int]
  const STAR: Bytes := ['*' as int]

  /** The example record itself. */
  function ExampleRecord(): Alignment {
    Alignment(R001, Flag(99), CHR1, 7, 30, CIGAR_8M2I4M1D3M, SAME, 37, 39, SEQ_TTAGATAAAGGATACTG, STAR)
  }

  /** Its fields as they are written on the line. */
  function ExampleFields(): seq<Bytes> {
    [R001, ['9' as int, '9' as int], CHR1, ['7' as int], ['3' as int, '0' as int],
      CIGAR_8M2I4M1D3M, SAME, ['3' as int, '7' as int], ['3' as int, '9' as int], SEQ_TTAGATAAAGGATACTG, STAR]
  }

  lemma AsciiText(t: Bytes)
    requires IsAscii(t) && TAB !in t
    ensures IsText(t)
  {
    AsciiIsUtf8(t);
  }

  lemma ExampleWellFormed()
    ensures WellFormed(ExampleRecord())
  {
    ExampleNamesText();
    ExampleCigarText();
    ExampleSeqText();
  }

  lemma ExampleNamesText()
    ensures IsText(R001) && IsText(CHR1) && IsText(SAME) && IsText(STAR)
  {
    AsciiText(R001);
    AsciiText(CHR1);
    AsciiText(SAME);
    AsciiText(STAR);
  }

  lemma ExampleCigarText()
    ensures IsText(CIGAR_8M2I4M1D3M)
  {
    AsciiText(CIGAR_8M2I4M1D3M);
  }

  lemma ExampleSeqText()
    ensures IsText(SEQ_TTAGATAAAGGATACTG)
  {
    AsciiText(SEQ_TTAGATAAAGGATACTG);
  }

  lemma ExampleWritten()
    ensures FieldsOf(ExampleRecord()) == ExampleFields()
  {
    assert Decimal(99) == ['9' as int, '9' as int] && Decimal(7) == ['7' as int] && Decimal(30) == ['3' as int, '0' as int];
    assert Decimal(37) == ['3' as int, '7' as int] && SignedDecimal(39) == ['3' as int, '9' as int];
  }

  /** The example line `r001 99 chr1 7 30 8M2I4M1D3M = 37 39 TTAGATAAAGGATACTG *`
      (fields separated by tabs) reads as the example record. */
  lemma ExampleLine()
    ensures ParseAlignment(Format(ExampleFields())) == Ok(ExampleRecord())
  {
    ExampleWellFormed();
    ExampleWritten();
    RoundTrip(ExampleRecord(), []);
    assert ExampleFields() + [] == ExampleFields();
  }

  /** A collection succeeds exactly when every line is read, with one value
      per line in order; otherwise its error is the first failing line's. */
  lemma {:induction false} CollectSpec<T>(read: Bytes -> Result<T>, lines: seq<Bytes>)
    ensures Collect(read, lines).Ok? <==> forall i :: 0 <= i < |lines| ==> read(lines[i]).Ok?
    ensures Collect(read, lines).Ok? ==>
      && |Collect(read, lines).value| == |lines|
      && forall i :: 0 <= i < |lines| ==> Collect(read, lines).value[i] == read(lines[i]).value
    ensures Collect(read, lines).Err? ==>
      exists i :: 0 <= i < |lines| && read(lines[i]) == Err(Collect(read, lines).error)
        && forall j :: 0 <= j < i ==> read(lines[j]).Ok?
    decreases |lines|
  {
    if lines != [] {
      var n := |lines| - 1;
      var init := lines[..n];
      CollectSpec(read, init);
      assert forall i :: 0 <= i < n ==> init[i] == lines[i];
      var c := Collect(read, init);
      if c.Err? {
        var i :| 0 <= i < n && read(init[i]) == Err(c.error) && forall j :: 0 <= j < i ==> read(init[j]).Ok?;
        assert read(lines[i]) == Err(Collect(read, lines).error);
      } else if read(lines[n]).Err? {
        assert read(lines[n]) == Err(Collect(read, lines).error);
      }
    }
  }

  /** Once the lines so far fail, the collection fails with the same error:
      nothing after the first failing line is read. */
  lemma {:induction false} CollectErrorPersists<T>(read: Bytes -> Result<T>, lines: seq<Bytes>, n: nat)
    requires n <= |lines| && Collect(read, lines[..n]).Err?
    ensures Collect(read, lines) == Collect(read, lines[..n])
    decreases |lines| - n
  {
    if n < |lines| {
      assert lines[..n + 1][..n] == lines[..n];
      CollectErrorPersists(read, lines, n + 1);
    } else {
      assert lines[..n] == lines;
    }
  }

  /** `parse` succeeds exactly when every line does, with one record per line
      in order; otherwise its error is the first failing line's. */
  lemma ParseAllSpec(lines: seq<Bytes>)
    ensures ParseAll(lines).Ok? <==> forall i :: 0 <= i < |lines| ==> ParseAlignment(lines[i]).Ok?
    ensures ParseAll(lines).Ok? ==>
      && |ParseAll(lines).value| == |lines|
      && forall i :: 0 <= i < |lines| ==> ParseAll(lines).value[i] == ParseAlignment(lines[i]).value
    ensures ParseAll(lines).Err? ==>
      exists i :: 0 <= i < |lines| && ParseAlignment(lines[i]) == Err(ParseAll(lines).error)
        && forall j :: 0 <= j < i ==> ParseAlignment(lines[j]).Ok?
  {
    CollectSpec(ParseAlignment, lines);
  }
}
