/** `parse_alignment` and `parse` (src/alignment/parser.rs) as they run: the
    `split` iterator over a line's tabs advanced one field at a time by
    `next_field`, the remaining fields drained by a loop, and the lines read
    by a loop that stops at the first error. Each is proved to compute what
    `AlignmentGrammar` says. */
module AlignmentParser {
  import opened Bytes
  import opened Errors
  import opened Numbers
  import opened Utf8
  import opened Tokens
  import opened Alignments
  import opened AlignmentGrammar

  /** The iterator `s.split(|&c| c == DELIM)`: the bytes not handed out yet,
      and whether the last field has been. */
  datatype FieldIter = FieldIter(rest: Bytes, finished: bool)

  /** The fields the iterator has still to give, in order. */
  function Remaining(it: FieldIter): seq<Bytes> {
    if it.finished then [] else Split(it.rest, TAB)
  }

  /** `Iterator::next` of the split: the bytes up to the next tab, or all of
      them when no tab is left, after which the iterator is finished. */
  function Next(it: FieldIter): (r: (Option<Bytes>, FieldIter))
    ensures r.0.None? <==> Remaining(it) == []
    ensures r.0.Some? ==> r.0.value == Remaining(it)[0] && Remaining(r.1) == Remaining(it)[1..]
  {
    if it.finished then (Option.None, it)
    else
      var i := IndexOf(it.rest, TAB);
      if i == |it.rest| then (Some(it.rest), FieldIter([], true))
      else (Some(it.rest[..i]), FieldIter(it.rest[i + 1..], false))
  }

  /** `next_field`: the next field as text, or `MissingAlignmentField` when
      the line has no more fields. */
  function NextField(it: FieldIter): (r: (Result<Bytes>, FieldIter))
    ensures r.0 == AlignmentGrammar.NextField(Remaining(it), 0)
    ensures r.0.Ok? ==> Remaining(r.1) == Remaining(it)[1..]
  {
    match Next(it).0
    case None => (Err(MissingAlignmentField), it)
    case Some(raw) => (StrValue(raw), Next(it).1)
  }

  /** Reading field `k` from the iterator left after `k` fields is reading
      field `k` of the line. */
  lemma FieldAt(fs: seq<Bytes>, k: nat, it: FieldIter)
    requires k <= |fs| && Remaining(it) == fs[k..]
    ensures NextField(it).0 == AlignmentGrammar.NextField(fs, k)
    ensures NextField(it).0.Ok? ==> k < |fs| && Remaining(NextField(it).1) == fs[k + 1..]
  {
    if k < |fs| {
      assert fs[k..][0] == fs[k];
      assert fs[k..][1..] == fs[k + 1..];
    }
  }

  /** `fields.map(parse_str).collect()`: the fields after the eleventh,
      drained until one is not UTF-8. */
  method OtherFields(it: FieldIter) returns (r: Result<()>)
    ensures r == AlignmentGrammar.OtherFields(Remaining(it))
  {
    var fields := it;
    var next := Next(fields);
    while next.0.Some?
      invariant next == Next(fields)
      invariant AlignmentGrammar.OtherFields(Remaining(fields)) == AlignmentGrammar.OtherFields(Remaining(it))
      decreases |Remaining(fields)|
    {
      var text := StrValue(next.0.value);
      if text.Err? {
        return Err(text.error);
      }
      fields := next.1;
      next := Next(fields);
    }
    r := Ok(());
  }

  /** `parse_alignment`: the eleven fields in order, each converted where a
      number is expected, then the further fields. */
  method ParseAlignment(line: Bytes) returns (r: Result<Alignment>)
    ensures r == AlignmentGrammar.ParseAlignment(line)
  {
    ghost var fs := Split(line, TAB);
    var fields := FieldIter(line, false);
    var t;
    FieldAt(fs, 0, fields);
    t := NextField(fields);
    if t.0.Err? { return Err(t.0.error); }
    var queryName := t.0.value;
    FieldAt(fs, 1, t.1);
    t := NextField(t.1);
    if t.0.Err? { return Err(t.0.error); }
    var flag := UnsignedField(t.0.value, U16_MAX);
    if flag.Err? { return Err(flag.error); }
    FieldAt(fs, 2, t.1);
    t := NextField(t.1);
    if t.0.Err? { return Err(t.0.error); }
    var refSeqName := t.0.value;
    FieldAt(fs, 3, t.1);
    t := NextField(t.1);
    if t.0.Err? { return Err(t.0.error); }
    var pos := UnsignedField(t.0.value, U32_MAX);
    if pos.Err? { return Err(pos.error); }
    FieldAt(fs, 4, t.1);
    t := NextField(t.1);
    if t.0.Err? { return Err(t.0.error); }
    var mapQuality := UnsignedField(t.0.value, U8_MAX);
    if mapQuality.Err? { return Err(mapQuality.error); }
    r := ParseRest(t.1, fs, queryName, Flag(flag.value as bv16), refSeqName, pos.value, mapQuality.value);
  }

  /** The fields from CIGAR on, read from the iterator left after MAPQ. */
  method ParseRest(it: FieldIter, ghost fs: seq<Bytes>, queryName: Bytes, flag: Flag, refSeqName: Bytes, pos: u32, mapQuality: u8)
    returns (r: Result<Alignment>)
    requires 5 <= |fs| && Remaining(it) == fs[5..]
    ensures r == AlignmentGrammar.ParseRest(fs, queryName, flag, refSeqName, pos, mapQuality)
  {
    var t;
    FieldAt(fs, 5, it);
    t := NextField(it);
    if t.0.Err? { return Err(t.0.error); }
    var cigar := t.0.value;
    FieldAt(fs, 6, t.1);
    t := NextField(t.1);
    if t.0.Err? { return Err(t.0.error); }
    var rnext := t.0.value;
    FieldAt(fs, 7, t.1);
    t := NextField(t.1);
    if t.0.Err? { return Err(t.0.error); }
    var pnext := UnsignedField(t.0.value, U32_MAX);
    if pnext.Err? { return Err(pnext.error); }
    FieldAt(fs, 8, t.1);
    t := NextField(t.1);
    if t.0.Err? { return Err(t.0.error); }
    var templateLen := SignedField(t.0.value);
    if templateLen.Err? { return Err(templateLen.error); }
    FieldAt(fs, 9, t.1);
    t := NextField(t.1);
    if t.0.Err? { return Err(t.0.error); }
    var sequence := t.0.value;
    FieldAt(fs, 10, t.1);
    t := NextField(t.1);
    if t.0.Err? { return Err(t.0.error); }
    var phredQuality := t.0.value;
    var others := OtherFields(t.1);
    if others.Err? { return Err(others.error); }
    r := Ok(Alignment(queryName, flag, refSeqName, pos, mapQuality, cigar, rnext,
      pnext.value, templateLen.value, sequence, phredQuality));
  }

  /** `parse`: every line read in order into the vector of records; the
      first line that fails is the error. */
  method Parse(lines: seq<Bytes>) returns (r: Result<seq<Alignment>>)
    ensures r == ParseAll(lines)
  {
    var alignments: seq<Alignment> := [];
    for i := 0 to |lines|
      invariant Collect(AlignmentGrammar.ParseAlignment, lines[..i]) == Ok(alignments)
    {
      assert lines[..i + 1][..i] == lines[..i];
      var a := ParseAlignment(lines[i]);
      if a.Err? {
        CollectErrorPersists(AlignmentGrammar.ParseAlignment, lines, i + 1);
        return Err(a.error);
      }
      alignments := alignments + [a.value];
    }
    assert lines[..|lines|] == lines;
    r := Ok(alignments);
  }
}
