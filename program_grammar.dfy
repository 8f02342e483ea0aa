/** The `@PG` record (src/header/parser/program.rs) as functions: every tag
    holds UTF-8 text, and `ID` and `PP` are wrapped as program ids. */
module ProgramGrammar {
  import opened Bytes
  import opened Errors
  import opened Utf8
  import opened HeaderTypes
  import opened Tokens
  import opened Fields

  const ID: Tag := Tag('I' as int, 'D' as int)
  const PN: Tag := Tag('P' as int, 'N' as int)
  const CL: Tag := Tag('C' as int, 'L' as int)
  const PP: Tag := Tag('P' as int, 'P' as int)
  const DS: Tag := Tag('D' as int, 'S' as int)
  const VN: Tag := Tag('V' as int, 'N' as int)

  predicate Known(t: Tag) {
    t == ID || t == PN || t == CL || t == PP || t == DS || t == VN
  }

  /** Every arm of the `match` in `parse_program` is `parse_str`. */
  function Interpret(t: Tag, raw: Bytes): Result<Slot> {
    var text :- StrValue(raw);
    Ok(TextSlot(text))
  }

  const GRAMMAR: Grammar := Grammar(Known, Interpret)

  function IdIn(slots: Slots, t: Tag): Option<ProgramId> {
    match TextIn(slots, t)
    case None => Option.None
    case Some(text) => Some(ProgramId(text))
  }

  /** A program id kept in its tag's slot as the text it was read from. */
  function AsProgramId(x: ProgramId): Slot { TextSlot(x.text) }

  lemma ProgramIdLocal(slots: Slots, t: Tag, local: Option<ProgramId>)
    requires Get(slots, t) == Wrap(local, AsProgramId)
    ensures IdIn(slots, t) == local
  {
  }

  /** The record once the loop is done; the id is mandatory. */
  function Build(slots: Slots): (r: Result<Program>)
    ensures r.Ok? <==> TextIn(slots, ID).Some?
    ensures r.Err? ==> r.error == MissingProgramId
  {
    match IdIn(slots, ID)
    case None => Err(MissingProgramId)
    case Some(id) =>
      Ok(Program(id, TextIn(slots, PN), TextIn(slots, CL), IdIn(slots, PP), TextIn(slots, DS), TextIn(slots, VN)))
  }

  /** `parse_program`: the fields of a `@PG` line after its record code. */
  function ParseProgram(s: Bytes): (p: Parsed<Program>)
    ensures p.Done? ==> p.rest == []
  {
    var slots :- Loop(GRAMMAR, s, map[]);
    Located(Build(slots.value), slots.rest)
  }

  function IdValue(raw: Bytes): Result<ProgramId> {
    var text :- StrValue(raw);
    Ok(ProgramId(text))
  }

  /** The record an accepted list of fields describes, read field by field. */
  function ProgramOf(fs: seq<TagValue>): Result<Program> {
    match Decoded(ValueOf(fs, ID), IdValue)
    case None => Err(MissingProgramId)
    case Some(id) =>
      Ok(Program(id,
        Decoded(ValueOf(fs, PN), StrValue),
        Decoded(ValueOf(fs, CL), StrValue),
        Decoded(ValueOf(fs, PP), IdValue),
        Decoded(ValueOf(fs, DS), StrValue),
        Decoded(ValueOf(fs, VN), StrValue)))
  }

  lemma TextFrom(r: Slots, fs: seq<TagValue>, t: Tag)
    requires t in r <==> ValueOf(fs, t).Some?
    requires t in r ==> Ok(r[t]) == Interpret(t, ValueOf(fs, t).value)
    ensures TextIn(r, t) == Decoded(ValueOf(fs, t), StrValue)
    ensures IdIn(r, t) == Decoded(ValueOf(fs, t), IdValue)
  {
  }

  /** Slots filled from a list of fields build the record those fields describe. */
  lemma BuildFrom(r: Slots, fs: seq<TagValue>)
    requires forall t :: t in r <==> ValueOf(fs, t).Some?
    requires forall t :: t in r ==> Ok(r[t]) == Interpret(t, ValueOf(fs, t).value)
    ensures Build(r) == ProgramOf(fs)
  {
    TextFrom(r, fs, ID);
    TextFrom(r, fs, PN);
    TextFrom(r, fs, CL);
    TextFrom(r, fs, PP);
    TextFrom(r, fs, DS);
    TextFrom(r, fs, VN);
  }

  /** An accepted `@PG` line is read as the fields on it say; `PP` is kept
      as an id whether or not a program with that id exists. */
  lemma ProgramLine(fs: seq<TagValue>)
    requires TabFree(fs) && Accepted(GRAMMAR, fs, {})
    ensures ParseProgram(Line(fs)).ToResult() == ProgramOf(fs)
  {
    LineValues(GRAMMAR, fs);
    var r := Loop(GRAMMAR, Line(fs), map[]).value;
    BuildFrom(r, fs);
  }
}
