/** `parse_program` (src/header/parser/program.rs) as it runs: a `while` loop
    over the cursor that fills one `Option` local per tag, proved to end
    where `ProgramGrammar.ParseProgram` says, with the same result. */
module ProgramParser {
  import opened Bytes
  import opened Errors
  import opened Numbers
  import opened HeaderTypes
  import Tokens
  import opened Fields
  import opened ProgramGrammar

  /** The `Option` locals of `parse_program`, one per tag. */
  datatype ProgramLocals = ProgramLocals(
    id: Option<ProgramId>,        // ID
    name: Option<Bytes>,          // PN
    commandLine: Option<Bytes>,   // CL
    previous: Option<ProgramId>,  // PP
    description: Option<Bytes>,   // DS
    version: Option<Bytes>)       // VN

  /** The local that holds a tag's value, as a slot; `None` for a tag the
      record does not know. */
  function Local(locals: ProgramLocals, tag: Tokens.Tag): Option<Slot> {
    if tag == ID then Wrap(locals.id, AsProgramId)
    else if tag == PN then Wrap(locals.name, AsText)
    else if tag == CL then Wrap(locals.commandLine, AsText)
    else if tag == PP then Wrap(locals.previous, AsProgramId)
    else if tag == DS then Wrap(locals.description, AsText)
    else if tag == VN then Wrap(locals.version, AsText)
    else Option.None
  }

  /** The locals are the slots the loop rule has filled. */
  ghost predicate Holds(locals: ProgramLocals, slots: Slots) {
    forall tag :: Local(locals, tag) == Get(slots, tag)
  }

  /** One pass of the loop body: the tab, the tag and the `:`, then the
      `match` on the tag. */
  function ProgramField(s: Bytes, locals: ProgramLocals): Parsed<ProgramLocals> {
    var delimiter :- Tokens.EatFieldDelimiter(s);
    var tag :- Tokens.ParseTag(delimiter.rest);
    var separator :- Tokens.EatKvSeparator(tag.rest);
    ProgramArm(tag.value, separator.rest, locals)
  }

  /** The `match tag` of the loop body; any other tag is `UnknownTag`. */
  function ProgramArm(tag: Tokens.Tag, s: Bytes, locals: ProgramLocals): Parsed<ProgramLocals> {
    if tag == ID then FillId(s, locals)
    else if tag == PN then FillName(s, locals)
    else if tag == CL then FillCommandLine(s, locals)
    else if tag == PP then FillPrevious(s, locals)
    else if tag == DS then FillDescription(s, locals)
    else if tag == VN then FillVersion(s, locals)
    else Failed(UnknownTag, s)
  }

  /** The `ID` arm. */
  function FillId(s: Bytes, locals: ProgramLocals): Parsed<ProgramLocals> {
    var v :- FillSlot(s, locals.id, IdValue);
    Done(locals.(id := v.value), v.rest)
  }

  /** The `PN` arm. */
  function FillName(s: Bytes, locals: ProgramLocals): Parsed<ProgramLocals> {
    var v :- FillSlot(s, locals.name, Tokens.StrValue);
    Done(locals.(name := v.value), v.rest)
  }

  /** The `CL` arm. */
  function FillCommandLine(s: Bytes, locals: ProgramLocals): Parsed<ProgramLocals> {
    var v :- FillSlot(s, locals.commandLine, Tokens.StrValue);
    Done(locals.(commandLine := v.value), v.rest)
  }

  /** The `PP` arm. */
  function FillPrevious(s: Bytes, locals: ProgramLocals): Parsed<ProgramLocals> {
    var v :- FillSlot(s, locals.previous, IdValue);
    Done(locals.(previous := v.value), v.rest)
  }

  /** The `DS` arm. */
  function FillDescription(s: Bytes, locals: ProgramLocals): Parsed<ProgramLocals> {
    var v :- FillSlot(s, locals.description, Tokens.StrValue);
    Done(locals.(description := v.value), v.rest)
  }

  /** The `VN` arm. */
  function FillVersion(s: Bytes, locals: ProgramLocals): Parsed<ProgramLocals> {
    var v :- FillSlot(s, locals.version, Tokens.StrValue);
    Done(locals.(version := v.value), v.rest)
  }

  /** A pass over the locals and a pass of the loop rule stop at the same
      place with the same error, or both go on, the locals holding the new
      slots. */
  ghost predicate Agree(p: Parsed<ProgramLocals>, q: Parsed<Slots>) {
    && (p.Failed? <==> q.Failed?)
    && p.rest == q.rest
    && (p.Failed? ==> p.error == q.error)
    && (p.Done? ==> Holds(p.value, q.value))
  }

  lemma FillIdAgrees(s: Bytes, locals: ProgramLocals, slots: Slots)
    requires Holds(locals, slots)
    ensures Agree(FillId(s, locals), TagValueStep(GRAMMAR, ID, s, slots))
  {
    assert ReadsWith(GRAMMAR, ID, IdValue, AsProgramId);
    assert Local(locals, ID) == Get(slots, ID);
    FillSlotStep(GRAMMAR, ID, s, locals.id, IdValue, AsProgramId, slots);
    var v := FillSlot(s, locals.id, IdValue);
    if v.Done? {
      var after, filled := locals.(id := v.value), slots[ID := AsProgramId(v.value.value)];
      forall tag ensures Local(after, tag) == Get(filled, tag) {
        assert Local(locals, tag) == Get(slots, tag);
      }
    }
  }

  lemma FillNameAgrees(s: Bytes, locals: ProgramLocals, slots: Slots)
    requires Holds(locals, slots)
    ensures Agree(FillName(s, locals), TagValueStep(GRAMMAR, PN, s, slots))
  {
    assert ReadsWith(GRAMMAR, PN, Tokens.StrValue, AsText);
    assert Local(locals, PN) == Get(slots, PN);
    FillSlotStep(GRAMMAR, PN, s, locals.name, Tokens.StrValue, AsText, slots);
    var v := FillSlot(s, locals.name, Tokens.StrValue);
    if v.Done? {
      var after, filled := locals.(name := v.value), slots[PN := AsText(v.value.value)];
      forall tag ensures Local(after, tag) == Get(filled, tag) {
        assert Local(locals, tag) == Get(slots, tag);
      }
    }
  }

  lemma FillCommandLineAgrees(s: Bytes, locals: ProgramLocals, slots: Slots)
    requires Holds(locals, slots)
    ensures Agree(FillCommandLine(s, locals), TagValueStep(GRAMMAR, CL, s, slots))
  {
    assert ReadsWith(GRAMMAR, CL, Tokens.StrValue, AsText);
    assert Local(locals, CL) == Get(slots, CL);
    FillSlotStep(GRAMMAR, CL, s, locals.commandLine, Tokens.StrValue, AsText, slots);
    var v := FillSlot(s, locals.commandLine, Tokens.StrValue);
    if v.Done? {
      var after, filled := locals.(commandLine := v.value), slots[CL := AsText(v.value.value)];
      forall tag ensures Local(after, tag) == Get(filled, tag) {
        assert Local(locals, tag) == Get(slots, tag);
      }
    }
  }

  lemma FillPreviousAgrees(s: Bytes, locals: ProgramLocals, slots: Slots)
    requires Holds(locals, slots)
    ensures Agree(FillPrevious(s, locals), TagValueStep(GRAMMAR, PP, s, slots))
  {
    assert ReadsWith(GRAMMAR, PP, IdValue, AsProgramId);
    assert Local(locals, PP) == Get(slots, PP);
    FillSlotStep(GRAMMAR, PP, s, locals.previous, IdValue, AsProgramId, slots);
    var v := FillSlot(s, locals.previous, IdValue);
    if v.Done? {
      var after, filled := locals.(previous := v.value), slots[PP := AsProgramId(v.value.value)];
      forall tag ensures Local(after, tag) == Get(filled, tag) {
        assert Local(locals, tag) == Get(slots, tag);
      }
    }
  }

  lemma FillDescriptionAgrees(s: Bytes, locals: ProgramLocals, slots: Slots)
    requires Holds(locals, slots)
    ensures Agree(FillDescription(s, locals), TagValueStep(GRAMMAR, DS, s, slots))
  {
    assert ReadsWith(GRAMMAR, DS, Tokens.StrValue, AsText);
    assert Local(locals, DS) == Get(slots, DS);
    FillSlotStep(GRAMMAR, DS, s, locals.description, Tokens.StrValue, AsText, slots);
    var v := FillSlot(s, locals.description, Tokens.StrValue);
    if v.Done? {
      var after, filled := locals.(description := v.value), slots[DS := AsText(v.value.value)];
      forall tag ensures Local(after, tag) == Get(filled, tag) {
        assert Local(locals, tag) == Get(slots, tag);
      }
    }
  }

  lemma FillVersionAgrees(s: Bytes, locals: ProgramLocals, slots: Slots)
    requires Holds(locals, slots)
    ensures Agree(FillVersion(s, locals), TagValueStep(GRAMMAR, VN, s, slots))
  {
    assert ReadsWith(GRAMMAR, VN, Tokens.StrValue, AsText);
    assert Local(locals, VN) == Get(slots, VN);
    FillSlotStep(GRAMMAR, VN, s, locals.version, Tokens.StrValue, AsText, slots);
    var v := FillSlot(s, locals.version, Tokens.StrValue);
    if v.Done? {
      var after, filled := locals.(version := v.value), slots[VN := AsText(v.value.value)];
      forall tag ensures Local(after, tag) == Get(filled, tag) {
        assert Local(locals, tag) == Get(slots, tag);
      }
    }
  }

  /** Every arm of the `match` agrees with the loop rule at its tag. */
  lemma ArmAgrees(tag: Tokens.Tag, s: Bytes, locals: ProgramLocals, slots: Slots)
    requires Holds(locals, slots)
    ensures Agree(ProgramArm(tag, s, locals), TagValueStep(GRAMMAR, tag, s, slots))
  {
    if tag == ID {
      FillIdAgrees(s, locals, slots);
    } else if tag == PN {
      FillNameAgrees(s, locals, slots);
    } else if tag == CL {
      FillCommandLineAgrees(s, locals, slots);
    } else if tag == PP {
      FillPreviousAgrees(s, locals, slots);
    } else if tag == DS {
      FillDescriptionAgrees(s, locals, slots);
    } else if tag == VN {
      FillVersionAgrees(s, locals, slots);
    }
  }

  /** One pass of the loop body agrees with one pass of the loop rule. */
  lemma FieldAgrees(s: Bytes, locals: ProgramLocals, slots: Slots)
    requires Holds(locals, slots)
    ensures Agree(ProgramField(s, locals), FieldStep(GRAMMAR, s, slots))
  {
    var h := FieldHead(s);
    if h.Done? {
      ArmAgrees(h.value, h.rest, locals, slots);
    }
  }

  /** The record the loop's locals make is the record the filled slots build. */
  lemma BuildHolds(l: ProgramLocals, slots: Slots)
    requires Holds(l, slots)
    ensures Build(slots) == if l.id.None? then Err(MissingProgramId) else 
      Ok(Program(l.id.value, l.name, l.commandLine, l.previous, l.description, l.version))
  {
    assert Local(l, ID) == Get(slots, ID);
    ProgramIdLocal(slots, ID, l.id);
    assert Local(l, PN) == Get(slots, PN);
    TextLocal(slots, PN, l.name);
    assert Local(l, CL) == Get(slots, CL);
    TextLocal(slots, CL, l.commandLine);
    assert Local(l, PP) == Get(slots, PP);
    ProgramIdLocal(slots, PP, l.previous);
    assert Local(l, DS) == Get(slots, DS);
    TextLocal(slots, DS, l.description);
    assert Local(l, VN) == Get(slots, VN);
    TextLocal(slots, VN, l.version);
  }

  /** `parse_program`: the fields of a `@PG` line after its record code.
      Each `?` of the source is a `:-`, which hands back the error together
      with where the cursor stands. */
  method ParseProgram(s: Bytes) returns (p: Parsed<Program>)
    ensures p == ProgramGrammar.ParseProgram(s)
  {
    var locals := ProgramLocals(Option.None, Option.None, Option.None, Option.None, Option.None, Option.None);
    ghost var slots: Slots := map[];
    var rest := s;
    while rest != []
      invariant Loop(GRAMMAR, rest, slots) == Loop(GRAMMAR, s, map[])
      invariant Holds(locals, slots)
      decreases |rest|
    {
      FieldAgrees(rest, locals, slots);
      LoopStep(GRAMMAR, rest, slots);
      var next :- ProgramField(rest, locals);
      slots := FieldStep(GRAMMAR, rest, slots).value;
      locals, rest := next.value, next.rest;
    }
    BuildHolds(locals, slots);
    var l := locals;
    if l.id.None? {
      return Failed(MissingProgramId, rest);
    }
    p := Done(Program(l.id.value, l.name, l.commandLine, l.previous, l.description, l.version), rest);
  }
}
