/** `parse_read_group` (src/header/parser/read_group.rs) as it runs: a `while` loop
    over the cursor that fills one `Option` local per tag, proved to end
    where `ReadGroupGrammar.ParseReadGroup` says, with the same result. */
module ReadGroupParser {
  import opened Bytes
  import opened Errors
  import opened Numbers
  import opened HeaderTypes
  import Tokens
  import opened Fields
  import opened ReadGroupGrammar

  /** The `Option` locals of `parse_read_group`, one per tag. */
  datatype ReadGroupLocals = ReadGroupLocals(
    id: Option<Bytes>,             // ID
    barcode: Option<Bytes>,        // BC
    center: Option<Bytes>,         // CN
    description: Option<Bytes>,    // DS
    date: Option<Bytes>,           // DT
    flowOrder: Option<Bytes>,      // FO
    keySequence: Option<Bytes>,    // KS
    library: Option<Bytes>,        // LB
    programs: Option<Bytes>,       // PG
    insertSize: Option<u32>,       // PI
    platform: Option<Platform>,    // PL
    platformModel: Option<Bytes>,  // PM
    platformUnit: Option<Bytes>,   // PU
    sample: Option<Bytes>)         // SM

  /** The local that holds a tag's value, as a slot; `None` for a tag the
      record does not know. */
  function Local(locals: ReadGroupLocals, tag: Tokens.Tag): Option<Slot> {
    if tag == ID then Wrap(locals.id, AsText)
    else if tag == BC then Wrap(locals.barcode, AsText)
    else if tag == CN then Wrap(locals.center, AsText)
    else if tag == DS then Wrap(locals.description, AsText)
    else if tag == DT then Wrap(locals.date, AsText)
    else if tag == FO then Wrap(locals.flowOrder, AsText)
    else if tag == KS then Wrap(locals.keySequence, AsText)
    else if tag == LB then Wrap(locals.library, AsText)
    else if tag == PG then Wrap(locals.programs, AsText)
    else if tag == PI then Wrap(locals.insertSize, AsInsertSize)
    else if tag == PL then Wrap(locals.platform, AsPlatform)
    else if tag == PM then Wrap(locals.platformModel, AsText)
    else if tag == PU then Wrap(locals.platformUnit, AsText)
    else if tag == SM then Wrap(locals.sample, AsText)
    else Option.None
  }

  /** The locals are the slots the loop rule has filled. */
  ghost predicate Holds(locals: ReadGroupLocals, slots: Slots) {
    forall tag :: Local(locals, tag) == Get(slots, tag)
  }

  /** One pass of the loop body: the tab, the tag and the `:`, then the
      `match` on the tag. */
  function ReadGroupField(s: Bytes, locals: ReadGroupLocals): Parsed<ReadGroupLocals> {
    var delimiter :- Tokens.EatFieldDelimiter(s);
    var tag :- Tokens.ParseTag(delimiter.rest);
    var separator :- Tokens.EatKvSeparator(tag.rest);
    ReadGroupArm(tag.value, separator.rest, locals)
  }

  /** The `match tag` of the loop body; any other tag is `UnknownTag`. */
  function ReadGroupArm(tag: Tokens.Tag, s: Bytes, locals: ReadGroupLocals): Parsed<ReadGroupLocals> {
    if tag == ID then FillId(s, locals)
    else if tag == BC then FillBarcode(s, locals)
    else if tag == CN then FillCenter(s, locals)
    else if tag == DS then FillDescription(s, locals)
    else if tag == DT then FillDate(s, locals)
    else if tag == FO then FillFlowOrder(s, locals)
    else if tag == KS then FillKeySequence(s, locals)
    else if tag == LB then FillLibrary(s, locals)
    else if tag == PG then FillPrograms(s, locals)
    else if tag == PI then FillInsertSize(s, locals)
    else if tag == PL then FillPlatform(s, locals)
    else if tag == PM then FillPlatformModel(s, locals)
    else if tag == PU then FillPlatformUnit(s, locals)
    else if tag == SM then FillSample(s, locals)
    else Failed(UnknownTag, s)
  }

  /** The `ID` arm. */
  function FillId(s: Bytes, locals: ReadGroupLocals): Parsed<ReadGroupLocals> {
    var v :- FillSlot(s, locals.id, Tokens.StrValue);
    Done(locals.(id := v.value), v.rest)
  }

  /** The `BC` arm. */
  function FillBarcode(s: Bytes, locals: ReadGroupLocals): Parsed<ReadGroupLocals> {
    var v :- FillSlot(s, locals.barcode, Tokens.StrValue);
    Done(locals.(barcode := v.value), v.rest)
  }

  /** The `CN` arm. */
  function FillCenter(s: Bytes, locals: ReadGroupLocals): Parsed<ReadGroupLocals> {
    var v :- FillSlot(s, locals.center, Tokens.StrValue);
    Done(locals.(center := v.value), v.rest)
  }

  /** The `DS` arm. */
  function FillDescription(s: Bytes, locals: ReadGroupLocals): Parsed<ReadGroupLocals> {
    var v :- FillSlot(s, locals.description, Tokens.StrValue);
    Done(locals.(description := v.value), v.rest)
  }

  /** The `DT` arm. */
  function FillDate(s: Bytes, locals: ReadGroupLocals): Parsed<ReadGroupLocals> {
    var v :- FillSlot(s, locals.date, Tokens.StrValue);
    Done(locals.(date := v.value), v.rest)
  }

  /** The `FO` arm. */
  function FillFlowOrder(s: Bytes, locals: ReadGroupLocals): Parsed<ReadGroupLocals> {
    var v :- FillSlot(s, locals.flowOrder, Tokens.StrValue);
    Done(locals.(flowOrder := v.value), v.rest)
  }

  /** The `KS` arm. */
  function FillKeySequence(s: Bytes, locals: ReadGroupLocals): Parsed<ReadGroupLocals> {
    var v :- FillSlot(s, locals.keySequence, Tokens.StrValue);
    Done(locals.(keySequence := v.value), v.rest)
  }

  /** The `LB` arm. */
  function FillLibrary(s: Bytes, locals: ReadGroupLocals): Parsed<ReadGroupLocals> {
    var v :- FillSlot(s, locals.library, Tokens.StrValue);
    Done(locals.(library := v.value), v.rest)
  }

  /** The `PG` arm. */
  function FillPrograms(s: Bytes, locals: ReadGroupLocals): Parsed<ReadGroupLocals> {
    var v :- FillSlot(s, locals.programs, Tokens.StrValue);
    Done(locals.(programs := v.value), v.rest)
  }

  /** The `PI` arm. */
  function FillInsertSize(s: Bytes, locals: ReadGroupLocals): Parsed<ReadGroupLocals> {
    var v :- FillSlot(s, locals.insertSize, InsertSizeValue);
    Done(locals.(insertSize := v.value), v.rest)
  }

  /** The `PL` arm. */
  function FillPlatform(s: Bytes, locals: ReadGroupLocals): Parsed<ReadGroupLocals> {
    var v :- FillSlot(s, locals.platform, PlatformValue);
    Done(locals.(platform := v.value), v.rest)
  }

  /** The `PM` arm. */
  function FillPlatformModel(s: Bytes, locals: ReadGroupLocals): Parsed<ReadGroupLocals> {
    var v :- FillSlot(s, locals.platformModel, Tokens.StrValue);
    Done(locals.(platformModel := v.value), v.rest)
  }

  /** The `PU` arm. */
  function FillPlatformUnit(s: Bytes, locals: ReadGroupLocals): Parsed<ReadGroupLocals> {
    var v :- FillSlot(s, locals.platformUnit, Tokens.StrValue);
    Done(locals.(platformUnit := v.value), v.rest)
  }

  /** The `SM` arm. */
  function FillSample(s: Bytes, locals: ReadGroupLocals): Parsed<ReadGroupLocals> {
    var v :- FillSlot(s, locals.sample, Tokens.StrValue);
    Done(locals.(sample := v.value), v.rest)
  }

  /** A pass over the locals and a pass of the loop rule stop at the same
      place with the same error, or both go on, the locals holding the new
      slots. */
  ghost predicate Agree(p: Parsed<ReadGroupLocals>, q: Parsed<Slots>) {
    && (p.Failed? <==> q.Failed?)
    && p.rest == q.rest
    && (p.Failed? ==> p.error == q.error)
    && (p.Done? ==> Holds(p.value, q.value))
  }

  lemma FillIdAgrees(s: Bytes, locals: ReadGroupLocals, slots: Slots)
    requires Holds(locals, slots)
    ensures Agree(FillId(s, locals), TagValueStep(GRAMMAR, ID, s, slots))
  {
    assert ReadsWith(GRAMMAR, ID, Tokens.StrValue, AsText);
    assert Local(locals, ID) == Get(slots, ID);
    FillSlotStep(GRAMMAR, ID, s, locals.id, Tokens.StrValue, AsText, slots);
    var v := FillSlot(s, locals.id, Tokens.StrValue);
    if v.Done? {
      var after, filled := locals.(id := v.value), slots[ID := AsText(v.value.value)];
      forall tag ensures Local(after, tag) == Get(filled, tag) {
        assert Local(locals, tag) == Get(slots, tag);
      }
    }
  }

  lemma FillBarcodeAgrees(s: Bytes, locals: ReadGroupLocals, slots: Slots)
    requires Holds(locals, slots)
    ensures Agree(FillBarcode(s, locals), TagValueStep(GRAMMAR, BC, s, slots))
  {
    assert ReadsWith(GRAMMAR, BC, Tokens.StrValue, AsText);
    assert Local(locals, BC) == Get(slots, BC);
    FillSlotStep(GRAMMAR, BC, s, locals.barcode, Tokens.StrValue, AsText, slots);
    var v := FillSlot(s, locals.barcode, Tokens.StrValue);
    if v.Done? {
      var after, filled := locals.(barcode := v.value), slots[BC := AsText(v.value.value)];
      forall tag ensures Local(after, tag) == Get(filled, tag) {
        assert Local(locals, tag) == Get(slots, tag);
      }
    }
  }

  lemma FillCenterAgrees(s: Bytes, locals: ReadGroupLocals, slots: Slots)
    requires Holds(locals, slots)
    ensures Agree(FillCenter(s, locals), TagValueStep(GRAMMAR, CN, s, slots))
  {
    assert ReadsWith(GRAMMAR, CN, Tokens.StrValue, AsText);
    assert Local(locals, CN) == Get(slots, CN);
    FillSlotStep(GRAMMAR, CN, s, locals.center, Tokens.StrValue, AsText, slots);
    var v := FillSlot(s, locals.center, Tokens.StrValue);
    if v.Done? {
      var after, filled := locals.(center := v.value), slots[CN := AsText(v.value.value)];
      forall tag ensures Local(after, tag) == Get(filled, tag) {
        assert Local(locals, tag) == Get(slots, tag);
      }
    }
  }

  lemma FillDescriptionAgrees(s: Bytes, locals: ReadGroupLocals, slots: Slots)
    requires Holds(locals, slots)
    ensures Agree(FillDescription(s, locals), TagValueStep(GRAMMAR, DS, s, slots))
  {
    assert ReadsWith(GRAMMAR, DS, Tokens.StrValue, AsText);
    assert Local(locals, DS) == Get(slots, DS);
    FillSlotStep(GRAMMAR, DS, s, locals.description, Tokens.StrValue, AsText, slots);
    var v := FillSlot(s, locals.description, Tokens.StrValue);
    if v.Done? {
      var after, filled := locals.(description := v.value), slots[DS := AsText(v.value.value)];
      forall tag ensures Local(after, tag) == Get(filled, tag) {
        assert Local(locals, tag) == Get(slots, tag);
      }
    }
  }

  lemma FillDateAgrees(s: Bytes, locals: ReadGroupLocals, slots: Slots)
    requires Holds(locals, slots)
    ensures Agree(FillDate(s, locals), TagValueStep(GRAMMAR, DT, s, slots))
  {
    assert ReadsWith(GRAMMAR, DT, Tokens.StrValue, AsText);
    assert Local(locals, DT) == Get(slots, DT);
    FillSlotStep(GRAMMAR, DT, s, locals.date, Tokens.StrValue, AsText, slots);
    var v := FillSlot(s, locals.date, Tokens.StrValue);
    if v.Done? {
      var after, filled := locals.(date := v.value), slots[DT := AsText(v.value.value)];
      forall tag ensures Local(after, tag) == Get(filled, tag) {
        assert Local(locals, tag) == Get(slots, tag);
      }
    }
  }

  lemma FillFlowOrderAgrees(s: Bytes, locals: ReadGroupLocals, slots: Slots)
    requires Holds(locals, slots)
    ensures Agree(FillFlowOrder(s, locals), TagValueStep(GRAMMAR, FO, s, slots))
  {
    assert ReadsWith(GRAMMAR, FO, Tokens.StrValue, AsText);
    assert Local(locals, FO) == Get(slots, FO);
    FillSlotStep(GRAMMAR, FO, s, locals.flowOrder, Tokens.StrValue, AsText, slots);
    var v := FillSlot(s, locals.flowOrder, Tokens.StrValue);
    if v.Done? {
      var after, filled := locals.(flowOrder := v.value), slots[FO := AsText(v.value.value)];
      forall tag ensures Local(after, tag) == Get(filled, tag) {
        assert Local(locals, tag) == Get(slots, tag);
      }
    }
  }

  lemma FillKeySequenceAgrees(s: Bytes, locals: ReadGroupLocals, slots: Slots)
    requires Holds(locals, slots)
    ensures Agree(FillKeySequence(s, locals), TagValueStep(GRAMMAR, KS, s, slots))
  {
    assert ReadsWith(GRAMMAR, KS, Tokens.StrValue, AsText);
    assert Local(locals, KS) == Get(slots, KS);
    FillSlotStep(GRAMMAR, KS, s, locals.keySequence, Tokens.StrValue, AsText, slots);
    var v := FillSlot(s, locals.keySequence, Tokens.StrValue);
    if v.Done? {
      var after, filled := locals.(keySequence := v.value), slots[KS := AsText(v.value.value)];
      forall tag ensures Local(after, tag) == Get(filled, tag) {
        assert Local(locals, tag) == Get(slots, tag);
      }
    }
  }

  lemma FillLibraryAgrees(s: Bytes, locals: ReadGroupLocals, slots: Slots)
    requires Holds(locals, slots)
    ensures Agree(FillLibrary(s, locals), TagValueStep(GRAMMAR, LB, s, slots))
  {
    assert ReadsWith(GRAMMAR, LB, Tokens.StrValue, AsText);
    assert Local(locals, LB) == Get(slots, LB);
    FillSlotStep(GRAMMAR, LB, s, locals.library, Tokens.StrValue, AsText, slots);
    var v := FillSlot(s, locals.library, Tokens.StrValue);
    if v.Done? {
      var after, filled := locals.(library := v.value), slots[LB := AsText(v.value.value)];
      forall tag ensures Local(after, tag) == Get(filled, tag) {
        assert Local(locals, tag) == Get(slots, tag);
      }
    }
  }

  lemma FillProgramsAgrees(s: Bytes, locals: ReadGroupLocals, slots: Slots)
    requires Holds(locals, slots)
    ensures Agree(FillPrograms(s, locals), TagValueStep(GRAMMAR, PG, s, slots))
  {
    assert ReadsWith(GRAMMAR, PG, Tokens.StrValue, AsText);
    assert Local(locals, PG) == Get(slots, PG);
    FillSlotStep(GRAMMAR, PG, s, locals.programs, Tokens.StrValue, AsText, slots);
    var v := FillSlot(s, locals.programs, Tokens.StrValue);
    if v.Done? {
      var after, filled := locals.(programs := v.value), slots[PG := AsText(v.value.value)];
      forall tag ensures Local(after, tag) == Get(filled, tag) {
        assert Local(locals, tag) == Get(slots, tag);
      }
    }
  }

  lemma FillInsertSizeAgrees(s: Bytes, locals: ReadGroupLocals, slots: Slots)
    requires Holds(locals, slots)
    ensures Agree(FillInsertSize(s, locals), TagValueStep(GRAMMAR, PI, s, slots))
  {
    assert ReadsWith(GRAMMAR, PI, InsertSizeValue, AsInsertSize);
    assert Local(locals, PI) == Get(slots, PI);
    FillSlotStep(GRAMMAR, PI, s, locals.insertSize, InsertSizeValue, AsInsertSize, slots);
    var v := FillSlot(s, locals.insertSize, InsertSizeValue);
    if v.Done? {
      var after, filled := locals.(insertSize := v.value), slots[PI := AsInsertSize(v.value.value)];
      forall tag ensures Local(after, tag) == Get(filled, tag) {
        assert Local(locals, tag) == Get(slots, tag);
      }
    }
  }

  lemma FillPlatformAgrees(s: Bytes, locals: ReadGroupLocals, slots: Slots)
    requires Holds(locals, slots)
    ensures Agree(FillPlatform(s, locals), TagValueStep(GRAMMAR, PL, s, slots))
  {
    assert ReadsWith(GRAMMAR, PL, PlatformValue, AsPlatform);
    assert Local(locals, PL) == Get(slots, PL);
    FillSlotStep(GRAMMAR, PL, s, locals.platform, PlatformValue, AsPlatform, slots);
    var v := FillSlot(s, locals.platform, PlatformValue);
    if v.Done? {
      var after, filled := locals.(platform := v.value), slots[PL := AsPlatform(v.value.value)];
      forall tag ensures Local(after, tag) == Get(filled, tag) {
        assert Local(locals, tag) == Get(slots, tag);
      }
    }
  }

  lemma FillPlatformModelAgrees(s: Bytes, locals: ReadGroupLocals, slots: Slots)
    requires Holds(locals, slots)
    ensures Agree(FillPlatformModel(s, locals), TagValueStep(GRAMMAR, PM, s, slots))
  {
    assert ReadsWith(GRAMMAR, PM, Tokens.StrValue, AsText);
    assert Local(locals, PM) == Get(slots, PM);
    FillSlotStep(GRAMMAR, PM, s, locals.platformModel, Tokens.StrValue, AsText, slots);
    var v := FillSlot(s, locals.platformModel, Tokens.StrValue);
    if v.Done? {
      var after, filled := locals.(platformModel := v.value), slots[PM := AsText(v.value.value)];
      forall tag ensures Local(after, tag) == Get(filled, tag) {
        assert Local(locals, tag) == Get(slots, tag);
      }
    }
  }

  lemma FillPlatformUnitAgrees(s: Bytes, locals: ReadGroupLocals, slots: Slots)
    requires Holds(locals, slots)
    ensures Agree(FillPlatformUnit(s, locals), TagValueStep(GRAMMAR, PU, s, slots))
  {
    assert ReadsWith(GRAMMAR, PU, Tokens.StrValue, AsText);
    assert Local(locals, PU) == Get(slots, PU);
    FillSlotStep(GRAMMAR, PU, s, locals.platformUnit, Tokens.StrValue, AsText, slots);
    var v := FillSlot(s, locals.platformUnit, Tokens.StrValue);
    if v.Done? {
      var after, filled := locals.(platformUnit := v.value), slots[PU := AsText(v.value.value)];
      forall tag ensures Local(after, tag) == Get(filled, tag) {
        assert Local(locals, tag) == Get(slots, tag);
      }
    }
  }

  lemma FillSampleAgrees(s: Bytes, locals: ReadGroupLocals, slots: Slots)
    requires Holds(locals, slots)
    ensures Agree(FillSample(s, locals), TagValueStep(GRAMMAR, SM, s, slots))
  {
    assert ReadsWith(GRAMMAR, SM, Tokens.StrValue, AsText);
    assert Local(locals, SM) == Get(slots, SM);
    FillSlotStep(GRAMMAR, SM, s, locals.sample, Tokens.StrValue, AsText, slots);
    var v := FillSlot(s, locals.sample, Tokens.StrValue);
    if v.Done? {
      var after, filled := locals.(sample := v.value), slots[SM := AsText(v.value.value)];
      forall tag ensures Local(after, tag) == Get(filled, tag) {
        assert Local(locals, tag) == Get(slots, tag);
      }
    }
  }

  /** Every arm of the `match` agrees with the loop rule at its tag. */
  lemma ArmAgrees(tag: Tokens.Tag, s: Bytes, locals: ReadGroupLocals, slots: Slots)
    requires Holds(locals, slots)
    ensures Agree(ReadGroupArm(tag, s, locals), TagValueStep(GRAMMAR, tag, s, slots))
  {
    if tag == ID {
      FillIdAgrees(s, locals, slots);
    } else if tag == BC {
      FillBarcodeAgrees(s, locals, slots);
    } else if tag == CN {
      FillCenterAgrees(s, locals, slots);
    } else if tag == DS {
      FillDescriptionAgrees(s, locals, slots);
    } else if tag == DT {
      FillDateAgrees(s, locals, slots);
    } else if tag == FO {
      FillFlowOrderAgrees(s, locals, slots);
    } else if tag == KS {
      FillKeySequenceAgrees(s, locals, slots);
    } else if tag == LB {
      FillLibraryAgrees(s, locals, slots);
    } else if tag == PG {
      FillProgramsAgrees(s, locals, slots);
    } else if tag == PI {
      FillInsertSizeAgrees(s, locals, slots);
    } else if tag == PL {
      FillPlatformAgrees(s, locals, slots);
    } else if tag == PM {
      FillPlatformModelAgrees(s, locals, slots);
    } else if tag == PU {
      FillPlatformUnitAgrees(s, locals, slots);
    } else if tag == SM {
      FillSampleAgrees(s, locals, slots);
    }
  }

  /** One pass of the loop body agrees with one pass of the loop rule. */
  lemma FieldAgrees(s: Bytes, locals: ReadGroupLocals, slots: Slots)
    requires Holds(locals, slots)
    ensures Agree(ReadGroupField(s, locals), FieldStep(GRAMMAR, s, slots))
  {
    var h := FieldHead(s);
    if h.Done? {
      ArmAgrees(h.value, h.rest, locals, slots);
    }
  }

  /** The record the loop's locals make is the record the filled slots build. */
  lemma BuildHolds(l: ReadGroupLocals, slots: Slots)
    requires Holds(l, slots)
    ensures Build(slots) == if l.id.None? then Err(MissingRadGroupId) else 
      Ok(ReadGroup(l.id.value, l.barcode, l.center, l.description, l.date, l.flowOrder, l.keySequence, l.library, l.programs, l.insertSize, l.platform, l.platformModel, l.platformUnit, l.sample))
  {
    assert Local(l, ID) == Get(slots, ID);
    TextLocal(slots, ID, l.id);
    assert Local(l, BC) == Get(slots, BC);
    TextLocal(slots, BC, l.barcode);
    assert Local(l, CN) == Get(slots, CN);
    TextLocal(slots, CN, l.center);
    assert Local(l, DS) == Get(slots, DS);
    TextLocal(slots, DS, l.description);
    assert Local(l, DT) == Get(slots, DT);
    TextLocal(slots, DT, l.date);
    assert Local(l, FO) == Get(slots, FO);
    TextLocal(slots, FO, l.flowOrder);
    assert Local(l, KS) == Get(slots, KS);
    TextLocal(slots, KS, l.keySequence);
    assert Local(l, LB) == Get(slots, LB);
    TextLocal(slots, LB, l.library);
    assert Local(l, PG) == Get(slots, PG);
    TextLocal(slots, PG, l.programs);
    assert Local(l, PI) == Get(slots, PI);
    InsertSizeLocal(slots, PI, l.insertSize);
    assert Local(l, PL) == Get(slots, PL);
    PlatformLocal(slots, PL, l.platform);
    assert Local(l, PM) == Get(slots, PM);
    TextLocal(slots, PM, l.platformModel);
    assert Local(l, PU) == Get(slots, PU);
    TextLocal(slots, PU, l.platformUnit);
    assert Local(l, SM) == Get(slots, SM);
    TextLocal(slots, SM, l.sample);
  }

  /** `parse_read_group`: the fields of a `@RG` line after its record code.
      Each `?` of the source is a `:-`, which hands back the error together
      with where the cursor stands. */
  method ParseReadGroup(s: Bytes) returns (p: Parsed<ReadGroup>)
    ensures p == ReadGroupGrammar.ParseReadGroup(s)
  {
    var locals := ReadGroupLocals(Option.None, Option.None, Option.None, Option.None, Option.None, Option.None, Option.None, Option.None, Option.None, Option.None, Option.None, Option.None, Option.None, Option.None);
    ghost var slots: Slots := map[];
    var rest := s;
    while rest != []
      invariant Loop(GRAMMAR, rest, slots) == Loop(GRAMMAR, s, map[])
      invariant Holds(locals, slots)
      decreases |rest|
    {
      FieldAgrees(rest, locals, slots);
      LoopStep(GRAMMAR, rest, slots);
      var next :- ReadGroupField(rest, locals);
      slots := FieldStep(GRAMMAR, rest, slots).value;
      locals, rest := next.value, next.rest;
    }
    BuildHolds(locals, slots);
    var l := locals;
    if l.id.None? {
      return Failed(MissingRadGroupId, rest);
    }
    p := Done(ReadGroup(l.id.value, l.barcode, l.center, l.description, l.date, l.flowOrder, l.keySequence, l.library, l.programs, l.insertSize, l.platform, l.platformModel, l.platformUnit, l.sample), rest);
  }
}
