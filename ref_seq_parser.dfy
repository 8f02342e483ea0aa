/** `parse_ref_seq` (src/header/parser/ref_seq.rs) as it runs: a `while` loop
    over the cursor that fills one `Option` local per tag, proved to end
    where `RefSeqGrammar.ParseRefSeq` says, with the same result. */
module RefSeqParser {
  import opened Bytes
  import opened Errors
  import opened Numbers
  import opened HeaderTypes
  import Tokens
  import opened Fields
  import opened RefSeqGrammar

  /** The `Option` locals of `parse_ref_seq`, one per tag. */
  datatype RefSeqLocals = RefSeqLocals(
    name: Option<Bytes>,           // SN
    length: Option<u64>,           // LN
    altLocus: Option<Bytes>,       // AH
    altNames: Option<seq<Bytes>>,  // AN
    assemblyId: Option<Bytes>,     // AS
    description: Option<Bytes>,    // DS
    checksum: Option<Bytes>,       // M5
    species: Option<Bytes>,        // SP
    topology: Option<Topology>,    // TP
    uri: Option<Bytes>)            // UR

  /** The local that holds a tag's value, as a slot; `None` for a tag the
      record does not know. */
  function Local(locals: RefSeqLocals, tag: Tokens.Tag): Option<Slot> {
    if tag == SN then Wrap(locals.name, AsText)
    else if tag == LN then Wrap(locals.length, AsLength)
    else if tag == AH then Wrap(locals.altLocus, AsText)
    else if tag == AN then Wrap(locals.altNames, AsNames)
    else if tag == AS then Wrap(locals.assemblyId, AsText)
    else if tag == DS then Wrap(locals.description, AsText)
    else if tag == M5 then Wrap(locals.checksum, AsText)
    else if tag == SP then Wrap(locals.species, AsText)
    else if tag == TP then Wrap(locals.topology, AsTopology)
    else if tag == UR then Wrap(locals.uri, AsText)
    else Option.None
  }

  /** The locals are the slots the loop rule has filled. */
  ghost predicate Holds(locals: RefSeqLocals, slots: Slots) {
    forall tag :: Local(locals, tag) == Get(slots, tag)
  }

  /** One pass of the loop body: the tab, the tag and the `:`, then the
      `match` on the tag. */
  function RefSeqField(s: Bytes, locals: RefSeqLocals): Parsed<RefSeqLocals> {
    var delimiter :- Tokens.EatFieldDelimiter(s);
    var tag :- Tokens.ParseTag(delimiter.rest);
    var separator :- Tokens.EatKvSeparator(tag.rest);
    RefSeqArm(tag.value, separator.rest, locals)
  }

  /** The `match tag` of the loop body; any other tag is `UnknownTag`. */
  function RefSeqArm(tag: Tokens.Tag, s: Bytes, locals: RefSeqLocals): Parsed<RefSeqLocals> {
    if tag == SN then FillName(s, locals)
    else if tag == LN then FillLength(s, locals)
    else if tag == AH then FillAltLocus(s, locals)
    else if tag == AN then FillAltNames(s, locals)
    else if tag == AS then FillAssemblyId(s, locals)
    else if tag == DS then FillDescription(s, locals)
    else if tag == M5 then FillChecksum(s, locals)
    else if tag == SP then FillSpecies(s, locals)
    else if tag == TP then FillTopology(s, locals)
    else if tag == UR then FillUri(s, locals)
    else Failed(UnknownTag, s)
  }

  /** The `SN` arm. */
  function FillName(s: Bytes, locals: RefSeqLocals): Parsed<RefSeqLocals> {
    var v :- FillSlot(s, locals.name, Tokens.StrValue);
    Done(locals.(name := v.value), v.rest)
  }

  /** The `LN` arm. */
  function FillLength(s: Bytes, locals: RefSeqLocals): Parsed<RefSeqLocals> {
    var v :- FillSlot(s, locals.length, LenValue);
    Done(locals.(length := v.value), v.rest)
  }

  /** The `AH` arm. */
  function FillAltLocus(s: Bytes, locals: RefSeqLocals): Parsed<RefSeqLocals> {
    var v :- FillSlot(s, locals.altLocus, Tokens.StrValue);
    Done(locals.(altLocus := v.value), v.rest)
  }

  /** The `AN` arm. */
  function FillAltNames(s: Bytes, locals: RefSeqLocals): Parsed<RefSeqLocals> {
    var v :- FillSlot(s, locals.altNames, AltNamesValue);
    Done(locals.(altNames := v.value), v.rest)
  }

  /** The `AS` arm. */
  function FillAssemblyId(s: Bytes, locals: RefSeqLocals): Parsed<RefSeqLocals> {
    var v :- FillSlot(s, locals.assemblyId, Tokens.StrValue);
    Done(locals.(assemblyId := v.value), v.rest)
  }

  /** The `DS` arm. */
  function FillDescription(s: Bytes, locals: RefSeqLocals): Parsed<RefSeqLocals> {
    var v :- FillSlot(s, locals.description, Tokens.StrValue);
    Done(locals.(description := v.value), v.rest)
  }

  /** The `M5` arm. */
  function FillChecksum(s: Bytes, locals: RefSeqLocals): Parsed<RefSeqLocals> {
    var v :- FillSlot(s, locals.checksum, Tokens.StrValue);
    Done(locals.(checksum := v.value), v.rest)
  }

  /** The `SP` arm. */
  function FillSpecies(s: Bytes, locals: RefSeqLocals): Parsed<RefSeqLocals> {
    var v :- FillSlot(s, locals.species, Tokens.StrValue);
    Done(locals.(species := v.value), v.rest)
  }

  /** The `TP` arm. */
  function FillTopology(s: Bytes, locals: RefSeqLocals): Parsed<RefSeqLocals> {
    var v :- FillSlot(s, locals.topology, TopologyValue);
    Done(locals.(topology := v.value), v.rest)
  }

  /** The `UR` arm. */
  function FillUri(s: Bytes, locals: RefSeqLocals): Parsed<RefSeqLocals> {
    var v :- FillSlot(s, locals.uri, Tokens.StrValue);
    Done(locals.(uri := v.value), v.rest)
  }

  /** A pass over the locals and a pass of the loop rule stop at the same
      place with the same error, or both go on, the locals holding the new
      slots. */
  ghost predicate Agree(p: Parsed<RefSeqLocals>, q: Parsed<Slots>) {
    && (p.Failed? <==> q.Failed?)
    && p.rest == q.rest
    && (p.Failed? ==> p.error == q.error)
    && (p.Done? ==> Holds(p.value, q.value))
  }

  lemma FillNameAgrees(s: Bytes, locals: RefSeqLocals, slots: Slots)
    requires Holds(locals, slots)
    ensures Agree(FillName(s, locals), TagValueStep(GRAMMAR, SN, s, slots))
  {
    assert ReadsWith(GRAMMAR, SN, Tokens.StrValue, AsText);
    assert Local(locals, SN) == Get(slots, SN);
    FillSlotStep(GRAMMAR, SN, s, locals.name, Tokens.StrValue, AsText, slots);
    var v := FillSlot(s, locals.name, Tokens.StrValue);
    if v.Done? {
      var after, filled := locals.(name := v.value), slots[SN := AsText(v.value.value)];
      forall tag ensures Local(after, tag) == Get(filled, tag) {
        assert Local(locals, tag) == Get(slots, tag);
      }
    }
  }

  lemma FillLengthAgrees(s: Bytes, locals: RefSeqLocals, slots: Slots)
    requires Holds(locals, slots)
    ensures Agree(FillLength(s, locals), TagValueStep(GRAMMAR, LN, s, slots))
  {
    assert ReadsWith(GRAMMAR, LN, LenValue, AsLength);
    assert Local(locals, LN) == Get(slots, LN);
    FillSlotStep(GRAMMAR, LN, s, locals.length, LenValue, AsLength, slots);
    var v := FillSlot(s, locals.length, LenValue);
    if v.Done? {
      var after, filled := locals.(length := v.value), slots[LN := AsLength(v.value.value)];
      forall tag ensures Local(after, tag) == Get(filled, tag) {
        assert Local(locals, tag) == Get(slots, tag);
      }
    }
  }

  lemma FillAltLocusAgrees(s: Bytes, locals: RefSeqLocals, slots: Slots)
    requires Holds(locals, slots)
    ensures Agree(FillAltLocus(s, locals), TagValueStep(GRAMMAR, AH, s, slots))
  {
    assert ReadsWith(GRAMMAR, AH, Tokens.StrValue, AsText);
    assert Local(locals, AH) == Get(slots, AH);
    FillSlotStep(GRAMMAR, AH, s, locals.altLocus, Tokens.StrValue, AsText, slots);
    var v := FillSlot(s, locals.altLocus, Tokens.StrValue);
    if v.Done? {
      var after, filled := locals.(altLocus := v.value), slots[AH := AsText(v.value.value)];
      forall tag ensures Local(after, tag) == Get(filled, tag) {
        assert Local(locals, tag) == Get(slots, tag);
      }
    }
  }

  lemma FillAltNamesAgrees(s: Bytes, locals: RefSeqLocals, slots: Slots)
    requires Holds(locals, slots)
    ensures Agree(FillAltNames(s, locals), TagValueStep(GRAMMAR, AN, s, slots))
  {
    assert ReadsWith(GRAMMAR, AN, AltNamesValue, AsNames);
    assert Local(locals, AN) == Get(slots, AN);
    FillSlotStep(GRAMMAR, AN, s, locals.altNames, AltNamesValue, AsNames, slots);
    var v := FillSlot(s, locals.altNames, AltNamesValue);
    if v.Done? {
      var after, filled := locals.(altNames := v.value), slots[AN := AsNames(v.value.value)];
      forall tag ensures Local(after, tag) == Get(filled, tag) {
        assert Local(locals, tag) == Get(slots, tag);
      }
    }
  }

  lemma FillAssemblyIdAgrees(s: Bytes, locals: RefSeqLocals, slots: Slots)
    requires Holds(locals, slots)
    ensures Agree(FillAssemblyId(s, locals), TagValueStep(GRAMMAR, AS, s, slots))
  {
    assert ReadsWith(GRAMMAR, AS, Tokens.StrValue, AsText);
    assert Local(locals, AS) == Get(slots, AS);
    FillSlotStep(GRAMMAR, AS, s, locals.assemblyId, Tokens.StrValue, AsText, slots);
    var v := FillSlot(s, locals.assemblyId, Tokens.StrValue);
    if v.Done? {
      var after, filled := locals.(assemblyId := v.value), slots[AS := AsText(v.value.value)];
      forall tag ensures Local(after, tag) == Get(filled, tag) {
        assert Local(locals, tag) == Get(slots, tag);
      }
    }
  }

  lemma FillDescriptionAgrees(s: Bytes, locals: RefSeqLocals, slots: Slots)
    requires Holds(locals, slots)
    ensures Agree(FillDescription(s, locals), TagValueStep(GRAMMAR, DS, s, slots))
  {
    assert ReadsWith(GRAMMAR, DS, Tokens.StrValue, AsText);
    assert Local(locals, DS) == Get(slots, DS);
    FillSlotStep(GRAMMAR, DS, s, locals.description, Tokens.StrValue, AsText, slots);
    var v := FillSlot(s, locals.description, Tokens.StrValue);
    if v.Done? {
      var after, filled := locals.(description := v.value), slots[DS := AsText(v.value.value)];
      forall tag ensures Local(after, tag) == Get(filled, tag) {
        assert Local(locals, tag) == Get(slots, tag);
      }
    }
  }

  lemma FillChecksumAgrees(s: Bytes, locals: RefSeqLocals, slots: Slots)
    requires Holds(locals, slots)
    ensures Agree(FillChecksum(s, locals), TagValueStep(GRAMMAR, M5, s, slots))
  {
    assert ReadsWith(GRAMMAR, M5, Tokens.StrValue, AsText);
    assert Local(locals, M5) == Get(slots, M5);
    FillSlotStep(GRAMMAR, M5, s, locals.checksum, Tokens.StrValue, AsText, slots);
    var v := FillSlot(s, locals.checksum, Tokens.StrValue);
    if v.Done? {
      var after, filled := locals.(checksum := v.value), slots[M5 := AsText(v.value.value)];
      forall tag ensures Local(after, tag) == Get(filled, tag) {
        assert Local(locals, tag) == Get(slots, tag);
      }
    }
  }

  lemma FillSpeciesAgrees(s: Bytes, locals: RefSeqLocals, slots: Slots)
    requires Holds(locals, slots)
    ensures Agree(FillSpecies(s, locals), TagValueStep(GRAMMAR, SP, s, slots))
  {
    assert ReadsWith(GRAMMAR, SP, Tokens.StrValue, AsText);
    assert Local(locals, SP) == Get(slots, SP);
    FillSlotStep(GRAMMAR, SP, s, locals.species, Tokens.StrValue, AsText, slots);
    var v := FillSlot(s, locals.species, Tokens.StrValue);
    if v.Done? {
      var after, filled := locals.(species := v.value), slots[SP := AsText(v.value.value)];
      forall tag ensures Local(after, tag) == Get(filled, tag) {
        assert Local(locals, tag) == Get(slots, tag);
      }
    }
  }

  lemma FillTopologyAgrees(s: Bytes, locals: RefSeqLocals, slots: Slots)
    requires Holds(locals, slots)
    ensures Agree(FillTopology(s, locals), TagValueStep(GRAMMAR, TP, s, slots))
  {
    assert ReadsWith(GRAMMAR, TP, TopologyValue, AsTopology);
    assert Local(locals, TP) == Get(slots, TP);
    FillSlotStep(GRAMMAR, TP, s, locals.topology, TopologyValue, AsTopology, slots);
    var v := FillSlot(s, locals.topology, TopologyValue);
    if v.Done? {
      var after, filled := locals.(topology := v.value), slots[TP := AsTopology(v.value.value)];
      forall tag ensures Local(after, tag) == Get(filled, tag) {
        assert Local(locals, tag) == Get(slots, tag);
      }
    }
  }

  lemma FillUriAgrees(s: Bytes, locals: RefSeqLocals, slots: Slots)
    requires Holds(locals, slots)
    ensures Agree(FillUri(s, locals), TagValueStep(GRAMMAR, UR, s, slots))
  {
    assert ReadsWith(GRAMMAR, UR, Tokens.StrValue, AsText);
    assert Local(locals, UR) == Get(slots, UR);
    FillSlotStep(GRAMMAR, UR, s, locals.uri, Tokens.StrValue, AsText, slots);
    var v := FillSlot(s, locals.uri, Tokens.StrValue);
    if v.Done? {
      var after, filled := locals.(uri := v.value), slots[UR := AsText(v.value.value)];
      forall tag ensures Local(after, tag) == Get(filled, tag) {
        assert Local(locals, tag) == Get(slots, tag);
      }
    }
  }

  /** Every arm of the `match` agrees with the loop rule at its tag. */
  lemma ArmAgrees(tag: Tokens.Tag, s: Bytes, locals: RefSeqLocals, slots: Slots)
    requires Holds(locals, slots)
    ensures Agree(RefSeqArm(tag, s, locals), TagValueStep(GRAMMAR, tag, s, slots))
  {
    if tag == SN {
      FillNameAgrees(s, locals, slots);
    } else if tag == LN {
      FillLengthAgrees(s, locals, slots);
    } else if tag == AH {
      FillAltLocusAgrees(s, locals, slots);
    } else if tag == AN {
      FillAltNamesAgrees(s, locals, slots);
    } else if tag == AS {
      FillAssemblyIdAgrees(s, locals, slots);
    } else if tag == DS {
      FillDescriptionAgrees(s, locals, slots);
    } else if tag == M5 {
      FillChecksumAgrees(s, locals, slots);
    } else if tag == SP {
      FillSpeciesAgrees(s, locals, slots);
    } else if tag == TP {
      FillTopologyAgrees(s, locals, slots);
    } else if tag == UR {
      FillUriAgrees(s, locals, slots);
    }
  }

  /** One pass of the loop body agrees with one pass of the loop rule. */
  lemma FieldAgrees(s: Bytes, locals: RefSeqLocals, slots: Slots)
    requires Holds(locals, slots)
    ensures Agree(RefSeqField(s, locals), FieldStep(GRAMMAR, s, slots))
  {
    var h := FieldHead(s);
    if h.Done? {
      ArmAgrees(h.value, h.rest, locals, slots);
    }
  }

  /** The record the loop's locals make is the record the filled slots build. */
  lemma BuildHolds(l: RefSeqLocals, slots: Slots)
    requires Holds(l, slots)
    ensures Build(slots) == if l.name.None? then Err(MissingRefSeqName) else if l.length.None? then Err(MissingRefSeqLen) else 
      Ok(ReferenceSeq(l.name.value, l.length.value, l.altLocus, l.altNames, l.assemblyId, l.description, l.checksum, l.species, l.topology, l.uri))
  {
    assert Local(l, SN) == Get(slots, SN);
    TextLocal(slots, SN, l.name);
    assert Local(l, LN) == Get(slots, LN);
    LengthLocal(slots, LN, l.length);
    assert Local(l, AH) == Get(slots, AH);
    TextLocal(slots, AH, l.altLocus);
    assert Local(l, AN) == Get(slots, AN);
    NamesLocal(slots, AN, l.altNames);
    assert Local(l, AS) == Get(slots, AS);
    TextLocal(slots, AS, l.assemblyId);
    assert Local(l, DS) == Get(slots, DS);
    TextLocal(slots, DS, l.description);
    assert Local(l, M5) == Get(slots, M5);
    TextLocal(slots, M5, l.checksum);
    assert Local(l, SP) == Get(slots, SP);
    TextLocal(slots, SP, l.species);
    assert Local(l, TP) == Get(slots, TP);
    TopologyLocal(slots, TP, l.topology);
    assert Local(l, UR) == Get(slots, UR);
    TextLocal(slots, UR, l.uri);
  }

  /** `parse_ref_seq`: the fields of a `@SQ` line after its record code.
      Each `?` of the source is a `:-`, which hands back the error together
      with where the cursor stands. */
  method ParseRefSeq(s: Bytes) returns (p: Parsed<ReferenceSeq>)
    ensures p == RefSeqGrammar.ParseRefSeq(s)
  {
    var locals := RefSeqLocals(Option.None, Option.None, Option.None, Option.None, Option.None, Option.None, Option.None, Option.None, Option.None, Option.None);
    ghost var slots: Slots := map[];
    var rest := s;
    while rest != []
      invariant Loop(GRAMMAR, rest, slots) == Loop(GRAMMAR, s, map[])
      invariant Holds(locals, slots)
      decreases |rest|
    {
      FieldAgrees(rest, locals, slots);
      LoopStep(GRAMMAR, rest, slots);
      var next :- RefSeqField(rest, locals);
      slots := FieldStep(GRAMMAR, rest, slots).value;
      locals, rest := next.value, next.rest;
    }
    BuildHolds(locals, slots);
    var l := locals;
    if l.name.None? {
      return Failed(MissingRefSeqName, rest);
    }
    if l.length.None? {
      return Failed(MissingRefSeqLen, rest);
    }
    p := Done(ReferenceSeq(l.name.value, l.length.value, l.altLocus, l.altNames, l.assemblyId, l.description, l.checksum, l.species, l.topology, l.uri), rest);
  }
}
