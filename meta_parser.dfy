/** `parse_meta` (src/header/parser/meta.rs) as it runs: a `while` loop
    over the cursor that fills one `Option` local per tag, proved to end
    where `MetaGrammar.ParseMeta` says, with the same result. */
module MetaParser {
  import opened Bytes
  import opened Errors
  import opened Numbers
  import opened HeaderTypes
  import Tokens
  import opened Fields
  import opened MetaGrammar

  /** The `Option` locals of `parse_meta`, one per tag. */
  datatype MetaLocals = MetaLocals(
    version: Option<Version>,             // VN
    sortOrder: Option<SortOrder>,         // SO
    grouping: Option<AlignmentGrouping>,  // GO
    subSorting: Option<Bytes>)            // SS

  /** The local that holds a tag's value, as a slot; `None` for a tag the
      record does not know. */
  function Local(locals: MetaLocals, tag: Tokens.Tag): Option<Slot> {
    if tag == VN then Wrap(locals.version, AsVersion)
    else if tag == SO then Wrap(locals.sortOrder, AsSortOrder)
    else if tag == GO then Wrap(locals.grouping, AsGrouping)
    else if tag == SS then Wrap(locals.subSorting, AsText)
    else Option.None
  }

  /** The locals are the slots the loop rule has filled. */
  ghost predicate Holds(locals: MetaLocals, slots: Slots) {
    forall tag :: Local(locals, tag) == Get(slots, tag)
  }

  /** One pass of the loop body: the tab, the tag and the `:`, then the
      `match` on the tag. */
  function MetaField(s: Bytes, locals: MetaLocals): Parsed<MetaLocals> {
    var delimiter :- Tokens.EatFieldDelimiter(s);
    var tag :- Tokens.ParseTag(delimiter.rest);
    var separator :- Tokens.EatKvSeparator(tag.rest);
    MetaArm(tag.value, separator.rest, locals)
  }

  /** The `match tag` of the loop body; any other tag is `UnknownTag`. */
  function MetaArm(tag: Tokens.Tag, s: Bytes, locals: MetaLocals): Parsed<MetaLocals> {
    if tag == VN then FillVersion(s, locals)
    else if tag == SO then FillSortOrder(s, locals)
    else if tag == GO then FillGrouping(s, locals)
    else if tag == SS then FillSubSorting(s, locals)
    else Failed(UnknownTag, s)
  }

  /** The `VN` arm. */
  function FillVersion(s: Bytes, locals: MetaLocals): Parsed<MetaLocals> {
    var v :- FillSlot(s, locals.version, VersionValue);
    Done(locals.(version := v.value), v.rest)
  }

  /** The `SO` arm. */
  function FillSortOrder(s: Bytes, locals: MetaLocals): Parsed<MetaLocals> {
    var v :- FillSlot(s, locals.sortOrder, SortOrderValue);
    Done(locals.(sortOrder := v.value), v.rest)
  }

  /** The `GO` arm. */
  function FillGrouping(s: Bytes, locals: MetaLocals): Parsed<MetaLocals> {
    var v :- FillSlot(s, locals.grouping, GroupingValue);
    Done(locals.(grouping := v.value), v.rest)
  }

  /** The `SS` arm. */
  function FillSubSorting(s: Bytes, locals: MetaLocals): Parsed<MetaLocals> {
    var v :- FillSlot(s, locals.subSorting, Tokens.StrValue);
    Done(locals.(subSorting := v.value), v.rest)
  }

  /** A pass over the locals and a pass of the loop rule stop at the same
      place with the same error, or both go on, the locals holding the new
      slots. */
  ghost predicate Agree(p: Parsed<MetaLocals>, q: Parsed<Slots>) {
    && (p.Failed? <==> q.Failed?)
    && p.rest == q.rest
    && (p.Failed? ==> p.error == q.error)
    && (p.Done? ==> Holds(p.value, q.value))
  }

  lemma FillVersionAgrees(s: Bytes, locals: MetaLocals, slots: Slots)
    requires Holds(locals, slots)
    ensures Agree(FillVersion(s, locals), TagValueStep(GRAMMAR, VN, s, slots))
  {
    assert ReadsWith(GRAMMAR, VN, VersionValue, AsVersion);
    assert Local(locals, VN) == Get(slots, VN);
    FillSlotStep(GRAMMAR, VN, s, locals.version, VersionValue, AsVersion, slots);
    var v := FillSlot(s, locals.version, VersionValue);
    if v.Done? {
      var after, filled := locals.(version := v.value), slots[VN := AsVersion(v.value.value)];
      forall tag ensures Local(after, tag) == Get(filled, tag) {
        assert Local(locals, tag) == Get(slots, tag);
      }
    }
  }

  lemma FillSortOrderAgrees(s: Bytes, locals: MetaLocals, slots: Slots)
    requires Holds(locals, slots)
    ensures Agree(FillSortOrder(s, locals), TagValueStep(GRAMMAR, SO, s, slots))
  {
    assert ReadsWith(GRAMMAR, SO, SortOrderValue, AsSortOrder);
    assert Local(locals, SO) == Get(slots, SO);
    FillSlotStep(GRAMMAR, SO, s, locals.sortOrder, SortOrderValue, AsSortOrder, slots);
    var v := FillSlot(s, locals.sortOrder, SortOrderValue);
    if v.Done? {
      var after, filled := locals.(sortOrder := v.value), slots[SO := AsSortOrder(v.value.value)];
      forall tag ensures Local(after, tag) == Get(filled, tag) {
        assert Local(locals, tag) == Get(slots, tag);
      }
    }
  }

  lemma FillGroupingAgrees(s: Bytes, locals: MetaLocals, slots: Slots)
    requires Holds(locals, slots)
    ensures Agree(FillGrouping(s, locals), TagValueStep(GRAMMAR, GO, s, slots))
  {
    assert ReadsWith(GRAMMAR, GO, GroupingValue, AsGrouping);
    assert Local(locals, GO) == Get(slots, GO);
    FillSlotStep(GRAMMAR, GO, s, locals.grouping, GroupingValue, AsGrouping, slots);
    var v := FillSlot(s, locals.grouping, GroupingValue);
    if v.Done? {
      var after, filled := locals.(grouping := v.value), slots[GO := AsGrouping(v.value.value)];
      forall tag ensures Local(after, tag) == Get(filled, tag) {
        assert Local(locals, tag) == Get(slots, tag);
      }
    }
  }

  lemma FillSubSortingAgrees(s: Bytes, locals: MetaLocals, slots: Slots)
    requires Holds(locals, slots)
    ensures Agree(FillSubSorting(s, locals), TagValueStep(GRAMMAR, SS, s, slots))
  {
    assert ReadsWith(GRAMMAR, SS, Tokens.StrValue, AsText);
    assert Local(locals, SS) == Get(slots, SS);
    FillSlotStep(GRAMMAR, SS, s, locals.subSorting, Tokens.StrValue, AsText, slots);
    var v := FillSlot(s, locals.subSorting, Tokens.StrValue);
    if v.Done? {
      var after, filled := locals.(subSorting := v.value), slots[SS := AsText(v.value.value)];
      forall tag ensures Local(after, tag) == Get(filled, tag) {
        assert Local(locals, tag) == Get(slots, tag);
      }
    }
  }

  /** Every arm of the `match` agrees with the loop rule at its tag. */
  lemma ArmAgrees(tag: Tokens.Tag, s: Bytes, locals: MetaLocals, slots: Slots)
    requires Holds(locals, slots)
    ensures Agree(MetaArm(tag, s, locals), TagValueStep(GRAMMAR, tag, s, slots))
  {
    if tag == VN {
      FillVersionAgrees(s, locals, slots);
    } else if tag == SO {
      FillSortOrderAgrees(s, locals, slots);
    } else if tag == GO {
      FillGroupingAgrees(s, locals, slots);
    } else if tag == SS {
      FillSubSortingAgrees(s, locals, slots);
    }
  }

  /** One pass of the loop body agrees with one pass of the loop rule. */
  lemma FieldAgrees(s: Bytes, locals: MetaLocals, slots: Slots)
    requires Holds(locals, slots)
    ensures Agree(MetaField(s, locals), FieldStep(GRAMMAR, s, slots))
  {
    var h := FieldHead(s);
    if h.Done? {
      ArmAgrees(h.value, h.rest, locals, slots);
    }
  }

  /** The record the loop's locals make is the record the filled slots build. */
  lemma BuildHolds(l: MetaLocals, slots: Slots)
    requires Holds(l, slots)
    ensures Build(slots) == if l.version.None? then Err(MissingVersion) else 
      Ok(HeaderMeta(l.version.value, l.sortOrder, l.grouping, l.subSorting))
  {
    assert Local(l, VN) == Get(slots, VN);
    VersionLocal(slots, VN, l.version);
    assert Local(l, SO) == Get(slots, SO);
    SortOrderLocal(slots, SO, l.sortOrder);
    assert Local(l, GO) == Get(slots, GO);
    GroupingLocal(slots, GO, l.grouping);
    assert Local(l, SS) == Get(slots, SS);
    TextLocal(slots, SS, l.subSorting);
  }

  /** `parse_meta`: the fields of a `@HD` line after its record code.
      Each `?` of the source is a `:-`, which hands back the error together
      with where the cursor stands. */
  method ParseMeta(s: Bytes) returns (p: Parsed<HeaderMeta>)
    ensures p == MetaGrammar.ParseMeta(s)
  {
    var locals := MetaLocals(Option.None, Option.None, Option.None, Option.None);
    ghost var slots: Slots := map[];
    var rest := s;
    while rest != []
      invariant Loop(GRAMMAR, rest, slots) == Loop(GRAMMAR, s, map[])
      invariant Holds(locals, slots)
      decreases |rest|
    {
      FieldAgrees(rest, locals, slots);
      LoopStep(GRAMMAR, rest, slots);
      var next :- MetaField(rest, locals);
      slots := FieldStep(GRAMMAR, rest, slots).value;
      locals, rest := next.value, next.rest;
    }
    BuildHolds(locals, slots);
    var l := locals;
    if l.version.None? {
      return Failed(MissingVersion, rest);
    }
    p := Done(HeaderMeta(l.version.value, l.sortOrder, l.grouping, l.subSorting), rest);
  }
}
