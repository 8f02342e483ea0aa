/** The loop shared by the four tagged header records (`parse_meta`,
    `parse_ref_seq`, `parse_read_group`, `parse_program`): while bytes remain,
    read a tab, a two-byte tag, a `:`, and then the tag's value, storing it in
    the tag's slot at most once. A record kind is a `Grammar`: which tags it
    knows and how it reads each tag's value.

    The second half of the module states the same rule over a list of
    (tag, value) fields and proves that the byte-level loop implements it. */
module Fields {
  import opened Bytes
  import opened Errors
  import opened Numbers
  import opened Tokens
  import opened HeaderTypes

  /** The value stored in one tag's slot. */
  datatype Slot =
    | TextSlot(text: Bytes)
    | NamesSlot(names: seq<Bytes>)
    | VersionSlot(version: Version)
    | SortOrderSlot(sortOrder: SortOrder)
    | GroupingSlot(grouping: AlignmentGrouping)
    | LengthSlot(length: u64)
    | TopologySlot(topology: Topology)
    | InsertSizeSlot(insertSize: u32)
    | PlatformSlot(platform: Platform)

  // The constructors of `Slot` as functions, to hand to `FillSlot`.
  function AsText(x: Bytes): Slot { TextSlot(x) }
  function AsNames(x: seq<Bytes>): Slot { NamesSlot(x) }
  function AsVersion(x: Version): Slot { VersionSlot(x) }
  function AsSortOrder(x: SortOrder): Slot { SortOrderSlot(x) }
  function AsGrouping(x: AlignmentGrouping): Slot { GroupingSlot(x) }
  function AsLength(x: u64): Slot { LengthSlot(x) }
  function AsTopology(x: Topology): Slot { TopologySlot(x) }
  function AsInsertSize(x: u32): Slot { InsertSizeSlot(x) }
  function AsPlatform(x: Platform): Slot { PlatformSlot(x) }

  /** The filled slots, by tag; an absent tag is an empty (`None`) slot. */
  type Slots = map<Tag, Slot>

  /** A tag's slot: `None` while the tag has not been read. */
  function Get(slots: Slots, t: Tag): Option<Slot> {
    if t in slots then Some(slots[t]) else Option.None
  }

  /** An `Option` local of a record loop, seen as a slot. */
  function Wrap<T>(local: Option<T>, wrap: T -> Slot): Option<Slot> {
    match local
    case None => Option.None
    case Some(x) => Some(wrap(x))
  }

  function TextIn(slots: Slots, t: Tag): Option<Bytes> {
    if t in slots && slots[t].TextSlot? then Some(slots[t].text) else Option.None
  }

  function NamesIn(slots: Slots, t: Tag): Option<seq<Bytes>> {
    if t in slots && slots[t].NamesSlot? then Some(slots[t].names) else Option.None
  }

  function VersionIn(slots: Slots, t: Tag): Option<Version> {
    if t in slots && slots[t].VersionSlot? then Some(slots[t].version) else Option.None
  }

  function SortOrderIn(slots: Slots, t: Tag): Option<SortOrder> {
    if t in slots && slots[t].SortOrderSlot? then Some(slots[t].sortOrder) else Option.None
  }

  function GroupingIn(slots: Slots, t: Tag): Option<AlignmentGrouping> {
    if t in slots && slots[t].GroupingSlot? then Some(slots[t].grouping) else Option.None
  }

  function LengthIn(slots: Slots, t: Tag): Option<u64> {
    if t in slots && slots[t].LengthSlot? then Some(slots[t].length) else Option.None
  }

  function TopologyIn(slots: Slots, t: Tag): Option<Topology> {
    if t in slots && slots[t].TopologySlot? then Some(slots[t].topology) else Option.None
  }

  function InsertSizeIn(slots: Slots, t: Tag): Option<u32> {
    if t in slots && slots[t].InsertSizeSlot? then Some(slots[t].insertSize) else Option.None
  }

  function PlatformIn(slots: Slots, t: Tag): Option<Platform> {
    if t in slots && slots[t].PlatformSlot? then Some(slots[t].platform) else Option.None
  }

  // A local that is the slot of its tag is what the record reads from the slots.
  lemma TextLocal(slots: Slots, t: Tag, local: Option<Bytes>)
    requires Get(slots, t) == Wrap(local, AsText)
    ensures TextIn(slots, t) == local
  {
  }

  lemma NamesLocal(slots: Slots, t: Tag, local: Option<seq<Bytes>>)
    requires Get(slots, t) == Wrap(local, AsNames)
    ensures NamesIn(slots, t) == local
  {
  }

  lemma VersionLocal(slots: Slots, t: Tag, local: Option<Version>)
    requires Get(slots, t) == Wrap(local, AsVersion)
    ensures VersionIn(slots, t) == local
  {
  }

  lemma SortOrderLocal(slots: Slots, t: Tag, local: Option<SortOrder>)
    requires Get(slots, t) == Wrap(local, AsSortOrder)
    ensures SortOrderIn(slots, t) == local
  {
  }

  lemma GroupingLocal(slots: Slots, t: Tag, local: Option<AlignmentGrouping>)
    requires Get(slots, t) == Wrap(local, AsGrouping)
    ensures GroupingIn(slots, t) == local
  {
  }

  lemma LengthLocal(slots: Slots, t: Tag, local: Option<u64>)
    requires Get(slots, t) == Wrap(local, AsLength)
    ensures LengthIn(slots, t) == local
  {
  }

  lemma TopologyLocal(slots: Slots, t: Tag, local: Option<Topology>)
    requires Get(slots, t) == Wrap(local, AsTopology)
    ensures TopologyIn(slots, t) == local
  {
  }

  lemma InsertSizeLocal(slots: Slots, t: Tag, local: Option<u32>)
    requires Get(slots, t) == Wrap(local, AsInsertSize)
    ensures InsertSizeIn(slots, t) == local
  {
  }

  lemma PlatformLocal(slots: Slots, t: Tag, local: Option<Platform>)
    requires Get(slots, t) == Wrap(local, AsPlatform)
    ensures PlatformIn(slots, t) == local
  {
  }

  /** A record kind's tag table: the tags it knows and the parser that turns
      a tag's value bytes into its slot. */
  datatype Grammar = Grammar(known: Tag -> bool, interpret: (Tag, Bytes) -> Result<Slot>)

  /** The start of a pass: the tab, the two-byte tag and the `:`. */
  function FieldHead(s: Bytes): (p: Parsed<Tag>)
    ensures p.Done? ==> |s| >= 4 && p.rest == s[4..]
  {
    var d :- EatFieldDelimiter(s);
    var t :- ParseTag(d.rest);
    var k :- EatKvSeparator(t.rest);
    Done(t.value, k.rest)
  }

  /** What the start of a pass reads is the tab, the tag's two bytes and the `:`. */
  lemma HeadText(s: Bytes)
    requires FieldHead(s).Done?
    ensures s == [TAB] + FieldHead(s).value.Text() + [COLON] + FieldHead(s).rest
  {
    var h := FieldHead(s);
    assert s == s[..4] + s[4..];
  }

  /** One pass of the loop body. An unknown tag fails before its value is
      read; the value parser's error comes before the repeated-tag check. */
  function FieldStep(g: Grammar, s: Bytes, slots: Slots): (p: Parsed<Slots>)
    ensures p.Done? ==> |p.rest| < |s|
  {
    var h :- FieldHead(s);
    TagValueStep(g, h.value, h.rest, slots)
  }

  /** The loop body once the tag and its `:` have been read. */
  function TagValueStep(g: Grammar, tag: Tag, s: Bytes, slots: Slots): (p: Parsed<Slots>)
    ensures p.Done? ==> |p.rest| < |s|
  {
    if !g.known(tag) then Failed(UnknownTag, s)
    else
      var v :- ParseValue(s);
      match g.interpret(tag, v.value)
      case Err(e) => Failed(e, v.rest)
      case Ok(slot) =>
        if tag in slots then Failed(RepeatTag, v.rest)
        else Done(slots[tag := slot], v.rest)
  }

  /** `while !s.is_empty() { .. }`: the slots filled once the line is used up,
      or the first error. */
  function Loop(g: Grammar, s: Bytes, slots: Slots): (p: Parsed<Slots>)
    ensures p.Done? ==> p.rest == []
    decreases |s|, 2
  {
    if s == [] then Done(slots, []) else Pass(g, s, slots)
  }

  /** One pass and the passes after it: the tab, the tag and the `:` are
      read, and the loop `Resume`s at the value. */
  function Pass(g: Grammar, s: Bytes, slots: Slots): (p: Parsed<Slots>)
    ensures p.Done? ==> p.rest == []
    decreases |s|, 1
  {
    var h :- FieldHead(s);
    Resume(g, h.value, h.rest, slots)
  }

  /** The rest of the loop from the value of a pass whose tag has been read. */
  function Resume(g: Grammar, tag: Tag, s: Bytes, slots: Slots): (p: Parsed<Slots>)
    ensures p.Done? ==> p.rest == []
    decreases |s|, 0
  {
    var f :- TagValueStep(g, tag, s, slots);
    Loop(g, f.rest, f.value)
  }

  /** A pass of the loop is one `FieldStep`. */
  lemma LoopStep(g: Grammar, s: Bytes, slots: Slots)
    requires s != []
    ensures Loop(g, s, slots) == match FieldStep(g, s, slots)
      case Failed(e, rest) => Failed(e, rest)
      case Done(next, rest) => Loop(g, rest, next)
  {
    var h := FieldHead(s);
    assert Loop(g, s, slots) == Pass(g, s, slots);
    if h.Done? {
      assert Pass(g, s, slots) == Resume(g, h.value, h.rest, slots);
    }
  }

  /** The tag is known, and its value parser is `read` with the parsed value
      stored in the slot `wrap` makes of it. */
  ghost predicate ReadsWith<T>(g: Grammar, tag: Tag, read: Bytes -> Result<T>, wrap: T -> Slot) {
    && g.known(tag)
    && forall raw :: g.interpret(tag, raw) == match read(raw) case Ok(x) => Ok(wrap(x)) case Err(e) => Err(e)
  }

  /** One arm of a record loop, `try_insert_once(&mut slot, parse_x(s)?)?`:
      the value is read and parsed, then put in the slot; a slot that already
      held a value is a repeated tag. Gives the slot as the arm leaves it. */
  function FillSlot<T>(s: Bytes, slot: Option<T>, read: Bytes -> Result<T>): (p: Parsed<Option<T>>)
    ensures p.Done? ==> p.value.Some?
  {
    var value :- ValueThen(s, read);
    var inserted := TryInsertOnce(slot, value.value);
    var _ :- Located(inserted.result, value.rest);
    Done(inserted.slot, value.rest)
  }

  /** An arm fills its slot as the loop rule does: it fails where and as
      `TagValueStep` fails, and otherwise stores the value `wrap` turns into
      the tag's slot. */
  lemma FillSlotStep<T>(g: Grammar, tag: Tag, s: Bytes, slot: Option<T>, read: Bytes -> Result<T>, wrap: T -> Slot, slots: Slots)
    requires ReadsWith(g, tag, read, wrap)
    requires slot.Some? <==> tag in slots
    ensures FillSlot(s, slot, read).Failed? <==> TagValueStep(g, tag, s, slots).Failed?
    ensures FillSlot(s, slot, read).rest == TagValueStep(g, tag, s, slots).rest
    ensures FillSlot(s, slot, read).Failed? ==> FillSlot(s, slot, read).error == TagValueStep(g, tag, s, slots).error
    ensures FillSlot(s, slot, read).Done? ==>
      TagValueStep(g, tag, s, slots).value == slots[tag := wrap(FillSlot(s, slot, read).value.value)]
  {
    var v := ParseValue(s);
    if v.Done? {
      assert g.interpret(tag, v.value) == match read(v.value) case Ok(x) => Ok(wrap(x)) case Err(e) => Err(e);
    }
  }

  // ---------------------------------------------------------------------
  // The same rule over fields

  datatype TagValue = TagValue(tag: Tag, value: Bytes)

  /** A field as it is written on a header line: tab, tag, colon, value. */
  function FieldText(f: TagValue): Bytes {
    [TAB] + f.tag.Text() + [COLON] + f.value
  }

  /** The fields written one after another. */
  function Line(fs: seq<TagValue>): Bytes
    decreases |fs|
  {
    if fs == [] then [] else FieldText(fs[0]) + Line(fs[1..])
  }

  predicate TabFree(fs: seq<TagValue>) {
    forall i :: 0 <= i < |fs| ==> TAB !in fs[i].value
  }

  /** The tags of a list of fields. */
  function TagsOf(fs: seq<TagValue>): (ts: set<Tag>)
    ensures forall i :: 0 <= i < |fs| ==> fs[i].tag in ts
    ensures forall t :: t in ts ==> exists i :: 0 <= i < |fs| && fs[i].tag == t
    decreases |fs|
  {
    if fs == [] then {} else {fs[0].tag} + TagsOf(fs[1..])
  }

  /** The value of the first field carrying tag `t`, if any does. */
  function ValueOf(fs: seq<TagValue>, t: Tag): (v: Option<Bytes>)
    ensures v.None? <==> t !in TagsOf(fs)
    decreases |fs|
  {
    if fs == [] then Option.None
    else if fs[0].tag == t then Some(fs[0].value)
    else ValueOf(fs[1..], t)
  }

  /** A field value read through a value parser; `None` when absent or refused. */
  function Decoded<T>(raw: Option<Bytes>, read: Bytes -> Result<T>): Option<T> {
    match raw
    case None => Option.None
    case Some(b) =>
      match read(b)
      case Ok(v) => Some(v)
      case Err(_) => Option.None
  }

  /** Why a field is refused when the tags in `seen` came before it, if it is. */
  function FieldError(g: Grammar, f: TagValue, seen: set<Tag>): Option<ParseError> {
    if !g.known(f.tag) then Some(UnknownTag)
    else if f.value == [] then Some(MissingValue)
    else
      match g.interpret(f.tag, f.value)
      case Err(e) => Some(e)
      case Ok(_) => if f.tag in seen then Some(RepeatTag) else Option.None
  }

  /** Every field is accepted, given the tags in `seen` and those of the fields before it. */
  predicate Accepted(g: Grammar, fs: seq<TagValue>, seen: set<Tag>) {
    forall i :: 0 <= i < |fs| ==> FieldError(g, fs[i], seen + TagsOf(fs[..i])).None?
  }

  /** The fields taken in order: the first refused field's error, or the
      slots with every field's parsed value added. */
  function Outcome(g: Grammar, fs: seq<TagValue>, slots: Slots): Result<Slots>
    decreases |fs|
  {
    if fs == [] then Ok(slots)
    else
      match FieldError(g, fs[0], slots.Keys)
      case Some(e) => Err(e)
      case None => Outcome(g, fs[1..], slots[fs[0].tag := g.interpret(fs[0].tag, fs[0].value).value])
  }

  lemma TagsOfSlice(fs: seq<TagValue>, i: nat)
    requires 0 < i <= |fs|
    ensures TagsOf(fs[..i]) == {fs[0].tag} + TagsOf(fs[1..][..i - 1])
  {
    assert fs[..i][1..] == fs[1..][..i - 1];
  }

  /** A value is read exactly up to the tab that starts the next field. */
  lemma ValueBeforeTab(v: Bytes, rest: Bytes)
    requires TAB !in v
    requires rest == [] || rest[0] == TAB
    ensures ParseValue(v + rest) == if v == [] then Failed(MissingValue, rest) else Done(v, rest)
  {
    var s := v + rest;
    if rest == [] {
      assert s == v;
      IndexOfAbsent(v, TAB);
    } else {
      assert s == v + [TAB] + rest[1..];
      IndexOfJoined(v, rest[1..], TAB);
    }
    assert s[..|v|] == v && s[|v|..] == rest;
  }

  /** The tab, the tag and the `:` are read without looking at the tag. */
  lemma FieldPrefix(g: Grammar, tag: Tag, afterColon: Bytes, slots: Slots)
    ensures FieldStep(g, [TAB] + tag.Text() + [COLON] + afterColon, slots) == TagValueStep(g, tag, afterColon, slots)
  {
    var afterTag := [COLON] + afterColon;
    var afterTab := tag.Text() + afterTag;
    var s := [TAB] + tag.Text() + [COLON] + afterColon;
    assert s == [TAB] + afterTab;
    assert EatFieldDelimiter(s) == Done((), afterTab);
    assert afterTab[2..] == afterTag;
    assert ParseTag(afterTab) == Done(tag, afterTag);
    assert EatKvSeparator(afterTag) == Done((), afterColon);
  }

  /** A value followed by the rest of the line is read as the rule says. */
  lemma TagValueText(g: Grammar, f: TagValue, rest: Bytes, slots: Slots)
    requires TAB !in f.value
    requires rest == [] || rest[0] == TAB
    ensures var p := TagValueStep(g, f.tag, f.value + rest, slots);
      match FieldError(g, f, slots.Keys)
      case Some(e) => p.Failed? && p.error == e
      case None => p == Done(slots[f.tag := g.interpret(f.tag, f.value).value], rest)
  {
    ValueBeforeTab(f.value, rest);
  }

  /** One field of a line is read as the rule says. */
  lemma FieldStepText(g: Grammar, f: TagValue, rest: Bytes, slots: Slots)
    requires TAB !in f.value
    requires rest == [] || rest[0] == TAB
    ensures var p := FieldStep(g, FieldText(f) + rest, slots);
      match FieldError(g, f, slots.Keys)
      case Some(e) => p.Failed? && p.error == e
      case None => p == Done(slots[f.tag := g.interpret(f.tag, f.value).value], rest)
  {
    var head := [TAB] + f.tag.Text() + [COLON];
    assert FieldText(f) + rest == head + (f.value + rest);
    FieldPrefix(g, f.tag, f.value + rest, slots);
    TagValueText(g, f, rest, slots);
  }

  /** The byte-level loop on a written line gives the field-level outcome. */
  lemma {:induction false} LineLoop(g: Grammar, fs: seq<TagValue>, slots: Slots)
    requires TabFree(fs)
    ensures Loop(g, Line(fs), slots).ToResult() == Outcome(g, fs, slots)
    decreases |fs|
  {
    if fs != [] {
      var rest := Line(fs[1..]);
      assert rest == [] || rest[0] == TAB;
      FieldStepText(g, fs[0], rest, slots);
      assert Line(fs) == FieldText(fs[0]) + rest;
      LoopStep(g, Line(fs), slots);
      if FieldError(g, fs[0], slots.Keys).None? {
        LineLoop(g, fs[1..], slots[fs[0].tag := g.interpret(fs[0].tag, fs[0].value).value]);
      }
    }
  }

  /** A pass that reads a value has read one written field. */
  lemma FieldRead(s: Bytes)
    requires FieldHead(s).Done? && ParseValue(FieldHead(s).rest).Done?
    ensures var h := FieldHead(s); var v := ParseValue(h.rest);
      s == FieldText(TagValue(h.value, v.value)) + v.rest
  {
    var h := FieldHead(s);
    var v := ParseValue(h.rest);
    HeadText(s);
    assert h.rest == v.value + v.rest;
  }

  /** The first pass of a loop that succeeds reads one written field that
      the rule accepts, and the loop goes on after it. */
  lemma FieldOfPass(g: Grammar, s: Bytes, slots: Slots) returns (f: TagValue)
    requires s != [] && Loop(g, s, slots).Done?
    ensures var p := FieldStep(g, s, slots);
      && p.Done? && Loop(g, p.rest, p.value) == Loop(g, s, slots)
      && s == FieldText(f) + p.rest && (p.rest == [] || p.rest[0] == TAB)
      && TAB !in f.value && f.value != []
      && FieldError(g, f, slots.Keys).None?
      && p.value == slots[f.tag := g.interpret(f.tag, f.value).value]
  {
    LoopStep(g, s, slots);
    var h := FieldHead(s);
    var v := ParseValue(h.rest);
    f := TagValue(h.value, v.value);
    FieldRead(s);
    FieldStepText(g, f, v.rest, slots);
  }

  /** Every line the loop accepts is a written list of fields, each with a
      non-empty tab-free value, and the loop's slots are the rule's. */
  lemma {:induction false} LoopReadsFields(g: Grammar, s: Bytes, slots: Slots) returns (fs: seq<TagValue>)
    requires Loop(g, s, slots).Done?
    ensures Line(fs) == s && TabFree(fs)
    ensures forall i :: 0 <= i < |fs| ==> fs[i].value != []
    ensures Outcome(g, fs, slots) == Ok(Loop(g, s, slots).value)
    decreases |s|
  {
    if s == [] {
      fs := [];
    } else {
      var p := FieldStep(g, s, slots);
      var f := FieldOfPass(g, s, slots);
      var tail := LoopReadsFields(g, p.rest, p.value);
      fs := [f] + tail;
      assert fs[0] == f && fs[1..] == tail;
      assert Line(fs) == FieldText(f) + Line(tail);
      assert Outcome(g, fs, slots) == Outcome(g, tail, p.value);
      forall i | 0 <= i < |fs|
        ensures TAB !in fs[i].value && fs[i].value != []
      {
        if i > 0 {
          assert fs[i] == tail[i - 1];
        }
      }
    }
  }

  /** A list of fields is accepted when its first field is, and the rest is
      once that field's tag has been seen. */
  lemma AcceptedCons(g: Grammar, fs: seq<TagValue>, seen: set<Tag>)
    requires fs != []
    ensures Accepted(g, fs, seen) <==>
      FieldError(g, fs[0], seen).None? && Accepted(g, fs[1..], seen + {fs[0].tag})
  {
    assert fs[..0] == [];
    forall i | 0 < i <= |fs[1..]|
      ensures seen + TagsOf(fs[..i]) == seen + {fs[0].tag} + TagsOf(fs[1..][..i - 1])
    {
      TagsOfSlice(fs, i);
    }
    if FieldError(g, fs[0], seen).None? && Accepted(g, fs[1..], seen + {fs[0].tag}) {
      forall i | 0 <= i < |fs|
        ensures FieldError(g, fs[i], seen + TagsOf(fs[..i])).None?
      {
        if i > 0 {
          assert fs[1..][i - 1] == fs[i];
        }
      }
    }
    if Accepted(g, fs, seen) {
      assert FieldError(g, fs[0], seen + TagsOf(fs[..0])).None?;
      forall i | 0 <= i < |fs[1..]|
        ensures FieldError(g, fs[1..][i], seen + {fs[0].tag} + TagsOf(fs[1..][..i])).None?
      {
        assert fs[1..][i] == fs[i + 1];
      }
    }
  }

  /** The fields are taken without error exactly when the list is accepted. */
  lemma {:induction false} OutcomeOk(g: Grammar, fs: seq<TagValue>, slots: Slots)
    ensures Outcome(g, fs, slots).Ok? <==> Accepted(g, fs, slots.Keys)
    decreases |fs|
  {
    if fs != [] {
      AcceptedCons(g, fs, slots.Keys);
      if FieldError(g, fs[0], slots.Keys).None? {
        var next := slots[fs[0].tag := g.interpret(fs[0].tag, fs[0].value).value];
        assert next.Keys == slots.Keys + {fs[0].tag};
        OutcomeOk(g, fs[1..], next);
      }
    }
  }

  /** Taking the fields adds their tags and keeps the slots already filled. */
  lemma {:induction false} OutcomeKeys(g: Grammar, fs: seq<TagValue>, slots: Slots)
    ensures Outcome(g, fs, slots).Ok? ==>
      var r := Outcome(g, fs, slots).value;
      && r.Keys == slots.Keys + TagsOf(fs)
      && (forall t :: t in slots ==> r[t] == slots[t])
    decreases |fs|
  {
    if fs != [] && FieldError(g, fs[0], slots.Keys).None? {
      var next := slots[fs[0].tag := g.interpret(fs[0].tag, fs[0].value).value];
      OutcomeKeys(g, fs[1..], next);
      assert TagsOf(fs) == {fs[0].tag} + TagsOf(fs[1..]);
    }
  }

  /** Every field's tag ends up holding that field's parsed value. */
  lemma {:induction false} OutcomeValues(g: Grammar, fs: seq<TagValue>, slots: Slots)
    ensures Outcome(g, fs, slots).Ok? ==>
      var r := Outcome(g, fs, slots).value;
      forall i :: 0 <= i < |fs| ==> fs[i].tag in r && Ok(r[fs[i].tag]) == g.interpret(fs[i].tag, fs[i].value)
    decreases |fs|
  {
    if fs != [] && FieldError(g, fs[0], slots.Keys).None? {
      var next := slots[fs[0].tag := g.interpret(fs[0].tag, fs[0].value).value];
      OutcomeValues(g, fs[1..], next);
      OutcomeKeys(g, fs[1..], next);
      if Outcome(g, fs, slots).Ok? {
        var r := Outcome(g, fs, slots).value;
        forall i | 0 <= i < |fs|
          ensures fs[i].tag in r && Ok(r[fs[i].tag]) == g.interpret(fs[i].tag, fs[i].value)
        {
          if i > 0 {
            assert fs[1..][i - 1] == fs[i];
          }
        }
      }
    }
  }

  /** The three facts about taking an accepted list of fields, together. */
  lemma OutcomeAccepted(g: Grammar, fs: seq<TagValue>, slots: Slots)
    ensures Outcome(g, fs, slots).Ok? <==> Accepted(g, fs, slots.Keys)
    ensures Outcome(g, fs, slots).Ok? ==>
      var r := Outcome(g, fs, slots).value;
      && r.Keys == slots.Keys + TagsOf(fs)
      && (forall t :: t in slots ==> r[t] == slots[t])
      && (forall i :: 0 <= i < |fs| ==> r[fs[i].tag] == g.interpret(fs[i].tag, fs[i].value).value)
  {
    OutcomeOk(g, fs, slots);
    OutcomeKeys(g, fs, slots);
    OutcomeValues(g, fs, slots);
  }

  /** Once the first field has been taken, a later field is judged against
      the same tags whether they are counted before or after the first. */
  lemma RefusedShift(g: Grammar, fs: seq<TagValue>, slots: Slots, next: Slots, j: nat)
    requires 0 < j < |fs|
    requires next.Keys == slots.Keys + {fs[0].tag}
    ensures FieldError(g, fs[j], slots.Keys + TagsOf(fs[..j])) == FieldError(g, fs[1..][j - 1], next.Keys + TagsOf(fs[1..][..j - 1]))
  {
    TagsOfSlice(fs, j);
    assert fs[1..][j - 1] == fs[j];
  }

  /** A refused line fails with the error of its first refused field. */
  lemma {:induction false} OutcomeRefused(g: Grammar, fs: seq<TagValue>, slots: Slots) returns (i: nat)
    requires Outcome(g, fs, slots).Err?
    ensures i < |fs|
    ensures forall j :: 0 <= j < i ==> FieldError(g, fs[j], slots.Keys + TagsOf(fs[..j])).None?
    ensures FieldError(g, fs[i], slots.Keys + TagsOf(fs[..i])) == Some(Outcome(g, fs, slots).error)
    decreases |fs|
  {
    assert fs[..0] == [];
    match FieldError(g, fs[0], slots.Keys)
    case Some(e) =>
      i := 0;
    case None =>
      var next := slots[fs[0].tag := g.interpret(fs[0].tag, fs[0].value).value];
      assert next.Keys == slots.Keys + {fs[0].tag};
      var k := OutcomeRefused(g, fs[1..], next);
      i := k + 1;
      forall j | 0 < j <= i
        ensures FieldError(g, fs[j], slots.Keys + TagsOf(fs[..j])) == FieldError(g, fs[1..][j - 1], next.Keys + TagsOf(fs[1..][..j - 1]))
      {
        RefusedShift(g, fs, slots, next, j);
      }
  }

  /** The loop on the written fields succeeds exactly when every field is
      accepted; then the tag of every field is filled with that field's
      parsed value, and only those tags are. */
  lemma LineAccepted(g: Grammar, fs: seq<TagValue>)
    requires TabFree(fs)
    ensures Loop(g, Line(fs), map[]).Done? <==> Accepted(g, fs, {})
    ensures Loop(g, Line(fs), map[]).Done? ==>
      var r := Loop(g, Line(fs), map[]).value;
      && r.Keys == TagsOf(fs)
      && (forall i :: 0 <= i < |fs| ==> r[fs[i].tag] == g.interpret(fs[i].tag, fs[i].value).value)
  {
    LineLoop(g, fs, map[]);
    OutcomeAccepted(g, fs, map[]);
    var none: Slots := map[];
    assert none.Keys == {};
  }

  /** The first refused field of a line read from no slots. */
  lemma RefusedFirst(g: Grammar, fs: seq<TagValue>) returns (i: nat)
    requires Outcome(g, fs, map[]).Err?
    ensures i < |fs|
    ensures forall j :: 0 <= j < i ==> FieldError(g, fs[j], TagsOf(fs[..j])).None?
    ensures FieldError(g, fs[i], TagsOf(fs[..i])) == Some(Outcome(g, fs, map[]).error)
  {
    var none: Slots := map[];
    assert none.Keys == {};
    i := OutcomeRefused(g, fs, map[]);
    assert forall k :: 0 <= k <= |fs| ==> {} + TagsOf(fs[..k]) == TagsOf(fs[..k]);
  }

  /** A line with a refused field is not accepted: the loop fails. */
  lemma LineRefused(g: Grammar, fs: seq<TagValue>, j: nat) returns (i: nat)
    requires TabFree(fs)
    requires j < |fs|
    requires FieldError(g, fs[j], TagsOf(fs[..j])).Some?
    ensures Loop(g, Line(fs), map[]).Failed?
    ensures i < |fs|
    ensures forall k :: 0 <= k < i ==> FieldError(g, fs[k], TagsOf(fs[..k])).None?
    ensures FieldError(g, fs[i], TagsOf(fs[..i])) == Some(Loop(g, Line(fs), map[]).error)
  {
    var none: Slots := map[];
    assert none.Keys == {};
    LineLoop(g, fs, map[]);
    OutcomeOk(g, fs, map[]);
    assert !Accepted(g, fs, {}) by {
      assert {} + TagsOf(fs[..j]) == TagsOf(fs[..j]);
    }
    i := RefusedFirst(g, fs);
  }

  /** Fields before the first refused one have no effect on the error: the
      line fails with that field's error. */
  lemma LineRefusedAt(g: Grammar, fs: seq<TagValue>, j: nat)
    requires TabFree(fs)
    requires j < |fs|
    requires forall i :: 0 <= i < j ==> FieldError(g, fs[i], TagsOf(fs[..i])).None?
    requires FieldError(g, fs[j], TagsOf(fs[..j])).Some?
    ensures Loop(g, Line(fs), map[]).Failed?
    ensures Loop(g, Line(fs), map[]).error == FieldError(g, fs[j], TagsOf(fs[..j])).value
  {
    var i := LineRefused(g, fs, j);
    assert i == j;
  }

  /** A tag given twice fails `RepeatTag`, however the other fields up to the
      repetition are arranged, as long as each has a known tag and a value its
      parser accepts. */
  lemma RepeatedTag(g: Grammar, fs: seq<TagValue>, i: nat, j: nat)
    requires TabFree(fs)
    requires i < j < |fs| && fs[i].tag == fs[j].tag
    requires forall k :: 0 <= k <= j ==>
      g.known(fs[k].tag) && fs[k].value != [] && g.interpret(fs[k].tag, fs[k].value).Ok?
    ensures Loop(g, Line(fs), map[]).Failed?
    ensures Loop(g, Line(fs), map[]).error == RepeatTag
  {
    assert fs[..j][i] == fs[i];
    assert FieldError(g, fs[j], TagsOf(fs[..j])) == Some(RepeatTag);
    var b := LineRefused(g, fs, j);
    assert b <= j;
  }

  /** In an accepted line no tag is given twice. */
  lemma AcceptedDistinct(g: Grammar, fs: seq<TagValue>, i: nat, j: nat)
    requires Accepted(g, fs, {})
    requires i < j < |fs|
    ensures fs[i].tag != fs[j].tag
  {
    assert fs[..j][i] == fs[i];
    assert FieldError(g, fs[j], {} + TagsOf(fs[..j])).None?;
  }

  lemma {:induction false} ValueOfAt(fs: seq<TagValue>, i: nat)
    requires i < |fs|
    requires forall j :: 0 <= j < i ==> fs[j].tag != fs[i].tag
    ensures ValueOf(fs, fs[i].tag) == Some(fs[i].value)
    decreases i
  {
    if i > 0 {
      assert fs[1..][i - 1] == fs[i];
      forall j | 0 <= j < i - 1
        ensures fs[1..][j].tag != fs[1..][i - 1].tag
      {
        assert fs[1..][j] == fs[j + 1];
      }
      ValueOfAt(fs[1..], i - 1);
    }
  }

  /** In an accepted line the first field carrying a tag is the only one. */
  lemma AcceptedValueOf(g: Grammar, fs: seq<TagValue>, i: nat)
    requires Accepted(g, fs, {})
    requires i < |fs|
    ensures ValueOf(fs, fs[i].tag) == Some(fs[i].value)
  {
    forall j | 0 <= j < i
      ensures fs[j].tag != fs[i].tag
    {
      AcceptedDistinct(g, fs, j, i);
    }
    ValueOfAt(fs, i);
  }

  /** The slot of a tag carried by an accepted line holds the parsed value of
      the field carrying it. */
  lemma SlotOfTag(g: Grammar, fs: seq<TagValue>, r: Slots, t: Tag)
    requires Accepted(g, fs, {})
    requires forall i :: 0 <= i < |fs| ==> fs[i].tag in r && r[fs[i].tag] == g.interpret(fs[i].tag, fs[i].value).value
    requires t in TagsOf(fs)
    ensures t in r && Ok(r[t]) == g.interpret(t, ValueOf(fs, t).value)
  {
    var i :| 0 <= i < |fs| && fs[i].tag == t;
    AcceptedValueOf(g, fs, i);
    assert FieldError(g, fs[i], {} + TagsOf(fs[..i])).None?;
  }

  /** An accepted line fills exactly the slots of the tags it carries, each
      with the parsed value of the field carrying it. */
  lemma LineValues(g: Grammar, fs: seq<TagValue>)
    requires TabFree(fs) && Accepted(g, fs, {})
    ensures Loop(g, Line(fs), map[]).Done?
    ensures forall t :: t in Loop(g, Line(fs), map[]).value <==> ValueOf(fs, t).Some?
    ensures forall t :: t in Loop(g, Line(fs), map[]).value ==>
      Ok(Loop(g, Line(fs), map[]).value[t]) == g.interpret(t, ValueOf(fs, t).value)
  {
    LineAccepted(g, fs);
    var r := Loop(g, Line(fs), map[]).value;
    forall t | t in r
      ensures Ok(r[t]) == g.interpret(t, ValueOf(fs, t).value)
    {
      SlotOfTag(g, fs, r, t);
    }
  }
}
