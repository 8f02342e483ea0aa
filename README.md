# samovar SAM parser, modelled in Dafny

This project models the parsing core of samovar, a reader for the SAM text
format (SAMv1: header records and their tags, and the eleven mandatory
alignment fields with the FLAG bits). It covers both halves of the parser.

The header half:
- A header line starts with `@` and a two-byte record code: `HD`, `SQ`,
  `RG`, `PG` or `CO`.
- For the four tagged kinds, a loop then reads tab, two-byte tag, `:` and
  value until the line is used up, filling one slot per tag at most once.
- The lines are folded into one `Header`. It keeps:
  - at most one `@HD` record;
  - maps of reference sequences (by name), read groups (by id) and
    programs (by id), with no key twice;
  - the comments in order.

The alignment half:
- An alignment line is cut at its tabs.
- Eleven positional fields are read and type-checked, and the remaining
  fields are checked to be UTF-8 and then dropped.
- `Flag` is a 16-bit word with twelve bit predicates and a primary-line
  test.

The model has two layers:
- The grammar modules are functions giving the reference meaning:
  - `Tokens`, `Fields`, `MetaGrammar`, `RefSeqGrammar`, `ReadGroupGrammar`,
    `ProgramGrammar`, `HeaderGrammar`, `Alignments` and `AlignmentGrammar`;
  - the lemmas about them state what a line means: which lines are
    accepted, which error the first bad field or line gives, and what the
    resulting records hold.
- The parser modules are methods shaped like the Rust code:
  - `MetaParser`, `RefSeqParser`, `ReadGroupParser` and `ProgramParser`
    each hold a `while` loop over the cursor that fills one `Option` local
    per tag;
  - `HeaderParser` is the `for` loop that fills `meta`, the three maps and
    `comments`;
  - `AlignmentParser` has the split iterator advanced field by field and
    the loops over fields and lines;
  - each method is proved to compute exactly what its grammar function
    says, where the cursor ends up included.

One generic loop, `Fields.Loop`, serves all four tagged records. A record
kind is a `Grammar`: the tags it knows, and how it turns a value into a
slot. The main theorem about the loop (`Fields.LineValues`,
`Fields.LineAccepted`, `Fields.LineRefusedAt`) states its meaning over a
written list of (tag, value) fields.

This is where the source differs from what the SAM format or the field
names suggest. The model follows the source:
- A missing tab or `:` is reported as `MissingPrefix`. There is no separate
  delimiter or separator error.
- An unknown record code is `BadRecordCode`. It is raised after the two code
  bytes have been consumed.
- `VN` is cut at the first `.`, and both sides must be whole `usize`
  numbers. There is no pattern match on a prefix, so `1.6x` is refused with
  `BadVersion`.
- The encoding error is `InvalidUTF8`, and the read-group error is spelled
  `MissingRadGroupId`.
- An unknown tag fails with `UnknownTag` before its value is read, so even an
  empty value after an unknown tag gives `UnknownTag`.
- A value whose parser fails reports that error before a repeated tag is
  noticed.
- Every numeric field of an alignment line fails with the same
  `UnknownValue`. There is no field-specific error.
- `MissingAlignmentField` is raised by the alignment parser
  (src/alignment/parser.rs:18), but it is not a variant of `ParseError`
  (src/header/parser.rs:56-73). The model's `Errors.ParseError` adds it.

## Model

| member | source | states |
|---|---|---|
| Bytes.IndexOf | src/header/parser.rs:232 | the position of the first tab, or the length when there is none; no tab occurs before it |
| Bytes.Split | src/alignment/parser.rs:14 | `split` on a delimiter: at least one piece, and no piece contains the delimiter |
| Bytes.SplitCount | src/header/parser/ref_seq.rs:63 | splitting gives one more piece than there are delimiters, empty pieces included |
| Bytes.JoinSplit | src/header/parser/ref_seq.rs:63 | the pieces joined with the delimiter give back the original bytes |
| Bytes.SplitJoin | src/alignment/parser.rs:14 | delimiter-free pieces, joined and split again, give back the same pieces |
| Bytes.CountConcat | src/header/parser/ref_seq.rs:63 | the delimiter count of a concatenation is the sum of the counts |
| Utf8.AsciiIsUtf8 | src/header/parser.rs:242-245 | ASCII text passes the UTF-8 check |
| Utf8.NotUtf8 | src/header/parser.rs:242-245 | bytes that start with a byte from 0x80 to 0xC1 fail the UTF-8 check |
| Numbers.ParseUnsigned | src/header/parser/ref_seq.rs:56-59 | an accepted number never exceeds the type's maximum |
| Numbers.ParseSigned | src/alignment/parser.rs:41-43 | an accepted number lies within the type's range |
| Numbers.UnsignedRoundTrip | src/header/parser/ref_seq.rs:56-59 | the decimal text of a number reads back as that number exactly when it fits the type, and is refused otherwise |
| Numbers.UnsignedPlus | src/header/parser/ref_seq.rs:56-59 | a leading `+` is accepted: `+n` reads as `n` when `n` fits |
| Numbers.SignedRoundTrip | src/alignment/parser.rs:41-43 | signed decimal text reads back as its value exactly when it is in range |
| Numbers.UnsignedAscii | src/header/parser/ref_seq.rs:56-59 | whatever the number parser accepts is ASCII |
| Numbers.UnsignedRejectsOther | src/header/parser/ref_seq.rs:56-59 | text with a byte that is neither a digit nor `+` never parses |
| Tokens.EatPrefix | src/header/parser.rs:199-207 | succeeds exactly when the first byte is `@`, consuming only it; otherwise `MissingPrefix` with the cursor unmoved |
| Tokens.EatFieldDelimiter | src/header/parser.rs:209-217 | succeeds exactly on a leading tab, consuming only it; otherwise `MissingPrefix` with the cursor unmoved |
| Tokens.EatKvSeparator | src/header/parser.rs:219-227 | succeeds exactly on a leading `:`, consuming only it; otherwise `MissingPrefix` with the cursor unmoved |
| Tokens.ParseTag | src/header/parser.rs:189-197 | with two bytes or more, returns the first two and advances by two; otherwise `MissingFieldTag` with the cursor unmoved |
| Tokens.ParseValue | src/header/parser.rs:229-240 | the value and the rest make up the input; the value is the whole tab-free prefix and is non-empty; the rest is empty or starts with the tab; an empty prefix is `MissingValue` |
| Tokens.StrValue | src/header/parser.rs:244 | a value is kept as it is exactly when it is UTF-8, and refused with `InvalidUTF8` otherwise |
| Tokens.ParseStr | src/header/parser.rs:242-245 | succeeds exactly on a non-empty UTF-8 value; after a value is read, invalid UTF-8 fails with the cursor after the value |
| Tokens.ParseComment | src/header/parser.rs:182-187 | the whole rest of the line, tabs included, when UTF-8, leaving the cursor empty; otherwise `InvalidUTF8` |
| Tokens.ParseHeaderRowKind | src/header/parser.rs:147-163 | a recognised code is followed by the rest of the input; fewer than two bytes fail `BadRecordCode` unmoved; an unknown code fails `BadRecordCode` after its two bytes |
| Tokens.RecordCodeRoundTrip | src/header/parser.rs:155-161 | each of `HD`, `SQ`, `RG`, `PG`, `CO` is recognised as its own kind and nothing more is consumed |
| Tokens.TryInsertOnce | src/header/parser.rs:175-180 | succeeds exactly when the slot was empty, else `RepeatTag`; the slot holds the new value in both cases |
| Fields.FieldHead | src/header/parser/meta.rs:33-35 | the tab, tag and `:` of a pass take four bytes |
| Fields.HeadText | src/header/parser/meta.rs:33-35 | those four bytes are a tab, the tag's two bytes and a `:` |
| Fields.FieldStep | src/header/parser/meta.rs:33-43 | a pass that succeeds consumes input, so the loop terminates |
| Fields.TagValueStep | src/header/parser/meta.rs:37-43 | an arm that succeeds consumes input |
| Fields.Loop | src/header/parser/meta.rs:32-44 | the loop succeeds only once the line is used up |
| Fields.LoopStep | src/header/parser/meta.rs:32-44 | a non-empty line is one pass followed by the loop on what is left; a failing pass ends it with its error and cursor |
| Fields.FillSlot | src/header/parser/meta.rs:38-41 | an arm that succeeds leaves its slot filled |
| Fields.FillSlotStep | src/header/parser/meta.rs:38-41 | an arm `try_insert_once(&mut slot, parse_x(s)?)?` fails where the loop rule fails, with the same error and cursor; otherwise it stores the parsed value in the tag's slot |
| Fields.TagsOf | src/header/parser/meta.rs:32-44 | the tags of a list of fields: every field's tag is in it, and nothing else |
| Fields.ValueOf | src/header/parser/meta.rs:45-50 | a tag has a value exactly when some field carries it |
| Fields.ValueBeforeTab | src/header/parser.rs:229-240 | a tab-free value before a tab or the end is read exactly; an empty one is `MissingValue` |
| Fields.FieldPrefix | src/header/parser/meta.rs:33-35 | the tab, tag and `:` are read whatever the tag is |
| Fields.TagValueText | src/header/parser/meta.rs:37-43 | a written value is refused with the field's error in the rule's order (unknown tag, empty value, bad value, repeated tag), or stored |
| Fields.FieldStepText | src/header/parser/meta.rs:33-43 | one written field is read as the rule says |
| Fields.LineLoop | src/header/parser/meta.rs:32-44 | the byte loop on written fields gives the field-by-field outcome |
| Fields.FieldRead | src/header/parser/meta.rs:33-43 | a pass that reads a value has read one written field |
| Fields.FieldOfPass | src/header/parser/meta.rs:33-43 | the first pass of a successful loop reads one accepted field with a non-empty, tab-free value |
| Fields.LoopReadsFields | src/header/parser/meta.rs:32-44 | every line the loop accepts is a written list of fields with non-empty tab-free values, and the loop's slots are the rule's |
| Fields.AcceptedCons | src/header/parser/meta.rs:32-44 | a list is accepted when its first field is, and the rest is once that tag has been seen |
| Fields.OutcomeOk | src/header/parser/meta.rs:32-44 | taking the fields succeeds exactly when every field is accepted |
| Fields.OutcomeKeys | src/header/parser/meta.rs:32-44 | taking the fields adds exactly their tags and keeps the slots already filled |
| Fields.OutcomeValues | src/header/parser/meta.rs:38-41 | every field's tag ends up holding that field's parsed value |
| Fields.OutcomeAccepted | src/header/parser/meta.rs:32-44 | the three facts above together |
| Fields.RefusedShift | src/header/parser/meta.rs:32-44 | after the first field, later fields are judged against the same set of tags |
| Fields.OutcomeRefused | src/header/parser/meta.rs:32-44 | a refused list fails with the error of its first refused field, all before it being accepted |
| Fields.LineAccepted | src/header/parser/meta.rs:32-44 | the loop succeeds on a line exactly when every field is accepted; it then fills exactly the tags present, each with its field's parsed value |
| Fields.RefusedFirst | src/header/parser/meta.rs:32-44 | a refused list from empty slots fails with its first refused field's error |
| Fields.LineRefused | src/header/parser/meta.rs:32-44 | a line with a refused field fails, with the error of its first refused field |
| Fields.LineRefusedAt | src/header/parser/meta.rs:32-44 | fields accepted before the first refused one do not change the error: the line fails with that field's error |
| Fields.RepeatedTag | src/header/parser.rs:175-180 | a tag given twice fails `RepeatTag` when every field up to the repetition has a known tag and a good value |
| Fields.AcceptedDistinct | src/header/parser.rs:175-180 | in an accepted line no tag occurs twice |
| Fields.ValueOfAt | src/header/parser/meta.rs:32-44 | the first field with a tag gives that tag's value |
| Fields.AcceptedValueOf | src/header/parser/meta.rs:32-44 | in an accepted line, a field's value is its tag's value |
| Fields.SlotOfTag | src/header/parser/meta.rs:38-41 | the slot of a tag on an accepted line holds the parsed value of the field carrying it |
| Fields.LineValues | src/header/parser/meta.rs:32-44 | an accepted line fills exactly the slots of the tags it carries, each with the parsed value of the field carrying it |
| MetaGrammar.VersionPart | src/header/parser/meta.rs:58-65 | a part is accepted exactly when `usize` parsing accepts it, with that value |
| MetaGrammar.VersionValue | src/header/parser/meta.rs:53-70 | an accepted version contains a `.`; refusals are `BadVersion` or `InvalidUTF8` |
| MetaGrammar.SortOrderValue | src/header/parser/meta.rs:72-82 | an accepted `SO` is the exact spelling of its sort order; anything else is `UnknownValue` |
| MetaGrammar.GroupingValue | src/header/parser/meta.rs:84-92 | an accepted `GO` is the exact spelling of its grouping; anything else is `UnknownValue` |
| MetaGrammar.Build | src/header/parser/meta.rs:45-50 | fails, with `MissingVersion`, exactly when no version was read; otherwise the record holds the slots' values, absent ones `None` |
| MetaGrammar.ParseMeta | src/header/parser/meta.rs:26-51 | a record is read only once the whole line is consumed |
| MetaGrammar.VersionRoundTrip | src/header/parser/meta.rs:53-66 | `M.N` in decimal reads as major `M`, minor `N` |
| MetaGrammar.VersionOneDot | src/header/parser/meta.rs:56-65 | an accepted version has exactly one `.` (`1.6.2` is refused) |
| MetaGrammar.VersionNeedsBothParts | src/header/parser/meta.rs:56-69 | ASCII text with no `.`, or starting or ending with one (`1.`, `.6`), fails `BadVersion` |
| MetaGrammar.VersionHalves | src/header/parser/meta.rs:53-70 | a version is accepted exactly when both halves around the first `.` parse as `usize`, holds those two values, and ASCII text is refused only as `BadVersion` (`1.x`, `1.6x`, an overflowing half) |
| MetaGrammar.VersionTrailingText | src/header/parser/meta.rs:58-65 | `1.6x` is refused with `BadVersion`: there is no prefix match |
| MetaGrammar.AsciiPart | src/header/parser/meta.rs:58-65 | an ASCII half of a version is refused only as `BadVersion` |
| MetaGrammar.SortOrderRoundTrip | src/header/parser/meta.rs:75-80 | every sort order's spelling reads back as it |
| MetaGrammar.GroupingRoundTrip | src/header/parser/meta.rs:86-90 | every grouping's spelling reads back as it |
| MetaGrammar.BuildFrom | src/header/parser/meta.rs:45-50 | slots filled from a list of fields build the record those fields describe |
| MetaGrammar.SlotFrom | src/header/parser/meta.rs:37-43 | a tag's slot is filled exactly when a field carries it, with its parsed value |
| MetaGrammar.VersionFrom | src/header/parser/meta.rs:38 | the version slot is the `VN` field's parsed value |
| MetaGrammar.SortOrderFrom | src/header/parser/meta.rs:39 | the sort-order slot is the `SO` field's parsed value |
| MetaGrammar.GroupingFrom | src/header/parser/meta.rs:40 | the grouping slot is the `GO` field's parsed value |
| MetaGrammar.SubsortingFrom | src/header/parser/meta.rs:41 | the sub-sorting slot is the `SS` field's text, verbatim |
| MetaGrammar.TypedFrom | src/header/parser/meta.rs:37-43 | the four slots hold the four fields' parsed values |
| MetaGrammar.MetaLine | src/header/parser/meta.rs:26-51 | an accepted `@HD` line reads as its fields say: version and attributes from their fields, absent ones `None`, no `VN` gives `MissingVersion` |
| MetaParser.FillVersionAgrees | src/header/parser/meta.rs:38 | the `VN` arm on the locals agrees with the loop rule, in error, cursor and new slot |
| MetaParser.FillSortOrderAgrees | src/header/parser/meta.rs:39 | the `SO` arm agrees with the loop rule |
| MetaParser.FillGroupingAgrees | src/header/parser/meta.rs:40 | the `GO` arm agrees with the loop rule |
| MetaParser.FillSubSortingAgrees | src/header/parser/meta.rs:41 | the `SS` arm agrees with the loop rule |
| MetaParser.ArmAgrees | src/header/parser/meta.rs:37-43 | the whole `match`, unknown tags included, agrees with the loop rule |
| MetaParser.FieldAgrees | src/header/parser/meta.rs:33-43 | one pass of the loop body agrees with one pass of the rule |
| MetaParser.BuildHolds | src/header/parser/meta.rs:45-50 | the record made from the locals is the one built from the slots |
| MetaParser.ParseMeta | src/header/parser/meta.rs:26-51 | the `while` loop over the cursor computes `MetaGrammar.ParseMeta`, cursor included |
| RefSeqGrammar.LenValue | src/header/parser/ref_seq.rs:56-59 | `LN` is accepted exactly when `u64` parsing accepts it, with that value; otherwise `UnknownValue`, or `InvalidUTF8` for bad text |
| RefSeqGrammar.AltNamesValue | src/header/parser/ref_seq.rs:61-64 | `AN` is accepted exactly when it is UTF-8 |
| RefSeqGrammar.TopologyValue | src/header/parser/ref_seq.rs:66-73 | an accepted `TP` is `linear` or `circular` exactly; anything else is `UnknownValue` |
| RefSeqGrammar.Build | src/header/parser/ref_seq.rs:42-53 | succeeds exactly when name and length were read; a missing name is reported before a missing length |
| RefSeqGrammar.ParseRefSeq | src/header/parser/ref_seq.rs:9-54 | a record is read only once the whole line is consumed |
| RefSeqGrammar.LenRoundTrip | src/header/parser/ref_seq.rs:56-59 | every length that fits a `u64` reads back from its decimal text; larger ones are `UnknownValue` |
| RefSeqGrammar.LenNotNegative | src/header/parser/ref_seq.rs:56-59 | a negative length is refused with `UnknownValue` |
| RefSeqGrammar.AltNamesSplit | src/header/parser/ref_seq.rs:61-64 | `AN` has one more name than commas, empty names kept, and the names joined with commas give back the value |
| RefSeqGrammar.TopologyRoundTrip | src/header/parser/ref_seq.rs:68-71 | each topology's spelling reads back as it |
| RefSeqGrammar.BuildFrom | src/header/parser/ref_seq.rs:42-53 | slots filled from a list of fields build the record those fields describe |
| RefSeqGrammar.TextFrom | src/header/parser/ref_seq.rs:27-36 | a text attribute's slot is its field's text, verbatim |
| RefSeqGrammar.TypedFrom | src/header/parser/ref_seq.rs:28-35 | the `LN`, `AN` and `TP` slots hold their fields' parsed values |
| RefSeqGrammar.RefSeqLine | src/header/parser/ref_seq.rs:9-54 | an accepted `@SQ` line reads as its fields say; absent tags are `None`; no `SN` (checked first) or no `LN` is an error |
| RefSeqParser.FillNameAgrees | src/header/parser/ref_seq.rs:27 | the `SN` arm agrees with the loop rule |
| RefSeqParser.FillLengthAgrees | src/header/parser/ref_seq.rs:28 | the `LN` arm agrees with the loop rule |
| RefSeqParser.FillAltLocusAgrees | src/header/parser/ref_seq.rs:29 | the `AH` arm agrees with the loop rule |
| RefSeqParser.FillAltNamesAgrees | src/header/parser/ref_seq.rs:30 | the `AN` arm agrees with the loop rule |
| RefSeqParser.FillAssemblyIdAgrees | src/header/parser/ref_seq.rs:31 | the `AS` arm agrees with the loop rule |
| RefSeqParser.FillDescriptionAgrees | src/header/parser/ref_seq.rs:32 | the `DS` arm agrees with the loop rule |
| RefSeqParser.FillChecksumAgrees | src/header/parser/ref_seq.rs:33 | the `M5` arm agrees with the loop rule |
| RefSeqParser.FillSpeciesAgrees | src/header/parser/ref_seq.rs:34 | the `SP` arm agrees with the loop rule |
| RefSeqParser.FillTopologyAgrees | src/header/parser/ref_seq.rs:35 | the `TP` arm agrees with the loop rule |
| RefSeqParser.FillUriAgrees | src/header/parser/ref_seq.rs:36 | the `UR` arm agrees with the loop rule |
| RefSeqParser.ArmAgrees | src/header/parser/ref_seq.rs:26-39 | the whole `match`, unknown tags included, agrees with the loop rule |
| RefSeqParser.FieldAgrees | src/header/parser/ref_seq.rs:22-39 | one pass of the loop body agrees with one pass of the rule |
| RefSeqParser.BuildHolds | src/header/parser/ref_seq.rs:42-53 | the record made from the locals is the one built from the slots |
| RefSeqParser.ParseRefSeq | src/header/parser/ref_seq.rs:9-54 | the `while` loop over the cursor computes `RefSeqGrammar.ParseRefSeq`, cursor included |
| ReadGroupGrammar.InsertSizeValue | src/header/parser/read_group.rs:41-46 | `PI` is accepted exactly when `u32` parsing accepts it, with that value; otherwise `UnknownValue`, or `InvalidUTF8` for bad text |
| ReadGroupGrammar.PlatformValue | src/header/parser/read_group.rs:74-91 | an accepted `PL` is the exact spelling of its platform; anything else is `UnknownValue` |
| ReadGroupGrammar.Build | src/header/parser/read_group.rs:56-71 | succeeds exactly when an id was read; otherwise `MissingRadGroupId` |
| ReadGroupGrammar.ParseReadGroup | src/header/parser/read_group.rs:9-72 | a record is read only once the whole line is consumed |
| ReadGroupGrammar.PlatformRoundTrip | src/header/parser/read_group.rs:77-88 | every platform's spelling reads back as it (`IONTORRENT` as `Iontorent`) |
| ReadGroupGrammar.PlatformCaseSensitive | src/header/parser/read_group.rs:76-90 | an illustration of `PlatformValue`: `illumina` in lower case is `UnknownValue` |
| ReadGroupGrammar.InsertSizeRoundTrip | src/header/parser/read_group.rs:41-46 | every insert size that fits a `u32` reads back from its decimal text; larger ones are `UnknownValue` |
| ReadGroupGrammar.TextFrom | src/header/parser/read_group.rs:31-40 | a text attribute's slot, `PG` included, is its field's text, verbatim |
| ReadGroupGrammar.BuildFrom | src/header/parser/read_group.rs:56-71 | slots filled from a list of fields build the record those fields describe |
| ReadGroupGrammar.TypedFrom | src/header/parser/read_group.rs:41-47 | the `PI` and `PL` slots hold their fields' parsed values |
| ReadGroupGrammar.ReadGroupLine | src/header/parser/read_group.rs:9-72 | an accepted `@RG` line reads as its fields say; absent tags are `None`; no `ID` is `MissingRadGroupId` |
| ReadGroupParser.FillIdAgrees | src/header/parser/read_group.rs:31 | the `ID` arm agrees with the loop rule |
| ReadGroupParser.FillBarcodeAgrees | src/header/parser/read_group.rs:32 | the `BC` arm agrees with the loop rule |
| ReadGroupParser.FillCenterAgrees | src/header/parser/read_group.rs:33 | the `CN` arm agrees with the loop rule |
| ReadGroupParser.FillDescriptionAgrees | src/header/parser/read_group.rs:34 | the `DS` arm agrees with the loop rule |
| ReadGroupParser.FillDateAgrees | src/header/parser/read_group.rs:35 | the `DT` arm agrees with the loop rule |
| ReadGroupParser.FillFlowOrderAgrees | src/header/parser/read_group.rs:36 | the `FO` arm agrees with the loop rule |
| ReadGroupParser.FillKeySequenceAgrees | src/header/parser/read_group.rs:37 | the `KS` arm agrees with the loop rule |
| ReadGroupParser.FillLibraryAgrees | src/header/parser/read_group.rs:38 | the `LB` arm agrees with the loop rule |
| ReadGroupParser.FillProgramsAgrees | src/header/parser/read_group.rs:40 | the `PG` arm agrees with the loop rule |
| ReadGroupParser.FillInsertSizeAgrees | src/header/parser/read_group.rs:41-46 | the `PI` arm agrees with the loop rule |
| ReadGroupParser.FillPlatformAgrees | src/header/parser/read_group.rs:47 | the `PL` arm agrees with the loop rule |
| ReadGroupParser.FillPlatformModelAgrees | src/header/parser/read_group.rs:48 | the `PM` arm agrees with the loop rule |
| ReadGroupParser.FillPlatformUnitAgrees | src/header/parser/read_group.rs:49 | the `PU` arm agrees with the loop rule |
| ReadGroupParser.FillSampleAgrees | src/header/parser/read_group.rs:50 | the `SM` arm agrees with the loop rule |
| ReadGroupParser.ArmAgrees | src/header/parser/read_group.rs:30-53 | the whole `match`, unknown tags included, agrees with the loop rule |
| ReadGroupParser.FieldAgrees | src/header/parser/read_group.rs:26-53 | one pass of the loop body agrees with one pass of the rule |
| ReadGroupParser.BuildHolds | src/header/parser/read_group.rs:56-71 | the record made from the locals is the one built from the slots |
| ReadGroupParser.ParseReadGroup | src/header/parser/read_group.rs:9-72 | the `while` loop over the cursor computes `ReadGroupGrammar.ParseReadGroup`, cursor included |
| ProgramGrammar.ProgramIdLocal | src/header/parser/program.rs:22-25 | an id local reads back from its slot as the same `ProgramID` |
| ProgramGrammar.Build | src/header/parser/program.rs:31-38 | succeeds exactly when an id was read; otherwise `MissingProgramId` |
| ProgramGrammar.ParseProgram | src/header/parser/program.rs:8-39 | a record is read only once the whole line is consumed |
| ProgramGrammar.TextFrom | src/header/parser/program.rs:22-27 | a slot is its field's text, verbatim, and for `ID`/`PP` that text wrapped as a program id |
| ProgramGrammar.BuildFrom | src/header/parser/program.rs:31-38 | slots filled from a list of fields build the record those fields describe |
| ProgramGrammar.ProgramLine | src/header/parser/program.rs:8-39 | an accepted `@PG` line reads as its fields say; `PP` is kept as an id whether or not it names a program; no `ID` is `MissingProgramId` |
| ProgramParser.FillIdAgrees | src/header/parser/program.rs:22 | the `ID` arm agrees with the loop rule |
| ProgramParser.FillNameAgrees | src/header/parser/program.rs:23 | the `PN` arm agrees with the loop rule |
| ProgramParser.FillCommandLineAgrees | src/header/parser/program.rs:24 | the `CL` arm agrees with the loop rule |
| ProgramParser.FillPreviousAgrees | src/header/parser/program.rs:25 | the `PP` arm agrees with the loop rule |
| ProgramParser.FillDescriptionAgrees | src/header/parser/program.rs:26 | the `DS` arm agrees with the loop rule |
| ProgramParser.FillVersionAgrees | src/header/parser/program.rs:27 | the `VN` arm agrees with the loop rule |
| ProgramParser.ArmAgrees | src/header/parser/program.rs:21-29 | the whole `match`, unknown tags included, agrees with the loop rule |
| ProgramParser.FieldAgrees | src/header/parser/program.rs:17-29 | one pass of the loop body agrees with one pass of the rule |
| ProgramParser.BuildHolds | src/header/parser/program.rs:31-38 | the record made from the locals is the one built from the slots |
| ProgramParser.ParseProgram | src/header/parser/program.rs:8-39 | the `while` loop over the cursor computes `ProgramGrammar.ParseProgram`, cursor included |
| HeaderGrammar.ParseHeaderRowValue | src/header/parser.rs:165-173 | each kind gives a row of that kind |
| HeaderGrammar.ParseHeaderRow | src/header/parser.rs:141-145 | a line without a leading `@` is `MissingPrefix`; `@` with fewer than two more bytes is `BadRecordCode`; an accepted line starts with `@` and a code |
| HeaderGrammar.Assemble | src/header/parser.rs:104-131 | in a header that is produced, every map key is its record's name or id |
| HeaderGrammar.InsertWellKeyed | src/header/parser.rs:106-130 | adding a row keeps every record under its own key |
| HeaderGrammar.SummariesKept | src/header/parser.rs:106-130 | a row of another kind leaves the `@HD` record and the comments as they were; a comment is appended |
| HeaderGrammar.RefSeqsKept | src/header/parser.rs:108-115 | a row of another kind leaves the reference sequences as the rows describe them |
| HeaderGrammar.RefSeqsAdded | src/header/parser.rs:108-115 | a reference sequence with a new name joins the map under that name |
| HeaderGrammar.ReadGroupsKept | src/header/parser.rs:116-123 | a row of another kind leaves the read groups as the rows describe them |
| HeaderGrammar.ReadGroupsAdded | src/header/parser.rs:116-123 | a read group with a new id joins the map under that id |
| HeaderGrammar.ProgramsKept | src/header/parser.rs:124-128 | a row of another kind leaves the programs as the rows describe them |
| HeaderGrammar.ProgramsAdded | src/header/parser.rs:124-128 | a program with a new id joins the map under that id |
| HeaderGrammar.InsertDescribes | src/header/parser.rs:106-130 | a row joins exactly when it clashes with no earlier row; the error is `RepeatTag` for `@HD` and `DuplicateKey` otherwise; the new header describes the rows with it |
| HeaderGrammar.InsertMeta | src/header/parser.rs:107 | an `@HD` row joins exactly when no earlier row is an `@HD` row |
| HeaderGrammar.InsertRefSeq | src/header/parser.rs:108-115 | a reference sequence clashes exactly with one of the same name, and otherwise joins the map |
| HeaderGrammar.InsertReadGroup | src/header/parser.rs:116-123 | a read group clashes exactly with one of the same id, and otherwise joins the map |
| HeaderGrammar.InsertProgram | src/header/parser.rs:124-128 | a program clashes exactly with one of the same id, and otherwise joins the map |
| HeaderGrammar.FoldSpec | src/header/parser.rs:104-138 | rows fold to a header exactly when no row clashes with an earlier one; that header describes the rows; the only errors are `RepeatTag` and `DuplicateKey` |
| HeaderGrammar.FirstClash | src/header/parser.rs:104-131 | the first clashing row decides the error, wherever the earlier row stands |
| HeaderGrammar.FoldErrorPersists | src/header/parser.rs:104-131 | once the rows so far fail, the fold fails with the same error |
| HeaderGrammar.AssembleErrorPersists | src/header/parser.rs:104-131 | once the lines so far fail, nothing after them changes the error |
| HeaderGrammar.AssembleRows | src/header/parser.rs:104-131 | lines that all parse give the header their rows fold to |
| HeaderGrammar.AssembleLineFails | src/header/parser.rs:105 | a line that does not parse, after lines that parse and fit together, is the error |
| HeaderGrammar.RowsOfIs | src/header/parser.rs:105 | the rows of lines that all parse are the lines' parsed rows |
| HeaderGrammar.RowsOfPrefix | src/header/parser.rs:104-105 | the rows of the first lines are the first rows |
| HeaderGrammar.AssembleClash | src/header/parser.rs:106-130 | a row that clashes with an earlier one, after rows that fit together, is the error |
| HeaderGrammar.ClashingLines | src/header/parser.rs:97-139 | a second `@HD` line fails `RepeatTag` and a second record under a key already present fails `DuplicateKey`, however far apart the lines are |
| HeaderGrammar.ErrorPersists | src/header/parser.rs:97-139 | once the lines so far fail, the whole input fails with the same error and no header |
| HeaderGrammar.LineFails | src/header/parser.rs:97-139 | the first line that does not parse is the error of the whole header |
| HeaderGrammar.ParseSpec | src/header/parser.rs:97-139 | the header of lines that all parse exists exactly when there is no second `@HD` and no repeated key; it then holds the `@HD` line's record if there is one, every record under its key and no other key, and the comments in order |
| HeaderGrammar.AssembleSpec | src/header/parser.rs:104-138 | the same for any line parser |
| HeaderGrammar.RecordLine | src/header/parser.rs:141-145 | `@` and a record code are followed by that record's parser on the rest of the line |
| HeaderGrammar.CommentLine | src/header/parser.rs:182-187 | a comment line keeps everything after `@CO`, its leading tab included, when it is UTF-8; otherwise `InvalidUTF8` |
| HeaderParser.ParseHeaderRow | src/header/parser.rs:141-145 | the cursor steps of one header line compute `HeaderGrammar.ParseHeaderRow` |
| HeaderParser.Parse | src/header/parser.rs:97-139 | the `for` loop filling `meta`, the three maps and `comments` computes `HeaderGrammar.Parse` |
| Alignments.HoldsIsMask | src/alignment.rs:23-58 | the `k`-th predicate holds exactly when the `k`-th mask bit (0x1 up to 0x800) is set |
| Alignments.MaskSingleBit | src/alignment.rs:23-58 | each mask is one bit below 0x1000, and different predicates have different masks |
| Alignments.MaskDisjoint | src/alignment.rs:23-58 | different predicates test disjoint bits |
| Alignments.OtherBitKept | src/alignment.rs:23-58 | setting one predicate's bit leaves another predicate as it was |
| Alignments.SetOneBit | src/alignment.rs:23-58 | setting one mask bit turns its predicate on and leaves the other eleven as they were |
| Alignments.LowReadsBack | src/alignment.rs:23-40 | the six low predicates read back from the low bits they are written to |
| Alignments.HighReadsBack | src/alignment.rs:41-58 | the six high predicates read back from the high bits they are written to |
| Alignments.DecodeEncode | src/alignment.rs:23-58 | the twelve predicates are independent: every combination is read back from the word it is written to |
| Alignments.DecodeLow | src/alignment.rs:23-40 | the six low predicates written back give the flag's six low bits |
| Alignments.DecodeHigh | src/alignment.rs:41-58 | the six high predicates written back give bits 0x40 to 0x800 of the flag |
| Alignments.EncodeDecode | src/alignment.rs:23-58 | a flag's twelve predicates written back give its twelve low bits |
| Alignments.PrimaryLine | src/alignment.rs:47-61 | a line is primary exactly when it is neither secondary nor supplementary |
| Alignments.HighBitsIgnored | src/alignment.rs:23-61 | bits 0x1000 to 0x8000 change no predicate and not the primary test |
| Alignments.FlagZero | src/alignment.rs:23-61 | flag 0 makes all twelve predicates false and the line primary |
| Alignments.FlagNinetyNine | src/alignment.rs:23-61 | flag 99 is paired, properly aligned, mate reversed, first segment, and primary; the other eight predicates are false |
| Alignments.FlagSecondarySupplementary | src/alignment.rs:47-61 | flag 0x900 is secondary and supplementary, and not primary |
| AlignmentGrammar.UnsignedField | src/alignment/parser.rs:24-40 | a numeric field that is accepted is within its type's range |
| AlignmentGrammar.SignedField | src/alignment/parser.rs:41-43 | an accepted template length is an `i32` |
| AlignmentGrammar.OtherFieldsText | src/alignment/parser.rs:52 | the further fields are accepted exactly when all are UTF-8; otherwise `InvalidUTF8` |
| AlignmentGrammar.AcceptedIf | src/alignment/parser.rs:22-66 | at least eleven fields, each of the eleven well typed and every further one UTF-8, are read as the record they denote: text byte for byte, numbers by value |
| AlignmentGrammar.RestAccepted | src/alignment/parser.rs:36-66 | the same from CIGAR on |
| AlignmentGrammar.AcceptedOnlyIf | src/alignment/parser.rs:22-52 | only such fields are accepted |
| AlignmentGrammar.MandatoryTyped | src/alignment/parser.rs:22-52 | an accepted line has eleven well-typed fields and UTF-8 further fields |
| AlignmentGrammar.FirstBadField | src/alignment/parser.rs:16-47 | when the fields before `k` are well typed, a missing field `k` is `MissingAlignmentField` and a bad one `UnknownValue` or `InvalidUTF8`, whatever follows |
| AlignmentGrammar.FirstBadLeading | src/alignment/parser.rs:22-36 | the same for QNAME to CIGAR |
| AlignmentGrammar.FirstBadTrailing | src/alignment/parser.rs:37-47 | the same for RNEXT to QUAL |
| AlignmentGrammar.ExtraRefused | src/alignment/parser.rs:52 | eleven good fields and a further one that is not UTF-8 are `InvalidUTF8` |
| AlignmentGrammar.AcceptedTabs | src/alignment/parser.rs:14-47 | an accepted line has at least ten tabs |
| AlignmentGrammar.DecimalText | src/alignment/parser.rs:24-40 | a number's decimal text is a non-empty, tab-free run of digits |
| AlignmentGrammar.SignedDecimalText | src/alignment/parser.rs:41-43 | a signed number's decimal text is tab-free UTF-8 |
| AlignmentGrammar.NumberText | src/alignment/parser.rs:24-40 | a number in range is written as text that reads back as it |
| AlignmentGrammar.FieldsTyped | src/alignment/parser.rs:22-47 | the eleven fields written for a well-formed alignment are tab-free and well typed |
| AlignmentGrammar.FieldsDenote | src/alignment/parser.rs:54-66 | those fields denote that alignment |
| AlignmentGrammar.ReadBack | src/alignment/parser.rs:22-66 | a well-formed alignment's fields, with further fields, read as the alignment when the further fields are UTF-8, and `InvalidUTF8` otherwise |
| AlignmentGrammar.RoundTrip | src/alignment/parser.rs:12-67 | writing a well-formed alignment as a tab-separated line, with any further tab-free fields, and reading it back gives the alignment, or `InvalidUTF8` when a further field is not UTF-8 |
| AlignmentGrammar.EmptyTextFields | src/alignment/parser.rs:16-22 | text fields may be empty: there is no `MissingValue` on an alignment line |
| AlignmentGrammar.ExampleWellFormed | src/alignment.rs:5-17 | the record of the line `r001 99 chr1 7 30 8M2I4M1D3M = 37 39 TTAGATAAAGGATACTG *` has tab-free UTF-8 text |
| AlignmentGrammar.ExampleWritten | src/alignment/parser.rs:22-47 | that record is written as the example's fields |
| AlignmentGrammar.ExampleLine | src/alignment/parser.rs:12-67 | the example line reads as the example record |
| AlignmentGrammar.CollectSpec | src/alignment/parser.rs:6-10 | collecting succeeds exactly when every line is read, with one value per line in order; otherwise the error is the first failing line's |
| AlignmentGrammar.CollectErrorPersists | src/alignment/parser.rs:6-10 | once the lines so far fail, later lines are not read |
| AlignmentGrammar.ParseAllSpec | src/alignment/parser.rs:6-10 | `parse` gives one record per line in order, or the first failing line's error |
| AlignmentParser.Next | src/alignment/parser.rs:14-17 | the split iterator hands out the line's fields in order, then nothing |
| AlignmentParser.NextField | src/alignment/parser.rs:16-20 | `next_field` is the next field as text, `MissingAlignmentField` when there is none, or `InvalidUTF8`, and moves to the next field on success |
| AlignmentParser.FieldAt | src/alignment/parser.rs:16-20 | the iterator left after `k` fields gives field `k` |
| AlignmentParser.OtherFields | src/alignment/parser.rs:52 | draining the iterator computes the check of the further fields |
| AlignmentParser.ParseAlignment | src/alignment/parser.rs:12-67 | the eleven `next_field` steps and the drain compute `AlignmentGrammar.ParseAlignment` |
| AlignmentParser.ParseRest | src/alignment/parser.rs:36-66 | the steps from CIGAR on compute `AlignmentGrammar.ParseRest` |
| AlignmentParser.Parse | src/alignment/parser.rs:6-10 | the loop over the lines computes `AlignmentGrammar.ParseAll` |

## Left out

- Reading from a file or a `BufRead` is not modelled (src/header/reader.rs, src/alignment/reader.rs, src/main.rs). The `IOError` variant exists but nothing raises it.
- `str::lines` is not modelled: both `parse` functions take the input already cut into lines, as a sequence of byte strings. The `\r\n` handling is therefore not modelled.
- `Header::try_from` (src/header.rs:14-20) is `parse` itself. `HeaderParser.Parse` stands for both.
- Dead code is not modelled:
  - the commented-out lexer (src/header/parser.rs:7-27);
  - `RecordCode` and its `FromStr` (src/header/parser.rs:29-53);
  - `MetaParseError` (src/header/parser/meta.rs:8-24);
  - the unused copies of the tokenizer helpers (src/alignment/parser.rs:69-111). The local `parse_str` after them (src/alignment/parser.rs:113-115) is used, and is `Tokens.StrValue`.
- The `&mut &[u8]` cursor, the `Option` locals and `try_insert_once`'s `&mut` slot are modelled as values. Each step takes the unread bytes and gives back what it read and the bytes left after it. Aliasing of the cursor is not modelled.
- The header's `HashMap`s are Dafny maps. Iteration order and hashing are not modelled. `insert(..).is_some()` is modelled as a membership test before the insert; the header is dropped on that error anyway.
- Borrowed `&str` and owned `String` text are both kept as their UTF-8 bytes. Lifetimes are not modelled.
- `str::from_utf8` and `String::from_utf8` are modelled by `Utf8.ValidUtf8`, the well-formed sequences of Table 3-7 of the Unicode Standard. Decoding to code points is not modelled.
- Rust's integer `FromStr` is modelled by `Numbers.ParseUnsigned` and `Numbers.ParseSigned`: an optional `+` (or `-` for signed types), then at least one ASCII digit, within the type's range. `usize` is taken to be 64 bits.
- The `sequence` field goes through `.parse()` into a `String`, which cannot fail (src/alignment/parser.rs:44-46). It is modelled as the text that `next_field` already checked.
- `SortOrder`'s and `AlignmentGrouping`'s `#[default]` variants are only constants, `HeaderTypes.DEFAULT_SORT_ORDER` and `HeaderTypes.DEFAULT_GROUPING`. An absent `SO` or `GO` is the outer `None`, as in the source.
- The `Debug` derives are not modelled.
- `AlignmentGrammar.ParseFields` and `AlignmentParser.ParseAlignment` hand the fields from CIGAR on to a separate `ParseRest` member. The order of the fields and their errors is the source's.
- The numeric-field lemmas relate field text to the eleven types through `Numbers.Decimal`, the canonical rendering. Other accepted spellings, such as leading zeros or a `+`, are covered by `AlignmentGrammar.AcceptedIf`.
