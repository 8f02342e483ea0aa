/** The tokenizer primitives of src/header/parser.rs as functions of the
    unread bytes: each returns what it read and where the cursor stands after
    it. The `&mut &[u8]` cursor of the source is this pair: the bytes still
    to read go in, and the bytes left after the token come out. */
module Tokens {
  import opened Bytes
  import opened Errors
  import opened Utf8

  /** A two-byte field tag or record code, compared byte for byte. */
  datatype Tag = Tag(first: byte, second: byte) {
    function Text(): Bytes {
      [first, second]
    }
  }

  /** `eat_prefix`: consume one `@`. */
  function EatPrefix(s: Bytes): (p: Parsed<()>)
    ensures p.Done? <==> |s| > 0 && s[0] == AT
    ensures p.Done? ==> p.rest == s[1..]
    ensures p.Failed? ==> p.error == MissingPrefix && p.rest == s
  {
    if |s| > 0 && s[0] == AT then Done((), s[1..]) else Failed(MissingPrefix, s)
  }

  /** `eat_field_delimiter`: consume one tab; a mismatch is reported as `MissingPrefix`. */
  function EatFieldDelimiter(s: Bytes): (p: Parsed<()>)
    ensures p.Done? <==> |s| > 0 && s[0] == TAB
    ensures p.Done? ==> p.rest == s[1..]
    ensures p.Failed? ==> p.error == MissingPrefix && p.rest == s
  {
    if |s| > 0 && s[0] == TAB then Done((), s[1..]) else Failed(MissingPrefix, s)
  }

  /** `eat_kv_separator`: consume one `:`; a mismatch is reported as `MissingPrefix`. */
  function EatKvSeparator(s: Bytes): (p: Parsed<()>)
    ensures p.Done? <==> |s| > 0 && s[0] == COLON
    ensures p.Done? ==> p.rest == s[1..]
    ensures p.Failed? ==> p.error == MissingPrefix && p.rest == s
  {
    if |s| > 0 && s[0] == COLON then Done((), s[1..]) else Failed(MissingPrefix, s)
  }

  /** `parse_tag`: the next two bytes, whatever they are. */
  function ParseTag(s: Bytes): (p: Parsed<Tag>)
    ensures p.Done? <==> |s| >= 2
    ensures p.Done? ==> p.value.first == s[0] && p.value.second == s[1] && p.rest == s[2..]
    ensures p.Failed? ==> p.error == MissingFieldTag && p.rest == s
  {
    if |s| < 2 then Failed(MissingFieldTag, s) else Done(Tag(s[0], s[1]), s[2..])
  }

  /** `parse_value`: the longest tab-free prefix; the tab after it stays unread. */
  function ParseValue(s: Bytes): (p: Parsed<Bytes>)
    ensures p.Done? <==> s != [] && s[0] != TAB
    ensures p.Done? ==> |p.value| <= |s| && p.value == s[..|p.value|] && p.rest == s[|p.value|..]
    ensures p.Done? ==> p.value != [] && TAB !in p.value
    ensures p.Done? ==> p.rest == [] || p.rest[0] == TAB
    ensures p.Failed? ==> p.error == MissingValue && p.rest == s
  {
    var i := IndexOf(s, TAB);
    if i == 0 then Failed(MissingValue, s) else Done(s[..i], s[i..])
  }

  /** `str::from_utf8` on a value that has been read. */
  function StrValue(raw: Bytes): (r: Result<Bytes>)
    ensures r.Ok? <==> ValidUtf8(raw)
    ensures r.Ok? ==> r.value == raw
    ensures r.Err? ==> r.error == InvalidUTF8
  {
    if ValidUtf8(raw) then Ok(raw) else Err(InvalidUTF8)
  }

  /** `parse_value` followed by a check of the bytes it read: the shape of
      every per-tag value parser. The cursor stays after the value even when
      the check fails. */
  function ValueThen<T>(s: Bytes, check: Bytes -> Result<T>): Parsed<T> {
    var v :- ParseValue(s);
    Located(check(v.value), v.rest)
  }

  /** `parse_str`: a value that must be valid UTF-8. */
  function ParseStr(s: Bytes): (p: Parsed<Bytes>)
    ensures p.Done? <==> s != [] && s[0] != TAB && ValidUtf8(ParseValue(s).value)
    ensures p.Done? ==> p == ParseValue(s)
    ensures p.Failed? && ParseValue(s).Done? ==> p == Failed(InvalidUTF8, ParseValue(s).rest)
    ensures ParseValue(s).Failed? ==> p == Failed(MissingValue, s)
  {
    ValueThen(s, StrValue)
  }

  /** `parse_comment`: everything that is left, tabs included, as text; the
      cursor ends empty. */
  function ParseComment(s: Bytes): (p: Parsed<Bytes>)
    ensures p.Done? <==> ValidUtf8(s)
    ensures p.Done? ==> p.value == s && p.rest == []
    ensures p.Failed? ==> p.error == InvalidUTF8 && p.rest == s
  {
    if ValidUtf8(s) then Done(s, []) else Failed(InvalidUTF8, s)
  }

  datatype HeaderRowKind = MetaKind | RefSeqKind | ReadGroupKind | ProgramKind | CommentKind

  const HD: Tag := Tag('H' as int, 'D' as int)
  const SQ: Tag := Tag('S' as int, 'Q' as int)
  const RG: Tag := Tag('R' as int, 'G' as int)
  const PG: Tag := Tag('P' as int, 'G' as int)
  const CO: Tag := Tag('C' as int, 'O' as int)

  /** The record code that names each kind of header line. */
  function RecordCode(k: HeaderRowKind): Tag {
    match k
    case MetaKind => HD
    case RefSeqKind => SQ
    case ReadGroupKind => RG
    case ProgramKind => PG
    case CommentKind => CO
  }

  /** `parse_header_row_kind`: the two bytes after `@` name the record kind.
      Two or more bytes are consumed even when they name no kind. */
  function ParseHeaderRowKind(s: Bytes): (p: Parsed<HeaderRowKind>)
    ensures p.Done? ==> RecordCode(p.value).Text() + p.rest == s
    ensures |s| < 2 ==> p == Failed(BadRecordCode, s)
    ensures |s| >= 2 && p.Failed? ==> p == Failed(BadRecordCode, s[2..])
  {
    if |s| < 2 then Failed(BadRecordCode, s)
    else
      var code, rest := Tag(s[0], s[1]), s[2..];
      assert code.Text() + rest == s;
      if code == HD then Done(MetaKind, rest)
      else if code == SQ then Done(RefSeqKind, rest)
      else if code == RG then Done(ReadGroupKind, rest)
      else if code == PG then Done(ProgramKind, rest)
      else if code == CO then Done(CommentKind, rest)
      else Failed(BadRecordCode, rest)
  }

  /** Each record code is recognised as its own kind, and nothing else is
      consumed. */
  lemma RecordCodeRoundTrip(k: HeaderRowKind, rest: Bytes)
    ensures ParseHeaderRowKind(RecordCode(k).Text() + rest) == Done(k, rest)
  {
    var s := RecordCode(k).Text() + rest;
    assert Tag(s[0], s[1]) == RecordCode(k);
    assert s[2..] == rest;
  }

  /** What `Option::replace` leaves behind in `try_insert_once`. */
  datatype Inserted<T> = Inserted(result: Result<()>, slot: Option<T>)

  /** `try_insert_once`: fill an empty slot; a filled slot is a repeated tag.
      The slot holds the new value afterwards in both cases. */
  function TryInsertOnce<T>(slot: Option<T>, value: T): (r: Inserted<T>)
    ensures r.slot == Some(value)
    ensures r.result.Ok? <==> slot.None?
    ensures r.result.Err? ==> r.result.error == RepeatTag
  {
    Inserted(if slot.Some? then Err(RepeatTag) else Ok(()), Some(value))
  }
}
