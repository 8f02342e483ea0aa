/** `parse_header_row` and `parse` (src/header/parser.rs) as they run: the
    cursor moved step by step through one line, and a `for` loop over the
    lines that fills the five locals of the header in place. Each is proved
    to compute what `HeaderGrammar` says. */
module HeaderParser {
  import opened Bytes
  import opened Errors
  import opened HeaderTypes
  import Tokens
  import opened HeaderGrammar
  import MetaParser
  import RefSeqParser
  import ReadGroupParser
  import ProgramParser

  /** `parse_header_row`: `eat_prefix`, `parse_header_row_kind`, then the
      record parser of that kind on the rest of the line. */
  method ParseHeaderRow(line: Bytes) returns (r: Result<HeaderRow>)
    ensures r == HeaderGrammar.ParseHeaderRow(line)
  {
    var s := line;
    var prefix := Tokens.EatPrefix(s);
    if prefix.Failed? {
      return Err(prefix.error);
    }
    s := prefix.rest;
    var kind := Tokens.ParseHeaderRowKind(s);
    if kind.Failed? {
      return Err(kind.error);
    }
    s := kind.rest;
    match kind.value
    case MetaKind =>
      var m := MetaParser.ParseMeta(s);
      r := if m.Done? then Ok(MetaRow(m.value)) else Err(m.error);
    case RefSeqKind =>
      var q := RefSeqParser.ParseRefSeq(s);
      r := if q.Done? then Ok(RefSeqRow(q.value)) else Err(q.error);
    case ReadGroupKind =>
      var g := ReadGroupParser.ParseReadGroup(s);
      r := if g.Done? then Ok(ReadGroupRow(g.value)) else Err(g.error);
    case ProgramKind =>
      var p := ProgramParser.ParseProgram(s);
      r := if p.Done? then Ok(ProgramRow(p.value)) else Err(p.error);
    case CommentKind =>
      var c := Tokens.ParseComment(s);
      r := if c.Done? then Ok(CommentRow(c.value)) else Err(c.error);
  }

  /** `parse`: every line's row goes into the locals `meta`,
      `reference_seqs`, `read_groups`, `programs` and `comments`; the first
      error, from a line or from a clash with an earlier row, is returned at
      once. */
  method Parse(lines: seq<Bytes>) returns (r: Result<Header>)
    ensures r == HeaderGrammar.Parse(lines)
  {
    var meta: Option<HeaderMeta> := Option.None;
    var referenceSeqs: map<Bytes, ReferenceSeq> := map[];
    var readGroups: map<Bytes, ReadGroup> := map[];
    var programs: map<ProgramId, Program> := map[];
    var comments: seq<Bytes> := [];
    for i := 0 to |lines|
      invariant HeaderGrammar.Parse(lines[..i]) == Ok(Header(meta, referenceSeqs, readGroups, programs, comments))
    {
      assert lines[..i + 1][..i] == lines[..i];
      var row := ParseHeaderRow(lines[i]);
      if row.Err? {
        ErrorPersists(lines, i + 1);
        return Err(row.error);
      }
      match row.value
      case MetaRow(m) =>
        var inserted := Tokens.TryInsertOnce(meta, m);
        if inserted.result.Err? {
          ErrorPersists(lines, i + 1);
          return Err(inserted.result.error);
        }
        meta := inserted.slot;
      case RefSeqRow(refSeq) =>
        if refSeq.name in referenceSeqs {
          ErrorPersists(lines, i + 1);
          return Err(DuplicateKey);
        }
        referenceSeqs := referenceSeqs[refSeq.name := refSeq];
      case ReadGroupRow(readGroup) =>
        if readGroup.id in readGroups {
          ErrorPersists(lines, i + 1);
          return Err(DuplicateKey);
        }
        readGroups := readGroups[readGroup.id := readGroup];
      case ProgramRow(program) =>
        if program.id in programs {
          ErrorPersists(lines, i + 1);
          return Err(DuplicateKey);
        }
        programs := programs[program.id := program];
      case CommentRow(comment) =>
        comments := comments + [comment];
    }
    assert lines[..|lines|] == lines;
    r := Ok(Header(meta, referenceSeqs, readGroups, programs, comments));
  }
}
