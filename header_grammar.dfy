/** One header line (`parse_header_row` in src/header/parser.rs) and the
    header assembled from all of them (`parse`), as functions; followed by
    what an assembled header holds, stated over the parsed rows. */
module HeaderGrammar {
  import opened Bytes
  import opened Errors
  import opened Utf8
  import opened HeaderTypes
  import opened Tokens
  import MetaGrammar
  import RefSeqGrammar
  import ReadGroupGrammar
  import ProgramGrammar

  /** One parsed header line. */
  datatype HeaderRow =
    | MetaRow(meta: HeaderMeta)
    | RefSeqRow(refSeq: ReferenceSeq)
    | ReadGroupRow(readGroup: ReadGroup)
    | ProgramRow(program: Program)
    | CommentRow(comment: Bytes)

  /** `parse_header_row_value`: the record parser the kind selects. */
  function ParseHeaderRowValue(kind: HeaderRowKind, s: Bytes): (p: Parsed<HeaderRow>)
    ensures kind == MetaKind && p.Done? ==> p.value.MetaRow?
    ensures kind == RefSeqKind && p.Done? ==> p.value.RefSeqRow?
    ensures kind == ReadGroupKind && p.Done? ==> p.value.ReadGroupRow?
    ensures kind == ProgramKind && p.Done? ==> p.value.ProgramRow?
    ensures kind == CommentKind && p.Done? ==> p.value.CommentRow?
  {
    match kind
    case MetaKind =>
      var m :- MetaGrammar.ParseMeta(s);
      Done(MetaRow(m.value), m.rest)
    case RefSeqKind =>
      var r :- RefSeqGrammar.ParseRefSeq(s);
      Done(RefSeqRow(r.value), r.rest)
    case ReadGroupKind =>
      var g :- ReadGroupGrammar.ParseReadGroup(s);
      Done(ReadGroupRow(g.value), g.rest)
    case ProgramKind =>
      var q :- ProgramGrammar.ParseProgram(s);
      Done(ProgramRow(q.value), q.rest)
    case CommentKind =>
      var c :- ParseComment(s);
      Done(CommentRow(c.value), c.rest)
  }

  /** The three steps of a header line: `@`, the record code, the record. */
  function ParseRow(line: Bytes): Parsed<HeaderRow> {
    var _ :- EatPrefix(line);
    var kind :- ParseHeaderRowKind(line[1..]);
    ParseHeaderRowValue(kind.value, kind.rest)
  }

  /** `parse_header_row`: one header line. */
  function ParseHeaderRow(line: Bytes): (r: Result<HeaderRow>)
    ensures (line == [] || line[0] != AT) ==> r == Err(MissingPrefix)
    ensures |line| > 0 && line[0] == AT && |line| < 3 ==> r == Err(BadRecordCode)
    ensures r.Ok? ==> |line| >= 3 && line[0] == AT
  {
    ParseRow(line).ToResult()
  }

  /** Adding one row to the header: a second `@HD` is a repeated tag
      (`try_insert_once`), a key already present is a duplicate, and a
      comment is appended. */
  function Insert(h: Header, row: HeaderRow): Result<Header> {
    match row
    case MetaRow(m) =>
      var ins := TryInsertOnce(h.meta, m);
      if ins.result.Err? then Err(ins.result.error) else Ok(h.(meta := ins.slot))
    case RefSeqRow(r) =>
      if r.name in h.referenceSeqs then Err(DuplicateKey)
      else Ok(h.(referenceSeqs := h.referenceSeqs[r.name := r]))
    case ReadGroupRow(g) =>
      if g.id in h.readGroups then Err(DuplicateKey)
      else Ok(h.(readGroups := h.readGroups[g.id := g]))
    case ProgramRow(q) =>
      if q.id in h.programs then Err(DuplicateKey)
      else Ok(h.(programs := h.programs[q.id := q]))
    case CommentRow(c) =>
      Ok(h.(comments := h.comments + [c]))
  }

  /** Each record is filed under its own key. */
  predicate WellKeyed(h: Header) {
    && (forall k :: k in h.referenceSeqs ==> h.referenceSeqs[k].name == k)
    && (forall k :: k in h.readGroups ==> h.readGroups[k].id == k)
    && (forall k :: k in h.programs ==> h.programs[k].id == k)
  }

  /** The `for` loop of `parse` over the lines, for a given line parser:
      each line's row is inserted in turn, and the first error stops it. */
  function Assemble(parseRow: Bytes -> Result<HeaderRow>, lines: seq<Bytes>): (r: Result<Header>)
    ensures r.Ok? ==> WellKeyed(r.value)
    decreases |lines|
  {
    if lines == [] then Ok(EMPTY_HEADER)
    else
      var h :- Assemble(parseRow, lines[..|lines| - 1]);
      var row :- parseRow(lines[|lines| - 1]);
      InsertWellKeyed(h, row);
      Insert(h, row)
  }

  /** `parse`: the header of a sequence of header lines. */
  function Parse(lines: seq<Bytes>): Result<Header> {
    Assemble(ParseHeaderRow, lines)
  }

  lemma InsertWellKeyed(h: Header, row: HeaderRow)
    requires WellKeyed(h)
    ensures Insert(h, row).Ok? ==> WellKeyed(Insert(h, row).value)
  {
  }

  // ---------------------------------------------------------------------
  // The header over the parsed rows

  /** The rows inserted in order. */
  function Fold(rows: seq<HeaderRow>): Result<Header>
    decreases |rows|
  {
    if rows == [] then Ok(EMPTY_HEADER)
    else
      var h :- Fold(rows[..|rows| - 1]);
      Insert(h, rows[|rows| - 1])
  }

  /** The rows of lines that all parse. */
  function RowsOf(parseRow: Bytes -> Result<HeaderRow>, lines: seq<Bytes>): (rows: seq<HeaderRow>)
    requires forall i :: 0 <= i < |lines| ==> parseRow(lines[i]).Ok?
    ensures |rows| == |lines|
    ensures forall i :: 0 <= i < |lines| ==> rows[i] == parseRow(lines[i]).value
    decreases |lines|
  {
    if lines == [] then []
    else RowsOf(parseRow, lines[..|lines| - 1]) + [parseRow(lines[|lines| - 1]).value]
  }

  /** A later row that cannot join a header holding an earlier one. */
  predicate Clash(a: HeaderRow, b: HeaderRow) {
    || (a.MetaRow? && b.MetaRow?)
    || (a.RefSeqRow? && b.RefSeqRow? && a.refSeq.name == b.refSeq.name)
    || (a.ReadGroupRow? && b.ReadGroupRow? && a.readGroup.id == b.readGroup.id)
    || (a.ProgramRow? && b.ProgramRow? && a.program.id == b.program.id)
  }

  function ClashError(b: HeaderRow): ParseError {
    if b.MetaRow? then RepeatTag else DuplicateKey
  }

  predicate NoClash(rows: seq<HeaderRow>) {
    forall i, j :: 0 <= i < j < |rows| ==> !Clash(rows[i], rows[j])
  }

  /** The `@HD` record among the rows: the last one, if any. */
  function MetaOf(rows: seq<HeaderRow>): (m: Option<HeaderMeta>)
    ensures m.None? <==> forall i :: 0 <= i < |rows| ==> !rows[i].MetaRow?
    decreases |rows|
  {
    if rows == [] then Option.None
    else if rows[|rows| - 1].MetaRow? then Some(rows[|rows| - 1].meta)
    else MetaOf(rows[..|rows| - 1])
  }

  /** The comments among the rows, in order. */
  function CommentsOf(rows: seq<HeaderRow>): seq<Bytes>
    decreases |rows|
  {
    if rows == [] then []
    else
      var last := rows[|rows| - 1];
      CommentsOf(rows[..|rows| - 1]) + (if last.CommentRow? then [last.comment] else [])
  }

  function RefSeqNames(rows: seq<HeaderRow>): (ns: set<Bytes>)
    ensures forall i :: 0 <= i < |rows| && rows[i].RefSeqRow? ==> rows[i].refSeq.name in ns
    ensures forall k :: k in ns ==> exists i :: 0 <= i < |rows| && rows[i].RefSeqRow? && rows[i].refSeq.name == k
    decreases |rows|
  {
    if rows == [] then {}
    else
      var last := rows[|rows| - 1];
      RefSeqNames(rows[..|rows| - 1]) + (if last.RefSeqRow? then {last.refSeq.name} else {})
  }

  function ReadGroupIds(rows: seq<HeaderRow>): (ns: set<Bytes>)
    ensures forall i :: 0 <= i < |rows| && rows[i].ReadGroupRow? ==> rows[i].readGroup.id in ns
    ensures forall k :: k in ns ==> exists i :: 0 <= i < |rows| && rows[i].ReadGroupRow? && rows[i].readGroup.id == k
    decreases |rows|
  {
    if rows == [] then {}
    else
      var last := rows[|rows| - 1];
      ReadGroupIds(rows[..|rows| - 1]) + (if last.ReadGroupRow? then {last.readGroup.id} else {})
  }

  function ProgramIds(rows: seq<HeaderRow>): (ns: set<ProgramId>)
    ensures forall i :: 0 <= i < |rows| && rows[i].ProgramRow? ==> rows[i].program.id in ns
    ensures forall k :: k in ns ==> exists i :: 0 <= i < |rows| && rows[i].ProgramRow? && rows[i].program.id == k
    decreases |rows|
  {
    if rows == [] then {}
    else
      var last := rows[|rows| - 1];
      ProgramIds(rows[..|rows| - 1]) + (if last.ProgramRow? then {last.program.id} else {})
  }

  /** The reference sequences of the rows, each under its name, and no other key. */
  predicate RefSeqsOf(m: map<Bytes, ReferenceSeq>, rows: seq<HeaderRow>) {
    && m.Keys == RefSeqNames(rows)
    && (forall i :: 0 <= i < |rows| && rows[i].RefSeqRow? ==> m[rows[i].refSeq.name] == rows[i].refSeq)
  }

  /** The read groups of the rows, each under its id, and no other key. */
  predicate ReadGroupsOf(m: map<Bytes, ReadGroup>, rows: seq<HeaderRow>) {
    && m.Keys == ReadGroupIds(rows)
    && (forall i :: 0 <= i < |rows| && rows[i].ReadGroupRow? ==> m[rows[i].readGroup.id] == rows[i].readGroup)
  }

  /** The programs of the rows, each under its id, and no other key. */
  predicate ProgramsOf(m: map<ProgramId, Program>, rows: seq<HeaderRow>) {
    && m.Keys == ProgramIds(rows)
    && (forall i :: 0 <= i < |rows| && rows[i].ProgramRow? ==> m[rows[i].program.id] == rows[i].program)
  }

  /** The header the rows describe: its `@HD` record, its comments in order,
      and every keyed record retrievable under its key, with no other keys. */
  predicate Describes(h: Header, rows: seq<HeaderRow>) {
    && h.meta == MetaOf(rows)
    && h.comments == CommentsOf(rows)
    && RefSeqsOf(h.referenceSeqs, rows)
    && ReadGroupsOf(h.readGroups, rows)
    && ProgramsOf(h.programs, rows)
  }

  /** A row of another kind leaves the `@HD` record and the comments as they were. */
  lemma SummariesKept(rows: seq<HeaderRow>, row: HeaderRow)
    ensures !row.MetaRow? ==> MetaOf(rows + [row]) == MetaOf(rows)
    ensures !row.CommentRow? ==> CommentsOf(rows + [row]) == CommentsOf(rows)
    ensures row.MetaRow? ==> MetaOf(rows + [row]) == Some(row.meta)
    ensures row.CommentRow? ==> CommentsOf(rows + [row]) == CommentsOf(rows) + [row.comment]
  {
    assert (rows + [row])[..|rows|] == rows;
  }

  lemma RefSeqsKept(m: map<Bytes, ReferenceSeq>, rows: seq<HeaderRow>, row: HeaderRow)
    requires RefSeqsOf(m, rows) && !row.RefSeqRow?
    ensures RefSeqsOf(m, rows + [row])
  {
    var all := rows + [row];
    assert all[..|rows|] == rows;
    forall i | 0 <= i < |all| && all[i].RefSeqRow?
      ensures m[all[i].refSeq.name] == all[i].refSeq
    {
      assert all[i] == rows[i];
    }
  }

  lemma RefSeqsAdded(m: map<Bytes, ReferenceSeq>, rows: seq<HeaderRow>, r: ReferenceSeq)
    requires RefSeqsOf(m, rows) && r.name !in m
    ensures RefSeqsOf(m[r.name := r], rows + [RefSeqRow(r)])
  {
    var all := rows + [RefSeqRow(r)];
    assert all[..|rows|] == rows;
    forall i | 0 <= i < |all| && all[i].RefSeqRow?
      ensures m[r.name := r][all[i].refSeq.name] == all[i].refSeq
    {
      if i < |rows| {
        assert all[i] == rows[i];
      }
    }
  }

  lemma ReadGroupsKept(m: map<Bytes, ReadGroup>, rows: seq<HeaderRow>, row: HeaderRow)
    requires ReadGroupsOf(m, rows) && !row.ReadGroupRow?
    ensures ReadGroupsOf(m, rows + [row])
  {
    var all := rows + [row];
    assert all[..|rows|] == rows;
    forall i | 0 <= i < |all| && all[i].ReadGroupRow?
      ensures m[all[i].readGroup.id] == all[i].readGroup
    {
      assert all[i] == rows[i];
    }
  }

  lemma ReadGroupsAdded(m: map<Bytes, ReadGroup>, rows: seq<HeaderRow>, g: ReadGroup)
    requires ReadGroupsOf(m, rows) && g.id !in m
    ensures ReadGroupsOf(m[g.id := g], rows + [ReadGroupRow(g)])
  {
    var all := rows + [ReadGroupRow(g)];
    assert all[..|rows|] == rows;
    forall i | 0 <= i < |all| && all[i].ReadGroupRow?
      ensures m[g.id := g][all[i].readGroup.id] == all[i].readGroup
    {
      if i < |rows| {
        assert all[i] == rows[i];
      }
    }
  }

  lemma ProgramsKept(m: map<ProgramId, Program>, rows: seq<HeaderRow>, row: HeaderRow)
    requires ProgramsOf(m, rows) && !row.ProgramRow?
    ensures ProgramsOf(m, rows + [row])
  {
    var all := rows + [row];
    assert all[..|rows|] == rows;
    forall i | 0 <= i < |all| && all[i].ProgramRow?
      ensures m[all[i].program.id] == all[i].program
    {
      assert all[i] == rows[i];
    }
  }

  lemma ProgramsAdded(m: map<ProgramId, Program>, rows: seq<HeaderRow>, q: Program)
    requires ProgramsOf(m, rows) && q.id !in m
    ensures ProgramsOf(m[q.id := q], rows + [ProgramRow(q)])
  {
    var all := rows + [ProgramRow(q)];
    assert all[..|rows|] == rows;
    forall i | 0 <= i < |all| && all[i].ProgramRow?
      ensures m[q.id := q][all[i].program.id] == all[i].program
    {
      if i < |rows| {
        assert all[i] == rows[i];
      }
    }
  }

  /** A row that joins a header the earlier rows describe. */
  lemma InsertDescribes(rows: seq<HeaderRow>, h: Header, row: HeaderRow)
    requires Describes(h, rows)
    ensures Insert(h, row).Ok? <==> forall i :: 0 <= i < |rows| ==> !Clash(rows[i], row)
    ensures Insert(h, row).Err? ==> Insert(h, row).error == ClashError(row)
    ensures Insert(h, row).Ok? ==> Describes(Insert(h, row).value, rows + [row])
  {
    SummariesKept(rows, row);
    if !row.RefSeqRow? {
      RefSeqsKept(h.referenceSeqs, rows, row);
    }
    if !row.ReadGroupRow? {
      ReadGroupsKept(h.readGroups, rows, row);
    }
    if !row.ProgramRow? {
      ProgramsKept(h.programs, rows, row);
    }
    match row
    case MetaRow(_) =>
      InsertMeta(rows, h, row);
    case RefSeqRow(r) =>
      InsertRefSeq(rows, h, r);
    case ReadGroupRow(g) =>
      InsertReadGroup(rows, h, g);
    case ProgramRow(q) =>
      InsertProgram(rows, h, q);
    case CommentRow(c) =>
      assert forall i :: 0 <= i < |rows| ==> !Clash(rows[i], row);
  }

  /** A second `@HD` record clashes with the first. */
  lemma InsertMeta(rows: seq<HeaderRow>, h: Header, row: HeaderRow)
    requires h.meta == MetaOf(rows) && row.MetaRow?
    ensures Insert(h, row).Ok? <==> forall i :: 0 <= i < |rows| ==> !Clash(rows[i], row)
  {
    if h.meta.Some? {
      var i :| 0 <= i < |rows| && rows[i].MetaRow?;
      assert Clash(rows[i], row);
    }
  }

  /** A reference sequence clashes with one of the same name, and otherwise joins the map. */
  lemma InsertRefSeq(rows: seq<HeaderRow>, h: Header, r: ReferenceSeq)
    requires RefSeqsOf(h.referenceSeqs, rows)
    ensures Insert(h, RefSeqRow(r)).Ok? <==> forall i :: 0 <= i < |rows| ==> !Clash(rows[i], RefSeqRow(r))
    ensures Insert(h, RefSeqRow(r)).Ok? ==> RefSeqsOf(Insert(h, RefSeqRow(r)).value.referenceSeqs, rows + [RefSeqRow(r)])
  {
    if r.name in h.referenceSeqs {
      var i :| 0 <= i < |rows| && rows[i].RefSeqRow? && rows[i].refSeq.name == r.name;
      assert Clash(rows[i], RefSeqRow(r));
    } else {
      RefSeqsAdded(h.referenceSeqs, rows, r);
    }
  }

  /** A read group clashes with one of the same id, and otherwise joins the map. */
  lemma InsertReadGroup(rows: seq<HeaderRow>, h: Header, g: ReadGroup)
    requires ReadGroupsOf(h.readGroups, rows)
    ensures Insert(h, ReadGroupRow(g)).Ok? <==> forall i :: 0 <= i < |rows| ==> !Clash(rows[i], ReadGroupRow(g))
    ensures Insert(h, ReadGroupRow(g)).Ok? ==> ReadGroupsOf(Insert(h, ReadGroupRow(g)).value.readGroups, rows + [ReadGroupRow(g)])
  {
    if g.id in h.readGroups {
      var i :| 0 <= i < |rows| && rows[i].ReadGroupRow? && rows[i].readGroup.id == g.id;
      assert Clash(rows[i], ReadGroupRow(g));
    } else {
      ReadGroupsAdded(h.readGroups, rows, g);
    }
  }

  /** A program clashes with one of the same id, and otherwise joins the map. */
  lemma InsertProgram(rows: seq<HeaderRow>, h: Header, q: Program)
    requires ProgramsOf(h.programs, rows)
    ensures Insert(h, ProgramRow(q)).Ok? <==> forall i :: 0 <= i < |rows| ==> !Clash(rows[i], ProgramRow(q))
    ensures Insert(h, ProgramRow(q)).Ok? ==> ProgramsOf(Insert(h, ProgramRow(q)).value.programs, rows + [ProgramRow(q)])
  {
    if q.id in h.programs {
      var i :| 0 <= i < |rows| && rows[i].ProgramRow? && rows[i].program.id == q.id;
      assert Clash(rows[i], ProgramRow(q));
    } else {
      ProgramsAdded(h.programs, rows, q);
    }
  }

  /** The rows fold to a header exactly when no row clashes with an earlier
      one; the header is then the one the rows describe, and otherwise the
      error is that of the first clashing row. */
  lemma {:induction false} FoldSpec(rows: seq<HeaderRow>)
    ensures Fold(rows).Ok? <==> NoClash(rows)
    ensures Fold(rows).Ok? ==> Describes(Fold(rows).value, rows)
    ensures Fold(rows).Err? ==> Fold(rows).error == RepeatTag || Fold(rows).error == DuplicateKey
    decreases |rows|
  {
    if rows != [] {
      var n := |rows| - 1;
      var prefix := rows[..n];
      assert rows == prefix + [rows[n]];
      FoldSpec(prefix);
      if Fold(prefix).Ok? {
        InsertDescribes(prefix, Fold(prefix).value, rows[n]);
      }
      assert NoClash(rows) ==> NoClash(prefix) by {
        if NoClash(rows) {
          forall i, j | 0 <= i < j < |prefix| ensures !Clash(prefix[i], prefix[j]) {
            assert prefix[i] == rows[i] && prefix[j] == rows[j];
          }
        }
      }
      assert NoClash(prefix) && (forall i :: 0 <= i < n ==> !Clash(prefix[i], rows[n])) ==> NoClash(rows) by {
        if NoClash(prefix) && (forall i :: 0 <= i < n ==> !Clash(prefix[i], rows[n])) {
          forall i, j | 0 <= i < j < |rows| ensures !Clash(rows[i], rows[j]) {
            assert rows[i] == prefix[i];
            if j < n {
              assert rows[j] == prefix[j];
            }
          }
        }
      }
      if NoClash(rows) {
        forall i | 0 <= i < n ensures !Clash(prefix[i], rows[n]) {
          assert prefix[i] == rows[i];
        }
      }
    }
  }

  /** The first row that clashes with an earlier one decides the error:
      `RepeatTag` for a second `@HD`, `DuplicateKey` for a key seen before,
      wherever the earlier row stands. */
  lemma FirstClash(rows: seq<HeaderRow>, i: nat, j: nat)
    requires i < j < |rows| && Clash(rows[i], rows[j])
    requires NoClash(rows[..j])
    ensures Fold(rows) == Err(ClashError(rows[j]))
  {
    var prefix := rows[..j];
    FoldSpec(prefix);
    InsertDescribes(prefix, Fold(prefix).value, rows[j]);
    assert rows[..j + 1][..j] == prefix;
    assert prefix[i] == rows[i];
    FoldErrorPersists(rows, j + 1);
  }

  /** Once the rows so far fail, the fold fails with the same error. */
  lemma {:induction false} FoldErrorPersists(rows: seq<HeaderRow>, n: nat)
    requires n <= |rows| && Fold(rows[..n]).Err?
    ensures Fold(rows) == Fold(rows[..n])
    decreases |rows| - n
  {
    if n < |rows| {
      assert rows[..n + 1][..n] == rows[..n];
      FoldErrorPersists(rows, n + 1);
    } else {
      assert rows[..n] == rows;
    }
  }

  /** Once the lines so far fail, the loop fails with the same error:
      nothing after the first failing line is looked at. */
  lemma {:induction false} AssembleErrorPersists(parseRow: Bytes -> Result<HeaderRow>, lines: seq<Bytes>, n: nat)
    requires n <= |lines| && Assemble(parseRow, lines[..n]).Err?
    ensures Assemble(parseRow, lines) == Assemble(parseRow, lines[..n])
    decreases |lines| - n
  {
    if n < |lines| {
      assert lines[..n + 1][..n] == lines[..n];
      AssembleErrorPersists(parseRow, lines, n + 1);
    } else {
      assert lines[..n] == lines;
    }
  }

  /** Lines that all parse give the header their rows fold to. */
  lemma {:induction false} AssembleRows(parseRow: Bytes -> Result<HeaderRow>, lines: seq<Bytes>)
    requires forall i :: 0 <= i < |lines| ==> parseRow(lines[i]).Ok?
    ensures Assemble(parseRow, lines) == Fold(RowsOf(parseRow, lines))
    decreases |lines|
  {
    if lines != [] {
      var n := |lines| - 1;
      AssembleRows(parseRow, lines[..n]);
      assert RowsOf(parseRow, lines)[..n] == RowsOf(parseRow, lines[..n]);
    }
  }

  lemma AssembleLineFails(parseRow: Bytes -> Result<HeaderRow>, lines: seq<Bytes>, j: nat)
    requires j < |lines|
    requires forall i :: 0 <= i < j ==> parseRow(lines[i]).Ok?
    requires parseRow(lines[j]).Err?
    requires NoClash(RowsOf(parseRow, lines[..j]))
    ensures Assemble(parseRow, lines) == Err(parseRow(lines[j]).error)
  {
    var prefix := lines[..j];
    assert forall i :: 0 <= i < j ==> prefix[i] == lines[i];
    assert Assemble(parseRow, prefix).Ok? by {
      AssembleRows(parseRow, prefix);
      FoldSpec(RowsOf(parseRow, prefix));
    }
    var upTo := lines[..j + 1];
    assert upTo[..j] == prefix && upTo[j] == lines[j];
    assert Assemble(parseRow, upTo) == Err(parseRow(lines[j]).error);
    AssembleErrorPersists(parseRow, lines, j + 1);
  }

  /** `RowsOf` is the one list of rows the lines parse to. */
  lemma RowsOfIs(parseRow: Bytes -> Result<HeaderRow>, lines: seq<Bytes>, rows: seq<HeaderRow>)
    requires |rows| == |lines|
    requires forall i :: 0 <= i < |lines| ==> parseRow(lines[i]) == Ok(rows[i])
    ensures RowsOf(parseRow, lines) == rows
  {
  }

  lemma RowsOfPrefix(parseRow: Bytes -> Result<HeaderRow>, lines: seq<Bytes>, n: nat)
    requires n <= |lines|
    requires forall i :: 0 <= i < |lines| ==> parseRow(lines[i]).Ok?
    ensures forall i :: 0 <= i < n ==> parseRow(lines[..n][i]).Ok?
    ensures RowsOf(parseRow, lines[..n]) == RowsOf(parseRow, lines)[..n]
  {
    var whole := RowsOf(parseRow, lines);
    forall i | 0 <= i < n
      ensures parseRow(lines[..n][i]) == Ok(whole[..n][i])
    {
      assert lines[..n][i] == lines[i] && whole[..n][i] == whole[i];
    }
    RowsOfIs(parseRow, lines[..n], whole[..n]);
  }

  lemma AssembleClash(parseRow: Bytes -> Result<HeaderRow>, lines: seq<Bytes>, i: nat, j: nat)
    requires i < j < |lines|
    requires forall k :: 0 <= k <= j ==> parseRow(lines[k]).Ok?
    requires Clash(parseRow(lines[i]).value, parseRow(lines[j]).value)
    requires NoClash(RowsOf(parseRow, lines[..j]))
    ensures Assemble(parseRow, lines) == Err(ClashError(parseRow(lines[j]).value))
  {
    var upTo := lines[..j + 1];
    assert forall k :: 0 <= k <= j ==> upTo[k] == lines[k];
    AssembleRows(parseRow, upTo);
    var rows := RowsOf(parseRow, upTo);
    assert upTo[..j] == lines[..j];
    RowsOfPrefix(parseRow, upTo, j);
    assert rows[i] == parseRow(lines[i]).value && rows[j] == parseRow(lines[j]).value;
    FirstClash(rows, i, j);
    AssembleErrorPersists(parseRow, lines, j + 1);
  }

  /** A second `@HD` line fails `RepeatTag` and a second record with a key
      already present fails `DuplicateKey`, however far apart the two lines
      are, unless an earlier line has already failed. */
  lemma ClashingLines(lines: seq<Bytes>, i: nat, j: nat)
    requires i < j < |lines|
    requires forall k :: 0 <= k <= j ==> ParseHeaderRow(lines[k]).Ok?
    requires Clash(ParseHeaderRow(lines[i]).value, ParseHeaderRow(lines[j]).value)
    requires NoClash(RowsOf(ParseHeaderRow, lines[..j]))
    ensures Parse(lines) == Err(ClashError(ParseHeaderRow(lines[j]).value))
  {
    AssembleClash(ParseHeaderRow, lines, i, j);
  }

  /** Once the lines so far fail, `parse` fails with the same error. */
  lemma ErrorPersists(lines: seq<Bytes>, n: nat)
    requires n <= |lines| && Parse(lines[..n]).Err?
    ensures Parse(lines) == Parse(lines[..n])
  {
    AssembleErrorPersists(ParseHeaderRow, lines, n);
  }

  /** A line that does not parse, after lines that parse and fit together,
      is the error of the whole header. */
  lemma LineFails(lines: seq<Bytes>, j: nat)
    requires j < |lines|
    requires forall i :: 0 <= i < j ==> ParseHeaderRow(lines[i]).Ok?
    requires ParseHeaderRow(lines[j]).Err?
    requires NoClash(RowsOf(ParseHeaderRow, lines[..j]))
    ensures Parse(lines) == Err(ParseHeaderRow(lines[j]).error)
  {
    AssembleLineFails(ParseHeaderRow, lines, j);
  }

  /** The header of lines that all parse: it exists exactly when no two
      `@HD` lines occur and no key repeats, and it then holds every record
      under its key and the comments in order. */
  lemma ParseSpec(lines: seq<Bytes>, rows: seq<HeaderRow>)
    requires |rows| == |lines|
    requires forall i :: 0 <= i < |lines| ==> ParseHeaderRow(lines[i]) == Ok(rows[i])
    ensures Parse(lines).Ok? <==> NoClash(rows)
    ensures Parse(lines).Ok? ==> Describes(Parse(lines).value, rows)
  {
    AssembleSpec(ParseHeaderRow, lines);
    assert RowsOf(ParseHeaderRow, lines) == rows;
  }

  lemma AssembleSpec(parseRow: Bytes -> Result<HeaderRow>, lines: seq<Bytes>)
    requires forall i :: 0 <= i < |lines| ==> parseRow(lines[i]).Ok?
    ensures Assemble(parseRow, lines).Ok? <==> NoClash(RowsOf(parseRow, lines))
    ensures Assemble(parseRow, lines).Ok? ==> Describes(Assemble(parseRow, lines).value, RowsOf(parseRow, lines))
  {
    AssembleRows(parseRow, lines);
    FoldSpec(RowsOf(parseRow, lines));
  }

  /** A header line of a tagged kind is that kind's record, read from the
      bytes after its code. */
  lemma RecordLine(k: HeaderRowKind, rest: Bytes)
    ensures ParseHeaderRow([AT] + RecordCode(k).Text() + rest) == ParseHeaderRowValue(k, rest).ToResult()
  {
    var line := [AT] + RecordCode(k).Text() + rest;
    assert line[1..] == RecordCode(k).Text() + rest;
    RecordCodeRoundTrip(k, rest);
  }

  /** A comment line keeps everything after `@CO`, the tab that follows the
      code included. */
  lemma CommentLine(text: Bytes)
    ensures ParseHeaderRow([AT] + CO.Text() + text) == if ValidUtf8(text) then Ok(CommentRow(text)) else Err(InvalidUTF8)
  {
    RecordLine(CommentKind, text);
  }
}
