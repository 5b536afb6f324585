// The row loop of .import in CSV mode.

module CsvImport {
  import opened Bytes
  import opened CsvFormat
  import opened CsvRoundTrip
  import opened CsvShell

  type Row = seq<Option<Text>>

  // sqlite3_bind_text with length -1: the C string, or NULL for a null pointer.
  function BoundValue(f: Option<Text>): Option<Text> {
    if f.None? then None else Some(CStr(f.value))
  }

  // A record cut to nCol values, or padded to nCol with NULL.
  function Normalise(fields: seq<Option<Text>>, nCol: nat): (r: Row)
    ensures |r| == nCol
  {
    seq(nCol, i requires 0 <= i => if i < |fields| then BoundValue(fields[i]) else None)
  }

  // The records of a stream, one after the other.
  function Records(s: Text, cSep: int, rSep: int): seq<seq<Option<Text>>>
    requires cSep != EOF && rSep != EOF
    decreases |s|
  {
    if s == [] then []
    else
      var rec := ReadRecord(s, cSep, rSep);
      [rec.fields] + Records(rec.rest, cSep, rSep)
  }

  function NormaliseAll(records: seq<seq<Option<Text>>>, nCol: nat): seq<Row> {
    if records == [] then [] else [Normalise(records[0], nCol)] + NormaliseAll(records[1..], nCol)
  }

  // The prepared INSERT: parameter values persist across executions.
  class Statement {
    var bound: Row
    var inserts: seq<Row>

    constructor (initial: Row)
      ensures bound == initial && inserts == []
    {
      bound, inserts := initial, [];
    }

    method Bind(i: nat, v: Option<Text>)
      requires 1 <= i <= |bound|
      modifies this`bound
      ensures bound == old(bound)[i - 1 := v]
    {
      bound := bound[i - 1 := v];
    }

    method Step()
      modifies this`inserts
      ensures inserts == old(inserts) + [bound]
    {
      inserts := inserts + [bound];
    }
  }

  function Prepend(done: seq<Option<Text>>, rec: Record): Record {
    Record(done + rec.fields, rec.term, rec.rest)
  }

  // The fields `done` of record `rec` have been read; unless the last of them
  // ended the record, the rest of it is still unread.
  ghost predicate Progress(rec: Record, done: seq<Option<Text>>, ctx: ImportCtx)
    requires ctx.Valid()
    reads ctx
  {
    if done == [] || ctx.cTerm == ctx.cColSep
    then rec == Prepend(done, ReadRecord(ctx.Unread(), ctx.cColSep, ctx.cRowSep))
    else rec == Record(done, ctx.cTerm, ctx.Unread())
  }

  // Reading one more field of an unfinished record is progress.
  method NextField(ctx: ImportCtx, ghost rec: Record, ghost done: seq<Option<Text>>) returns (r: Option<Text>)
    requires ctx.Valid() && ctx.nAlloc > 0 && Progress(rec, done, ctx)
    requires done == [] || ctx.cTerm == ctx.cColSep
    modifies ctx
    ensures ctx.Valid() && ctx.nAlloc > 0 && Progress(rec, done + [r], ctx)
    ensures r.None? <==> old(ctx.Unread()) == []
    ensures r.None? ==> ctx.cTerm == EOF
    ensures ctx.cTerm == ctx.cColSep ==> |ctx.Unread()| < old(|ctx.Unread()|)
  {
    ghost var s := ctx.Unread();
    r := ctx.ReadOneField();
    ReadConsumes(s, ctx.cColSep, ctx.cRowSep);
    ghost var tail := ReadRecord(s, ctx.cColSep, ctx.cRowSep);
    if ctx.cTerm == ctx.cColSep {
      ghost var tail' := ReadRecord(ctx.Unread(), ctx.cColSep, ctx.cRowSep);
      assert done + ([r] + tail'.fields) == (done + [r]) + tail'.fields;
    }
  }

  ghost predicate BoundAs(bound: Row, done: seq<Option<Text>>) {
    |done| <= |bound| && forall k :: 0 <= k < |done| ==> bound[k] == BoundValue(done[k])
  }

  ghost predicate NormalisedAs(bound: Row, done: seq<Option<Text>>, nCol: nat) {
    |bound| == nCol && forall k :: 0 <= k < nCol ==> bound[k] == if k < |done| then BoundValue(done[k]) else None
  }

  lemma NormalisedIs(bound: Row, done: seq<Option<Text>>, nCol: nat)
    ensures NormalisedAs(bound, done, nCol) <==> bound == Normalise(done, nCol)
  {
  }

  // The column loop after i columns: up to nCol of them have been read and bound;
  // past nCol the record was shorter and the rest has been bound to NULL.
  ghost predicate ColumnsBound(ctx: ImportCtx, bound: Row, nCol: nat, rec: Record, i: nat, done: seq<Option<Text>>)
    reads ctx
  {
    && ctx.Valid() && ctx.nAlloc > 0 && |bound| == nCol && Progress(rec, done, ctx)
    && (i > 0 ==> done != [])
    && (i <= nCol ==> |done| == i && BoundAs(bound, done))
    && (i < nCol ==> done == [] || ctx.cTerm == ctx.cColSep)
    && (i > nCol ==> NormalisedAs(bound, done, nCol) && ctx.cTerm != ctx.cColSep)
  }

  // One turn of the column loop, for a column that is there.
  method BindColumn(ctx: ImportCtx, stmt: Statement, nCol: nat, z: Option<Text>, i: nat,
                    ghost rec: Record, ghost done: seq<Option<Text>>)
    returns (i': nat)
    requires ctx.Valid() && ctx.nAlloc > 0 && |stmt.bound| == nCol && i < nCol
    requires |done| == i && BoundAs(stmt.bound, done) && Progress(rec, done + [z], ctx)
    modifies stmt`bound
    ensures i' > i && ColumnsBound(ctx, stmt.bound, nCol, rec, i', done + [z])
  {
    hide Progress, BoundValue;
    stmt.Bind(i + 1, BoundValue(z));
    i' := i;
    if i < nCol - 1 && ctx.cTerm != ctx.cColSep {
      i' := FillWithNull(stmt, i + 2, nCol, done + [z]);
    }
    i' := i' + 1;
  }

  // The column loop.  It leaves i == 0 exactly when there was no record.
  method BindColumns(ctx: ImportCtx, stmt: Statement, nCol: nat, ghost rec: Record)
    returns (i: nat, ghost done: seq<Option<Text>>)
    requires ctx.Valid() && ctx.nAlloc > 0 && nCol >= 1 && |stmt.bound| == nCol
    requires rec == ReadRecord(ctx.Unread(), ctx.cColSep, ctx.cRowSep)
    modifies ctx, stmt`bound
    ensures ctx.Valid() && ctx.nAlloc > 0 && |stmt.bound| == nCol
    ensures old(ctx.Unread()) == [] ==> i == 0 && ctx.cTerm == EOF && ctx.Unread() == []
    ensures old(ctx.Unread()) != [] ==> i >= nCol && done != [] && Progress(rec, done, ctx)
    ensures old(ctx.Unread()) != [] ==> NormalisedAs(stmt.bound, done, nCol)
    ensures ctx.cTerm == ctx.cColSep ==> |done| == nCol
  {
    i, done := 0, [];
    ghost var s := ctx.Unread();
    Unstarted(rec);
    hide ReadRecord, BoundValue;
    while i < nCol
      invariant ColumnsBound(ctx, stmt.bound, nCol, rec, i, done)
      invariant if i == 0 then ctx.Unread() == s else s != []
      decreases nCol - i
    {
      var z := NextField(ctx, rec, done);
      if z.None? && i == 0 {
        return;
      }
      i := BindColumn(ctx, stmt, nCol, z, i, rec, done);
      done := done + [z];
    }
  }

  lemma Unstarted(rec: Record)
    ensures Prepend([], rec) == rec
  {
    assert [] + rec.fields == rec.fields;
  }

  method FillWithNull(stmt: Statement, from: nat, nCol: nat, ghost done: seq<Option<Text>>) returns (i: nat)
    requires |stmt.bound| == nCol && from == |done| + 1 <= nCol && BoundAs(stmt.bound, done)
    modifies stmt`bound
    ensures i == nCol + 1 && NormalisedAs(stmt.bound, done, nCol)
  {
    i := from;
    while i <= nCol
      invariant from <= i <= nCol + 1 && |stmt.bound| == nCol && BoundAs(stmt.bound, done)
      invariant forall k :: |done| <= k < i - 1 ==> stmt.bound[k] == None
    {
      stmt.Bind(i, None);
      i := i + 1;
    }
  }

  // One turn of the do-while loop: no insert at end of file, otherwise exactly
  // one, whose values are the next record cut or padded to nCol.  Whatever was
  // bound before does not matter.
  method ImportRow(ctx: ImportCtx, stmt: Statement, nCol: nat)
    requires ctx.Valid() && ctx.nAlloc > 0 && nCol >= 1 && |stmt.bound| == nCol
    modifies ctx, stmt
    ensures ctx.Valid() && ctx.nAlloc > 0 && |stmt.bound| == nCol
    ensures old(ctx.Unread()) == [] ==>
              stmt.inserts == old(stmt.inserts) && ctx.cTerm == EOF && ctx.Unread() == []
    ensures old(ctx.Unread()) != [] ==>
              var rec := ReadRecord(old(ctx.Unread()), ctx.cColSep, ctx.cRowSep);
              && stmt.inserts == old(stmt.inserts) + [Normalise(rec.fields, nCol)]
              && ctx.cTerm == rec.term && ctx.Unread() == rec.rest
  {
    ghost var s := ctx.Unread();
    ghost var rec := ReadRecord(s, ctx.cColSep, ctx.cRowSep);
    var i; ghost var done;
    i, done := BindColumns(ctx, stmt, nCol, rec);
    if ctx.cTerm == ctx.cColSep {
      var first := true;
      while first || ctx.cTerm == ctx.cColSep
        invariant ctx.Valid() && ctx.nAlloc > 0 && Progress(rec, done, ctx) && done != []
        invariant (first ==> ctx.cTerm == ctx.cColSep) && stmt.inserts == old(stmt.inserts)
        invariant i >= nCol && NormalisedAs(stmt.bound, done, nCol)
        invariant |done| >= nCol
        decreases |ctx.Unread()|, first, ctx.cTerm == ctx.cColSep
      {
        var z := NextField(ctx, rec, done);
        done := done + [z];
        i := i + 1;
        first := false;
      }
    }
    NormalisedIs(stmt.bound, done, nCol);
    if i >= nCol { stmt.Step(); }
  }

  // The whole loop: one insert per record of the stream, in order, each record
  // cut or padded to nCol values, none left over from an earlier row.
  method Import(ctx: ImportCtx, stmt: Statement, nCol: nat)
    requires ctx.Valid() && |stmt.bound| == nCol
    modifies ctx, stmt
    ensures stmt.inserts == old(stmt.inserts) +
              if nCol == 0 then [] else NormaliseAll(Records(old(ctx.Unread()), ctx.cColSep, ctx.cRowSep), nCol)
  {
    ctx.AppendChar(0);
    if nCol == 0 { return; }
    ghost var all := NormaliseAll(Records(ctx.Unread(), ctx.cColSep, ctx.cRowSep), nCol);
    var more := true;
    while more
      invariant ctx.Valid() && ctx.nAlloc > 0 && |stmt.bound| == nCol
      invariant !more ==> ctx.Unread() == []
      invariant old(stmt.inserts) + all ==
                stmt.inserts + NormaliseAll(Records(ctx.Unread(), ctx.cColSep, ctx.cRowSep), nCol)
      decreases |ctx.Unread()|, more
    {
      ImportRow(ctx, stmt, nCol);
      more := ctx.cTerm != EOF;
    }
  }

  // ------------------------------------------------------------- end to end

  // Rows all of one width, whose texts are C strings, and whose NULLs the reader
  // can take back.
  ghost predicate Sheet(table: seq<Row>, nCol: nat, style: Style)
    requires PlainStyle(style)
  {
    && NulFree(style.nullValue)
    && (forall r :: 0 <= r < |table| ==> |table[r]| == nCol && WritableRow(table[r], style))
    && (forall r :: 0 <= r < |table| ==> CStrings(table[r]))
  }

  ghost predicate CStrings(row: Row) {
    forall c :: 0 <= c < |row| && row[c].Some? ==> NulFree(row[c].value)
  }

  lemma {:induction false} RecordsOfTable(table: seq<Row>, style: Style)
    requires PlainStyle(style)
    requires forall r :: 0 <= r < |table| ==> table[r] != [] && WritableRow(table[r], style)
    ensures var records := Records(EncodeTable(table, style), style.colSep[0], LF);
            && |records| == |table|
            && forall r :: 0 <= r < |table| ==> records[r] == ShownRow(table[r], style.nullValue)
    decreases |table|
  {
    hide EncodeRow, ReadRecord, ShownRow, Records, WritableRow;
    var sep := style.colSep[0];
    if table == [] {
      NoRecords(sep);
    } else {
      var rest := EncodeTable(table[1..], style);
      RowRoundTrip(table[0], style, rest);
      EncodeRowSplit(table[0], style, rest);
      RecordsOfTable(table[1..], style);
      FirstRecord(EncodeRow(table[0], style) + rest, sep);
      ConsAt(Records(EncodeTable(table, style), sep, LF), ShownRow(table[0], style.nullValue), Records(rest, sep, LF));
    }
  }

  lemma NoRecords(sep: Byte)
    ensures Records([], sep, LF) == []
  {
  }

  lemma FirstRecord(s: Text, sep: Byte)
    requires s != []
    ensures var rec := ReadRecord(s, sep, LF);
            Records(s, sep, LF) == [rec.fields] + Records(rec.rest, sep, LF)
  {
    hide ReadRecord;
  }

  lemma ConsAt<T>(s: seq<T>, x: T, rest: seq<T>)
    requires s == [x] + rest
    ensures s[0] == x && forall i :: 1 <= i < |s| ==> s[i] == rest[i - 1]
  {
  }

  lemma {:induction false} NormaliseAllAt(records: seq<seq<Option<Text>>>, nCol: nat)
    ensures |NormaliseAll(records, nCol)| == |records|
    ensures forall r :: 0 <= r < |records| ==> NormaliseAll(records, nCol)[r] == Normalise(records[r], nCol)
    decreases |records|
  {
    if records != [] { NormaliseAllAt(records[1..], nCol); }
  }

  // A row as it is inserted: the columns there are, up to any NUL in them, and
  // NULL for those that are missing; columns past nCol are dropped.
  ghost predicate InsertedAs(row: Row, exported: Row, nullValue: Text, nCol: nat) {
    && |row| == nCol
    && forall c :: 0 <= c < nCol ==>
         row[c] == if c < |exported| then Some(CStr(Shown(exported[c], nullValue))) else None
  }

  // Exporting rows of any widths and importing them into a table of any width.
  lemma RaggedImport(table: seq<Row>, style: Style, nCol: nat)
    requires PlainStyle(style)
    requires forall r :: 0 <= r < |table| ==> table[r] != [] && WritableRow(table[r], style)
    ensures var rows := NormaliseAll(Records(EncodeTable(table, style), style.colSep[0], LF), nCol);
            && |rows| == |table|
            && forall r :: 0 <= r < |table| ==> InsertedAs(rows[r], table[r], style.nullValue, nCol)
  {
    var records := Records(EncodeTable(table, style), style.colSep[0], LF);
    RecordsOfTable(table, style);
    NormaliseAllAt(records, nCol);
    hide Records, NormaliseAll, EncodeTable;
  }

  // Exporting a table and importing it into a table of the same width inserts
  // the rows exported, with NULL replaced by the text that stands for it; a row
  // is inserted unchanged exactly when it holds no NULL.
  lemma ExportImport(table: seq<Row>, style: Style, nCol: nat)
    requires PlainStyle(style) && nCol >= 1 && Sheet(table, nCol, style)
    ensures var rows := NormaliseAll(Records(EncodeTable(table, style), style.colSep[0], LF), nCol);
            && |rows| == |table|
            && (forall r :: 0 <= r < |table| ==> rows[r] == ShownRow(table[r], style.nullValue))
            && (forall r :: 0 <= r < |table| ==> (rows[r] == table[r] <==> None !in table[r]))
  {
    var rows := NormaliseAll(Records(EncodeTable(table, style), style.colSep[0], LF), nCol);
    RaggedImport(table, style, nCol);
    forall r | 0 <= r < |table| ensures rows[r] == ShownRow(table[r], style.nullValue) {
      InsertedWhole(rows[r], table[r], style.nullValue);
    }
    hide Records, NormaliseAll, ShownRow, EncodeTable, InsertedAs;
  }

  lemma InsertedWhole(row: Row, exported: Row, nullValue: Text)
    requires NulFree(nullValue) && CStrings(exported) && InsertedAs(row, exported, nullValue, |exported|)
    ensures row == ShownRow(exported, nullValue)
  {
  }

  // What is exported: the rows, after the column names if a header is wanted and
  // there is any row.
  function Exported(table: seq<Row>, names: Row, header: bool): seq<Row> {
    if header && table != [] then [Named(names)] + table else table
  }

  // The same through the shell's own code: every row written in turn, the file
  // read by the row loop, whatever the statement had bound before.
  method ExportThenImport(table: seq<Row>, names: Row, header: bool, style: Style, bound: Row)
    returns (rows: seq<Row>)
    requires PlainStyle(style) && |names| >= 1 && |bound| == |names| && CStrings(names)
    requires Sheet(table, |names|, style)
    ensures var file := Exported(table, names, header);
            |rows| == |file| && forall r :: 0 <= r < |rows| ==> rows[r] == ShownRow(file[r], style.nullValue)
  {
    ghost var file := Exported(table, names, header);
    assert Sheet(file, |names|, style);
    ExportImport(file, style, |names|);
    var csv := Export(table, names, header, style);
    hide Records, NormaliseAll, EncodeTable, ShownRow, Sheet, Exported;
    var ctx := new ImportCtx(csv, style.colSep[0], LF);
    var stmt := new Statement(bound);
    Import(ctx, stmt, |names|);
    rows := stmt.inserts;
  }

  method Export(table: seq<Row>, names: Row, header: bool, style: Style) returns (csv: Text)
    requires names != [] && forall r :: 0 <= r < |table| ==> |table[r]| == |names|
    ensures csv == EncodeTable(Exported(table, names, header), style)
  {
    var p := new CsvOutput(style, header);
    var i := 0;
    while i < |table|
      invariant 0 <= i <= |table| && p.cnt == i && p.style == style && p.showHeader == header
      invariant p.out == EncodeTable(Exported(table[..i], names, header), style)
    {
      p.Row(table[i], names);
      ExportedStep(table, names, header, style, i);
      i := i + 1;
    }
    assert table[..i] == table;
    csv := p.out;
  }

  lemma ExportedStep(table: seq<Row>, names: Row, header: bool, style: Style, i: nat)
    requires i < |table|
    ensures EncodeTable(Exported(table[..i + 1], names, header), style) ==
            EncodeTable(Exported(table[..i], names, header), style) +
            (if i > 0 || !header then [] else EncodeRow(Named(names), style)) + EncodeRow(table[i], style)
  {
    hide EncodeRow;
    assert table[..i + 1] == table[..i] + [table[i]];
    if i > 0 || !header {
      var before := Exported(table[..i], names, header);
      assert Exported(table[..i + 1], names, header) == before + [table[i]];
      EncodeTableAppend(before, table[i], style);
      assert EncodeTable(before, style) + [] == EncodeTable(before, style);
    } else {
      EncodeTableAppend([Named(names)], table[0], style);
      EncodeTableAppend([], Named(names), style);
      assert [] + [Named(names)] == [Named(names)] && table[..0] == [] && table[..1] == [table[0]];
    }
  }
}
