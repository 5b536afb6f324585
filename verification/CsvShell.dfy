// The shell's CSV code as it runs: the writer for values, rows and headers, and
// the character-level field reader over a growing buffer.

module CsvShell {
  import opened Bytes
  import opened CsvFormat

  // output_csv: None is an SQL NULL.
  method OutputCsv(z: Option<Text>, style: Style, bSep: bool) returns (out: Text)
    ensures out == EncodeValue(z, style) + (if bSep then style.colSep else [])
  {
    var colSep := style.colSep;
    out := [];
    if z.None? {
      out := out + style.nullValue;
    } else {
      var t := z.value;
      var i := 0;
      var found := false;
      while i < |t|
        invariant 0 <= i <= |t|
        invariant forall k :: 0 <= k < i ==> !ForcesQuote(t, k, colSep)
      {
        if ForcesQuote(t, i, colSep) {
          found := true;
          break;
        }
        i := i + 1;
      }
      if found { i := 0; }
      if i == 0 {
        out := out + [DQUOTE];
        var k := 0;
        while k < |t|
          invariant 0 <= k <= |t|
          invariant out == [DQUOTE] + Doubled(t[..k], DQUOTE)
        {
          if t[k] == DQUOTE { out := out + [DQUOTE]; }
          out := out + [t[k]];
          assert t[..k + 1] == t[..k] + [t[k]];
          DoubledConcat(t[..k], [t[k]], DQUOTE);
          k := k + 1;
        }
        assert t[..k] == t;
        out := out + [DQUOTE];
      } else {
        out := out + t;
      }
    }
    if bSep { out := out + colSep; }
  }

  // What is written from column i of a row on.
  ghost function RowFrom(row: seq<Option<Text>>, style: Style, i: nat): Text
    requires i <= |row|
  {
    if i < |row| then EncodeRow(row[i..], style) else style.rowSep
  }

  lemma RowFromStep(row: seq<Option<Text>>, style: Style, i: nat)
    requires i < |row|
    ensures RowFrom(row, style, i) ==
            EncodeValue(row[i], style) + (if i < |row| - 1 then style.colSep else []) + RowFrom(row, style, i + 1)
  {
    assert row[i..][1..] == row[i + 1..];
  }

  // The loop over the columns, for a header or a row of values, and the row end.
  method WriteRow(row: seq<Option<Text>>, style: Style) returns (out: Text)
    ensures out == if row == [] then style.rowSep else EncodeRow(row, style)
  {
    out := [];
    DropNone(row);
    assert RowFrom(row, style, |row|) == style.rowSep;
    assert RowFrom(row, style, 0) == if row == [] then style.rowSep else EncodeRow(row, style);
    hide EncodeRow, EncodeValue, RowFrom;
    var i := 0;
    while i < |row|
      invariant 0 <= i <= |row| && RowFrom(row, style, 0) == out + RowFrom(row, style, i)
    {
      RowFromStep(row, style, i);
      var field := OutputCsv(row[i], style, i < |row| - 1);
      Assoc(out, field, RowFrom(row, style, i + 1));
      out := out + field;
      i := i + 1;
    }
    out := out + style.rowSep;
  }

  // Column names; a missing one is the empty text.
  function Named(azCol: seq<Option<Text>>): (r: seq<Option<Text>>)
    ensures |r| == |azCol| && None !in r
    ensures forall i :: 0 <= i < |r| && azCol[i].Some? ==> r[i] == azCol[i]
    ensures forall i :: 0 <= i < |r| && azCol[i].None? ==> r[i] == Some([])
  {
    seq(|azCol|, i requires 0 <= i < |azCol| => if azCol[i].None? then Some([]) else azCol[i])
  }

  // MODE_Csv of shell_callback.
  class CsvOutput {
    const style: Style
    const showHeader: bool
    var cnt: nat
    var out: Text

    constructor (style: Style, showHeader: bool)
      ensures this.style == style && this.showHeader == showHeader && cnt == 0 && out == []
    {
      this.style, this.showHeader := style, showHeader;
      cnt, out := 0, [];
    }

    // One row of a result: the header before the first row if it is wanted, then
    // the values, if there are any.
    method Row(azArg: seq<Option<Text>>, azCol: seq<Option<Text>>)
      requires |azArg| == |azCol|
      modifies this
      ensures cnt == old(cnt) + 1
      ensures out == old(out) +
                     (if old(cnt) > 0 || !showHeader then []
                      else if azCol == [] then style.rowSep
                      else EncodeRow(Named(azCol), style)) +
                     EncodeRow(azArg, style)
    {
      var first := cnt == 0;
      cnt := cnt + 1;
      var header := [];
      if first && showHeader {
        header := WriteRow(Named(azCol), style);
      }
      out := out + header;
      if |azArg| > 0 {
        var row := WriteRow(azArg, style);
        out := out + row;
      }
    }
  }

  class ImportCtx {
    const input: Text     // the bytes of the file
    const cColSep: int
    const cRowSep: int
    var pos: nat          // the read position of the stream
    var z: Text           // the allocated bytes; no bytes stands for a null pointer
    var n: nat
    var nAlloc: nat
    var nLine: nat
    var cTerm: int

    ghost predicate Valid()
      reads this
    {
      && pos <= |input| && |z| == nAlloc
      && (if nAlloc == 0 then n == 0 else n < nAlloc)
      && cColSep != EOF && cRowSep != EOF
    }

    ghost function Unread(): Text
      requires Valid()
      reads this
    {
      input[pos..]
    }

    constructor (input: Text, cColSep: int, cRowSep: int)
      requires cColSep != EOF && cRowSep != EOF
      ensures Valid() && n == 0 && nAlloc == 0 && nLine == 1 && Unread() == input
      ensures this.cColSep == cColSep && this.cRowSep == cRowSep && this.input == input
    {
      this.input, this.cColSep, this.cRowSep := input, cColSep, cRowSep;
      pos, z, n, nAlloc, nLine, cTerm := 0, [], 0, 0, 1, 0;
    }

    method GetC() returns (c: int)
      requires Valid()
      modifies this`pos
      ensures Valid()
      ensures c == (if old(Unread()) == [] then EOF else old(Unread())[0])
      ensures Unread() == if old(Unread()) == [] then [] else old(Unread())[1..]
    {
      if pos < |input| {
        c := input[pos];
        pos := pos + 1;
      } else {
        c := EOF;
      }
    }

    // import_append_char: the store, and the terminator that may follow it, are
    // inside the allocation.  Bytes obtained by growing hold anything.
    method AppendChar(c: Byte)
      requires Valid()
      modifies this`z, this`n, this`nAlloc
      ensures Valid() && nAlloc > 0 && nAlloc >= old(nAlloc)
      ensures z[..n] == old(z[..n]) + [c]
    {
      ghost var kept := z[..n];
      if n + 1 >= nAlloc {
        var grown := new Byte[nAlloc + 100];
        nAlloc := nAlloc + nAlloc + 100;
        z := z + grown[..];
      }
      assert z[..n] == kept;
      z := z[n := c];
      n := n + 1;
    }

    // The strip-back loop of the quoted branch: it stops inside the field.
    method StripBack()
      requires Valid() && DQUOTE in z[..n]
      modifies this`n
      ensures Valid() && z[..n] == StripToQuote(old(z[..n]))
    {
      ghost var acc := z[..n];
      n := n - 1;
      while z[n] != DQUOTE
        decreases n
        invariant 0 <= n < nAlloc && n < |acc|
        invariant DQUOTE in z[..n + 1] && z[..n + 1] == acc[..n + 1]
        invariant StripToQuote(acc) == StripToQuote(acc[..n + 1])
      {
        assert acc[..n + 1][..n] == acc[..n];
        n := n - 1;
      }
      assert acc[..n + 1][..n] == acc[..n];
    }

    // The quoted branch, after the opening quote.
    method ReadQuotedField()
      requires Valid() && n == 0
      modifies this`pos, this`z, this`n, this`nAlloc, this`nLine, this`cTerm
      ensures Valid() && nAlloc >= old(nAlloc)
      ensures var f := ReadQuoted(old(Unread()), [], 0, 0, 0, cColSep, cRowSep);
              Unread() == f.rest && cTerm == f.term && nLine == old(nLine) + f.lines && Some(z[..n]) == f.text
    {
      hide ReadQuoted, StripToQuote;
      ghost var f := ReadQuoted(Unread(), [], 0, 0, 0, cColSep, cRowSep);
      var pc, ppc := 0, 0;
      ghost var lines: nat := 0;
      while true
        invariant Valid() && nAlloc >= old(nAlloc) && History(z[..n], pc, ppc) && nLine == old(nLine) + lines
        invariant f == ReadQuoted(Unread(), z[..n], pc, ppc, lines, cColSep, cRowSep)
        decreases |input| - pos
      {
        ghost var s, acc := Unread(), z[..n];
        ReadQuotedStep(s, acc, pc, ppc, lines, cColSep, cRowSep);
        var c := GetC();
        assert c != EOF ==> c == s[0] && Unread() == s[1..];
        if c == cRowSep { nLine := nLine + 1; }
        lines := lines + Bump(c, cRowSep);
        if c == DQUOTE && pc == DQUOTE {
          pc := 0;
          continue;
        }
        if ClosesField(c, pc, ppc, cColSep, cRowSep) {
          StripBack();
          cTerm := c;
          break;
        }
        if c == EOF {
          cTerm := c;
          break;
        }
        AppendChar(c);
        assert z[..n] == acc + [s[0]];
        ppc := pc;
        pc := c;
      }
    }

    // The unquoted branch, entered with its first character already read.
    method ReadPlainField(first: Byte)
      requires Valid() && n == 0
      modifies this`pos, this`z, this`n, this`nAlloc, this`nLine, this`cTerm
      ensures Valid() && nAlloc >= old(nAlloc)
      ensures var f := ReadPlain([first] + old(Unread()), [], cColSep, cRowSep);
              Unread() == f.rest && cTerm == f.term && nLine == old(nLine) + f.lines && Some(z[..n]) == f.text
    {
      ghost var f := ReadPlain([first] + Unread(), [], cColSep, cRowSep);
      var c: int := first;
      while c != EOF && c != cColSep && c != cRowSep
        invariant Valid() && nAlloc >= old(nAlloc) && nLine == old(nLine)
        invariant (c == EOF && Unread() == []) || 0 <= c < 256
        invariant f == ReadPlain(if c == EOF then [] else [c] + Unread(), z[..n], cColSep, cRowSep)
        decreases |input| - pos, c
      {
        AppendChar(c);
        ghost var u := Unread();
        assert ([c] + u)[1..] == u;
        c := GetC();
        assert c != EOF ==> [c] + Unread() == u;
      }
      assert c != EOF ==> ([c] + Unread())[1..] == Unread();
      if c == cRowSep {
        nLine := nLine + 1;
        if n > 0 && z[n - 1] == CR {
          assert z[..n][..n - 1] == z[..n - 1];
          n := n - 1;
        }
      }
      cTerm := c;
    }

    // csv_read_one_field, with no interrupt pending.
    method ReadOneField() returns (r: Option<Text>)
      requires Valid()
      modifies this`pos, this`z, this`n, this`nAlloc, this`nLine, this`cTerm
      ensures Valid() && nAlloc >= old(nAlloc)
      ensures var f := ReadField(old(Unread()), cColSep, cRowSep);
              && Unread() == f.rest && cTerm == f.term && nLine == old(nLine) + f.lines
              && (f.text.Some? ==> z[..n] == f.text.value)
              && r == (if f.text.None? || nAlloc == 0 then None else f.text)
              && (r.Some? ==> z[n] == 0)
    {
      ghost var s := Unread();
      n := 0;
      var c := GetC();
      if c == EOF {
        cTerm := EOF;
        return None;
      }
      if c == DQUOTE {
        ReadQuotedField();
      } else {
        assert [c] + Unread() == s;
        ReadPlainField(c);
      }
      if nAlloc > 0 {
        ghost var kept := z[..n];
        z := z[n := 0];
        assert z[..n] == kept;
        r := Some(z[..n]);
      } else {
        r := None;
      }
    }
  }
}
