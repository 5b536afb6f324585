// The schema pretty-printer (MODE_Pretty): a pass that squeezes white space in
// place, and a pass that breaks the text into indented lines, also in place.

module Pretty {
  import opened Bytes

  const OPEN: Byte := 40    // (
  const CLOSE: Byte := 41   // )
  const COMMA: Byte := 44

  // The characters that matter: everything but white space.
  function Solid(s: Text): Text {
    if s == [] then []
    else (if IsSpace(s[0]) then [] else [s[0]]) + Solid(s[1..])
  }

  lemma {:induction false} SolidConcat(a: Text, b: Text)
    ensures Solid(a + b) == Solid(a) + Solid(b)
  {
    if a == [] {
      assert a + b == b;
    } else {
      assert (a + b)[1..] == a[1..] + b;
      SolidConcat(a[1..], b);
    }
  }

  lemma {:induction false} SolidOfSpaces(s: Text)
    requires forall i :: 0 <= i < |s| ==> IsSpace(s[i])
    ensures Solid(s) == []
    decreases |s|
  {
    if s != [] { SolidOfSpaces(s[1..]); }
  }

  // ------------------------------------------------------------ the first pass

  lemma {:induction false} SkipSpacesSolid(s: Text)
    ensures Solid(SkipSpaces(s)) == Solid(s)
    decreases |s|
  {
    if s != [] && IsSpace(s[0]) { SkipSpacesSolid(s[1..]); }
  }

  // The text written so far, extended by one more input character.
  function Squeeze(w: Text, c: Byte): Text {
    if IsSpace(c) then
      if w == [] || IsSpace(w[|w| - 1]) || w[|w| - 1] == OPEN then w else w + [c]
    else if (c == OPEN || c == CLOSE) && w != [] && IsSpace(w[|w| - 1]) then
      w[..|w| - 1] + [c]
    else
      w + [c]
  }

  function SqueezeAll(w: Text, s: Text): Text
    decreases |s|
  {
    if s == [] then w else SqueezeAll(Squeeze(w, s[0]), s[1..])
  }

  function TrimRight(w: Text): Text {
    if w != [] && IsSpace(w[|w| - 1]) then TrimRight(w[..|w| - 1]) else w
  }

  function FirstPass(s: Text): Text {
    TrimRight(SqueezeAll([], SkipSpaces(s)))
  }

  // Normal form: white space only singly, never first or last, never after an
  // opening parenthesis or before a parenthesis.
  ghost predicate Tight(s: Text) {
    && (s != [] ==> !IsSpace(s[0]))
    && forall i :: 0 < i < |s| ==> PairOk(s, i)
  }

  predicate PairOk(s: Text, i: nat)
    requires 0 < i < |s|
  {
    !BadPair(s[i - 1], s[i])
  }

  predicate BadPair(a: Byte, b: Byte) {
    (IsSpace(b) && (IsSpace(a) || a == OPEN)) || (IsSpace(a) && (b == OPEN || b == CLOSE))
  }

  ghost predicate Normal(s: Text) {
    Tight(s) && (s != [] ==> !IsSpace(s[|s| - 1]))
  }

  lemma TightPrefix(w: Text, k: nat)
    requires Tight(w) && k <= |w|
    ensures Tight(w[..k])
  {
    forall i | 0 < i < k ensures PairOk(w[..k], i) { assert PairOk(w, i); }
  }

  lemma TightAppend(w: Text, c: Byte)
    requires Tight(w) && (if w == [] then !IsSpace(c) else !BadPair(w[|w| - 1], c))
    ensures Tight(w + [c])
  {
    forall i | 0 < i < |w| + 1 ensures PairOk(w + [c], i) {
      if i < |w| { assert PairOk(w, i); }
    }
  }

  lemma SqueezeKeepsTight(w: Text, c: Byte)
    requires Tight(w)
    ensures Tight(Squeeze(w, c)) && |Squeeze(w, c)| <= |w| + 1
    ensures w != [] || !IsSpace(c) ==> Squeeze(w, c) != []
  {
    if !IsSpace(c) && (c == OPEN || c == CLOSE) && w != [] && IsSpace(w[|w| - 1]) {
      TightPrefix(w, |w| - 1);
      if |w| > 1 { assert PairOk(w, |w| - 1); }
      TightAppend(w[..|w| - 1], c);
    } else if Squeeze(w, c) != w {
      TightAppend(w, c);
    }
  }

  lemma SqueezeKeepsSolid(w: Text, c: Byte)
    ensures Solid(Squeeze(w, c)) == Solid(w) + Solid([c])
  {
    SolidConcat(w, [c]);
    if !IsSpace(c) && (c == OPEN || c == CLOSE) && w != [] && IsSpace(w[|w| - 1]) {
      var u, x := w[..|w| - 1], w[|w| - 1];
      assert w == u + [x];
      SolidConcat(u, [x]);
      SolidConcat(u, [c]);
    }
  }

  lemma {:induction false} SqueezeAllTight(w: Text, s: Text)
    requires Tight(w)
    ensures Tight(SqueezeAll(w, s)) && |SqueezeAll(w, s)| <= |w| + |s|
    decreases |s|
  {
    if s != [] {
      SqueezeKeepsTight(w, s[0]);
      SqueezeAllTight(Squeeze(w, s[0]), s[1..]);
    }
  }

  lemma {:induction false} SqueezeAllSolid(w: Text, s: Text)
    ensures Solid(SqueezeAll(w, s)) == Solid(w) + Solid(s)
    decreases |s|
  {
    if s != [] {
      SqueezeKeepsSolid(w, s[0]);
      SqueezeAllSolid(Squeeze(w, s[0]), s[1..]);
      assert s == [s[0]] + s[1..];
      SolidConcat([s[0]], s[1..]);
    }
  }

  lemma {:induction false} TrimRightFacts(w: Text)
    requires Tight(w)
    ensures Normal(TrimRight(w)) && TrimRight(w) <= w && Solid(TrimRight(w)) == Solid(w)
    decreases |w|
  {
    if w != [] && IsSpace(w[|w| - 1]) {
      var u, x := w[..|w| - 1], w[|w| - 1];
      assert w == u + [x];
      SolidConcat(u, [x]);
      TightPrefix(w, |w| - 1);
      TrimRightFacts(u);
    }
  }

  // Squeezing text that is already tight changes nothing.
  lemma {:induction false} SqueezeTight(w: Text, s: Text)
    requires Tight(w + s)
    ensures SqueezeAll(w, s) == w + s
    decreases |s|
  {
    if s == [] {
      assert w + s == w;
    } else {
      if w != [] { assert PairOk(w + s, |w|); }
      assert Squeeze(w, s[0]) == w + [s[0]];
      assert (w + [s[0]]) + s[1..] == w + s;
      SqueezeTight(w + [s[0]], s[1..]);
    }
  }

  // The first pass reaches the normal form, leaves the solid characters alone,
  // never lengthens the text, and changes nothing exactly on normal texts.
  lemma FirstPassNormalises(s: Text)
    ensures Normal(FirstPass(s)) && Solid(FirstPass(s)) == Solid(s) && |FirstPass(s)| <= |s|
    ensures FirstPass(s) == s <==> Normal(s)
    ensures FirstPass(FirstPass(s)) == FirstPass(s)
  {
    var t := SkipSpaces(s);
    SkipSpacesShortens(s);
    SkipSpacesSolid(s);
    SqueezeAllTight([], t);
    SqueezeAllSolid([], t);
    TrimRightFacts(SqueezeAll([], t));
    if Normal(s) { NormalIsFixed(s); }
    NormalIsFixed(FirstPass(s));
  }

  lemma NormalIsFixed(s: Text)
    requires Normal(s)
    ensures FirstPass(s) == s
  {
    assert [] + s == s;
    SqueezeTight([], s);
  }

  lemma {:induction false} SqueezeAllStep(w: Text, s: Text, c: Byte)
    ensures SqueezeAll(w, s + [c]) == Squeeze(SqueezeAll(w, s), c)
    decreases |s|
  {
    if s == [] {
      assert s + [c] == [c];
    } else {
      assert (s + [c])[1..] == s[1..] + [c];
      SqueezeAllStep(Squeeze(w, s[0]), s[1..], c);
    }
  }

  // A C string in a buffer.
  ghost predicate Holds(z: array<Byte>, text: Text)
    reads z
  {
    z.Length > |text| && z[..|text|] == text && NulFree(text) && z[|text|] == 0
  }

  method SkipLeading(z: array<Byte>, ghost text: Text) returns (i: nat)
    requires Holds(z, text)
    ensures i == |text| - |SkipSpaces(text)|
  {
    SkipSpacesShortens(text);
    ghost var start := |text| - |SkipSpaces(text)|;
    i := 0;
    while IsSpace(z[i])
      invariant 0 <= i <= start
      decreases start - i
    {
      i := i + 1;
    }
  }

  // The loop body for one character: store it, drop it, or store it over the
  // white space before it.  Nothing past slot j changes.
  method PutSqueezed(z: array<Byte>, j: nat, c: Byte) returns (j': nat)
    requires j < z.Length && (IsSpace(c) ==> j > 0)
    modifies z
    ensures 0 < j' <= j + 1 && z[..j'] == Squeeze(old(z[..j]), c)
    ensures forall k :: j < k < z.Length ==> z[k] == old(z[k])
  {
    j' := j;
    if IsSpace(c) {
      if IsSpace(z[j - 1]) || z[j - 1] == OPEN { return; }
    } else if (c == OPEN || c == CLOSE) && j > 0 && IsSpace(z[j - 1]) {
      j' := j - 1;
    }
    z[j'] := c;
    j' := j' + 1;
  }

  lemma SliceStep(text: Text, start: nat, i: nat)
    requires start <= i < |text|
    ensures text[start..i + 1] == text[start..i] + [text[i]]
  {
  }

  // The copying loop: the write index j never passes the read index i.
  method CopySqueezed(z: array<Byte>, start: nat, ghost text: Text) returns (j: nat)
    requires Holds(z, text) && start <= |text| && (start < |text| ==> !IsSpace(text[start]))
    modifies z
    ensures j <= |text| && z[..j] == SqueezeAll([], text[start..])
  {
    j := 0;
    var i := start;
    assert z[..0] == [] && text[start..start] == [];
    hide Squeeze, SqueezeAll;
    while z[i] != 0
      invariant start <= i <= |text| && j <= i - start && (i > start ==> j > 0)
      invariant z[|text|] == 0 && forall k :: i <= k < |text| ==> z[k] == text[k]
      invariant z[..j] == SqueezeAll([], text[start..i])
      decreases |text| - i
    {
      var c := z[i];
      SliceStep(text, start, i);
      SqueezeAllStep([], text[start..i], c);
      j := PutSqueezed(z, j, c);
      i := i + 1;
    }
    assert text[start..i] == text[start..];
  }

  method TrimTrailing(z: array<Byte>, n: nat) returns (j: nat)
    requires n <= z.Length
    ensures j <= n && z[..j] == TrimRight(z[..n])
  {
    j := n;
    while j > 0 && IsSpace(z[j - 1])
      invariant 0 <= j <= n && TrimRight(z[..n]) == TrimRight(z[..j])
      decreases j
    {
      assert z[..j][..j - 1] == z[..j - 1];
      j := j - 1;
    }
  }

  // The first pass in place.
  method SqueezeInPlace(z: array<Byte>, ghost text: Text) returns (j: nat)
    requires Holds(z, text)
    modifies z
    ensures j <= |text| && z[..j] == FirstPass(text) && z[j] == 0
  {
    SkipSpacesShortens(text);
    var start := SkipLeading(z, text);
    assert start < |text| ==> text[start] == SkipSpaces(text)[0];
    j := CopySqueezed(z, start, text);
    j := TrimTrailing(z, j);
    z[j] := 0;
  }

  // ----------------------------------------------------------- the second pass

  const BACKTICK: Byte := 96
  const LBRACKET: Byte := 91
  const RBRACKET: Byte := 93

  // The scanner: parenthesis depth, the quote being looked for (0 for none) and
  // the line breaks made so far.
  datatype Scan = Scan(nParen: int, cEnd: Byte, nLine: nat)

  function ScanChar(st: Scan, c: Byte): Scan {
    if c == st.cEnd then st.(cEnd := 0)
    else if c == DQUOTE || c == SQUOTE || c == BACKTICK then st.(cEnd := c)
    else if c == LBRACKET then st.(cEnd := RBRACKET)
    else if c == OPEN then st.(nParen := st.nParen + 1)
    else if c == CLOSE then st.(nParen := st.nParen - 1)
    else st
  }

  // The last closing parenthesis of a broken-up statement starts a line.
  predicate BreaksBefore(st: Scan, c: Byte, line: Text) {
    c == CLOSE && st.cEnd != c && st.nLine > 0 && st.nParen == 1 && line != []
  }

  // At depth one, a line ends after an opening parenthesis or a comma, or
  // instead of a line feed.
  predicate BreaksAfter(st: Scan, c: Byte) {
    ScanChar(st, c).nParen == 1 && (c == OPEN || c == COMMA || c == LF)
  }

  const INDENT: Text := [LF, SPACE, SPACE]

  // What one character causes to be printed, and what it leaves on the line.
  function Emit(st: Scan, c: Byte, line: Text): Text {
    var flushed := if BreaksBefore(st, c, line) then line + [LF] else [];
    var line' := if BreaksBefore(st, c, line) then [] else line;
    if BreaksAfter(st, c) then flushed + (if c == LF then line' else line' + [c]) + INDENT else flushed
  }

  function Carry(st: Scan, c: Byte, line: Text): Text {
    if BreaksAfter(st, c) then []
    else if BreaksBefore(st, c, line) then [c]
    else line + [c]
  }

  function AfterChar(st: Scan, c: Byte): Scan {
    var st' := ScanChar(st, c);
    if BreaksAfter(st, c) then st'.(nLine := st'.nLine + 1) else st'
  }

  // The text laid out in lines, given what is already on the current line.
  // White space after a line break is dropped.
  function Layout(s: Text, st: Scan, line: Text): Text
    decreases |s|
  {
    if s == [] then line
    else
      SkipSpacesShortens(s[1..]);
      var rest := if BreaksAfter(st, s[0]) then SkipSpaces(s[1..]) else s[1..];
      Emit(st, s[0], line) + Layout(rest, AfterChar(st, s[0]), Carry(st, s[0], line))
  }

  lemma EmitKeepsSolid(st: Scan, c: Byte, line: Text)
    ensures Solid(Emit(st, c, line)) + Solid(Carry(st, c, line)) == Solid(line) + Solid([c])
  {
    SolidConcat(line, [c]);
    SolidConcat(line, [LF]);
    assert Solid([]) == [] && Solid([LF]) == [];
    if BreaksAfter(st, c) {
      assert !BreaksBefore(st, c, line);
      SolidIndented([], line + [c]);
      SolidIndented([], line);
    }
    hide Solid, BreaksBefore, BreaksAfter;
  }

  lemma SolidIndented(a: Text, b: Text)
    ensures Solid(a + b + INDENT) == Solid(a) + Solid(b)
  {
    SolidConcat(a + b, INDENT);
    SolidConcat(a, b);
    SolidOfSpaces(INDENT);
  }

  lemma Regroup(e: Text, carry: Text, line: Text, c: Text, rest: Text)
    requires e + carry == line + c
    ensures e + (carry + rest) == line + (c + rest)
  {
    assert e + (carry + rest) == (e + carry) + rest;
  }

  lemma {:induction false} LayoutKeepsSolid(s: Text, st: Scan, line: Text)
    ensures Solid(Layout(s, st, line)) == Solid(line) + Solid(s)
    decreases |s|
  {
    if s != [] {
      var c := s[0];
      SkipSpacesShortens(s[1..]);
      SkipSpacesSolid(s[1..]);
      var rest := if BreaksAfter(st, c) then SkipSpaces(s[1..]) else s[1..];
      var e, carry := Emit(st, c, line), Carry(st, c, line);
      LayoutKeepsSolid(rest, AfterChar(st, c), carry);
      SolidConcat(e, Layout(rest, AfterChar(st, c), carry));
      EmitKeepsSolid(st, c, line);
      Regroup(Solid(e), Solid(carry), Solid(line), Solid([c]), Solid(rest));
      SolidHead(s);
    }
  }

  lemma SolidHead(s: Text)
    requires s != []
    ensures Solid(s) == Solid([s[0]]) + Solid(s[1..])
  {
    assert [s[0]] + s[1..] == s;
    SolidConcat([s[0]], s[1..]);
  }

  lemma LayoutEnd(st: Scan, line: Text)
    ensures Layout([], st, line) == line
  {
  }

  lemma LayoutStep(text: Text, i: nat, st: Scan, line: Text)
    requires i < |text|
    ensures Layout(text[i..], st, line) ==
            Emit(st, text[i], line) +
            Layout(if BreaksAfter(st, text[i]) then SkipSpaces(text[i + 1..]) else text[i + 1..],
                   AfterChar(st, text[i]), Carry(st, text[i], line))
  {
    assert text[i..][1..] == text[i + 1..];
  }

  method SkipSpacesAt(z: array<Byte>, from: nat, ghost text: Text) returns (i: nat)
    requires z.Length > |text| >= from && z[|text|] == 0
    requires forall k :: from <= k < |text| ==> z[k] == text[k]
    ensures from <= i <= |text| && text[i..] == SkipSpaces(text[from..])
  {
    i := from;
    while IsSpace(z[i])
      invariant from <= i <= |text| && SkipSpaces(text[from..]) == SkipSpaces(text[i..])
      decreases |text| - i
    {
      assert text[i..][1..] == text[i + 1..];
      i := i + 1;
    }
  }

  // The loop body for one character.  Nothing past slot j changes.
  method PutLaidOut(z: array<Byte>, j: nat, st: Scan, c: Byte) returns (out: Text, j': nat)
    requires j < z.Length
    modifies z
    ensures out == Emit(st, c, old(z[..j]))
    ensures j' <= j + 1 && z[..j'] == Carry(st, c, old(z[..j]))
    ensures forall k :: j < k < z.Length ==> z[k] == old(z[k])
  {
    out := [];
    j' := j;
    if BreaksBefore(st, c, z[..j]) {
      out := z[..j] + [LF];
      j' := 0;
    }
    ghost var line := z[..j'];
    z[j'] := c;
    j' := j' + 1;
    assert z[..j'] == line + [c];
    if BreaksAfter(st, c) {
      if c == LF { j' := j' - 1; }
      assert z[..j'] == if c == LF then line else line + [c];
      out := out + z[..j'] + INDENT;
      j' := 0;
    }
  }

  // One turn of the loop; the read index stays ahead of the write index.
  method LayOutOne(z: array<Byte>, i: nat, j: nat, st: Scan, ghost text: Text) returns (printed: Text, i': nat, j': nat)
    requires j <= i < |text| < z.Length && z[|text|] == 0
    requires forall k :: i <= k < |text| ==> z[k] == text[k]
    modifies z
    ensures i < i' <= |text| && j' <= i' && z[|text|] == 0
    ensures forall k :: i' <= k < |text| ==> z[k] == text[k]
    ensures Layout(text[i..], st, old(z[..j])) == printed + Layout(text[i'..], AfterChar(st, text[i]), z[..j'])
  {
    var c := z[i];
    LayoutStep(text, i, st, z[..j]);
    printed, j' := PutLaidOut(z, j, st, c);
    i' := i + 1;
    if BreaksAfter(st, c) {
      i' := SkipSpacesAt(z, i', text);
    }
  }

  // The second pass in place: the write index j never passes the read index i.
  method BreakLines(z: array<Byte>, ghost text: Text) returns (out: Text)
    requires Holds(z, text)
    modifies z
    ensures out == Layout(text, Scan(0, 0, 0), [])
  {
    ghost var full := Layout(text, Scan(0, 0, 0), []);
    out := [];
    var st := Scan(0, 0, 0);
    var i, j := 0, 0;
    assert text[0..] == text && z[..0] == [];
    hide Layout, AfterChar;
    while z[i] != 0
      invariant 0 <= j <= i <= |text|
      invariant z[|text|] == 0 && forall k :: i <= k < |text| ==> z[k] == text[k]
      invariant full == out + Layout(text[i..], st, z[..j])
      decreases |text| - i
    {
      var c := z[i];
      var printed;
      printed, i, j := LayOutOne(z, i, j, st, text);
      st := AfterChar(st, c);
      ghost var more := Layout(text[i..], st, z[..j]);
      Assoc(out, printed, more);
      out := out + printed;
    }
    assert text[i..] == [];
    LayoutEnd(st, z[..j]);
    out := out + z[..j];
  }

  // --------------------------------------------------------------- MODE_Pretty

  // sqlite3_strlike(P%): a case-insensitive prefix test.
  predicate LikePrefix(p: Text, z: Text) {
    |p| <= |z| && forall i :: 0 <= i < |p| ==> Lower(p[i]) == Lower(z[i])
  }

  const CREATE_VIEW: Text := Ascii("CREATE VIEW")
  const CREATE_TRIG: Text := Ascii("CREATE TRIG")

  function Pretty(sql: Text): Text {
    if LikePrefix(CREATE_VIEW, sql) || LikePrefix(CREATE_TRIG, sql) then sql + [SEMI, LF]
    else
      var tight := FirstPass(sql);
      (if |tight| >= 79 then Layout(tight, Scan(0, 0, 0), []) else tight) + [SEMI, LF]
  }

  method PrettyPrint(sql: Option<Text>) returns (out: Text)
    requires sql.Some? ==> NulFree(sql.value)
    ensures out == if sql.None? then [] else Pretty(sql.value)
  {
    if sql.None? { return []; }
    var text := sql.value;
    if LikePrefix(CREATE_VIEW, text) || LikePrefix(CREATE_TRIG, text) {
      return text + [SEMI, LF];
    }
    var copy := text + [0];
    var z := new Byte[|copy|](i requires 0 <= i < |copy| => copy[i]);
    assert z[..|text|] == text;
    var j := SqueezeInPlace(z, text);
    out := z[..j];
    if j >= 79 {
      FirstPassNulFree(text);
      out := BreakLines(z, z[..j]);
    }
    out := out + [SEMI, LF];
  }

  lemma {:induction false} SqueezeAllNulFree(w: Text, s: Text)
    requires NulFree(w) && NulFree(s)
    ensures NulFree(SqueezeAll(w, s))
    decreases |s|
  {
    if s != [] { SqueezeAllNulFree(Squeeze(w, s[0]), s[1..]); }
  }

  lemma FirstPassNulFree(s: Text)
    requires NulFree(s)
    ensures NulFree(FirstPass(s))
  {
    SkipSpacesShortens(s);
    SqueezeAllNulFree([], SkipSpaces(s));
    SqueezeAllTight([], SkipSpaces(s));
    TrimRightFacts(SqueezeAll([], SkipSpaces(s)));
  }

  lemma SolidEnd(x: Text)
    ensures Solid(x + [SEMI, LF]) == Solid(x) + [SEMI]
  {
    SolidConcat(x, [SEMI, LF]);
    assert Solid([SEMI, LF]) == [SEMI] by { SolidConcat([SEMI], [LF]); assert [SEMI] + [LF] == [SEMI, LF]; }
  }

  // Whatever the schema text, only white space changes: the other characters
  // printed are those of the input followed by a semicolon.
  lemma OnlyWhiteSpaceChanges(sql: Text)
    ensures Solid(Pretty(sql)) == Solid(sql) + [SEMI]
  {
    var tight := FirstPass(sql);
    FirstPassNormalises(sql);
    LayoutKeepsSolid(tight, Scan(0, 0, 0), []);
    SolidEnd(sql);
    SolidEnd(tight);
    SolidEnd(Layout(tight, Scan(0, 0, 0), []));
    assert Solid([]) + Solid(tight) == Solid(tight);
    hide Solid, Layout, FirstPass, LikePrefix, Normal;
  }
}
