// The dot-command tokenizer: it cuts the line into NUL-terminated arguments in
// place, resolving backslashes as it goes; and the proof that tokenizing undoes
// printing.

module Tokenizer {
  import opened Bytes
  import opened CommandLine

  // Where a quoted argument ends: at its delimiter, or with the line.  Inside
  // double quotes a backslash hides the character after it.
  function QuotedEnd(s: Text, delim: Byte): (k: nat)
    ensures k <= |s| && (k < |s| ==> s[k] == delim)
    decreases |s|
  {
    if s == [] || s[0] == delim then 0
    else if s[0] == BACKSLASH && delim == DQUOTE && |s| > 1 then 2 + QuotedEnd(s[2..], delim)
    else 1 + QuotedEnd(s[1..], delim)
  }

  function PlainEnd(s: Text): (k: nat)
    ensures k <= |s| && (k < |s| ==> IsSpace(s[k]))
  {
    if s == [] || IsSpace(s[0]) then 0 else 1 + PlainEnd(s[1..])
  }

  function After(s: Text, k: nat): Text
    requires k <= |s|
  {
    if k < |s| then s[k + 1..] else []
  }

  predicate IsDelim(b: Byte) {
    b == SQUOTE || b == DQUOTE
  }

  // The argument at the front of s, which starts with neither white space nor
  // the end of the line, and the text left after it.
  function FirstArg(s: Text): (r: (Text, Text))
    requires s != []
    ensures |r.1| < |s|
  {
    if IsDelim(s[0]) then
      var k := QuotedEnd(s[1..], s[0]);
      var raw := s[1..][..k];
      (if s[0] == DQUOTE then CStr(Decode(raw)) else raw, After(s[1..], k))
    else
      var k := PlainEnd(s);
      (CStr(Decode(s[..k])), After(s, k))
  }

  // The arguments of the rest of a line, when n have been found before.
  function Args(line: Text, n: nat): seq<Text>
    decreases |line|
  {
    SkipSpacesShortens(line);
    var s := SkipSpaces(line);
    if n >= MAX_ARGS || s == [] then []
    else
      var (arg, rest) := FirstArg(s);
      [arg] + Args(rest, n + 1)
  }

  // --------------------------------------------------------- the round trip

  lemma OctalHides(a: Byte, b: Byte, d: Byte, t: Text)
    requires b != DQUOTE && b != BACKSLASH && d != DQUOTE && d != BACKSLASH
    ensures QuotedEnd([BACKSLASH, a, b, d] + t, DQUOTE) == 4 + QuotedEnd(t, DQUOTE)
  {
    var s := [BACKSLASH, a, b, d] + t;
    var s2, s3 := [b, d] + t, [d] + t;
    assert s[2..] == s2 && s2[1..] == s3 && s3[1..] == t;
    assert QuotedEnd(s, DQUOTE) == 2 + QuotedEnd(s2, DQUOTE);
    assert QuotedEnd(s2, DQUOTE) == 1 + QuotedEnd(s3, DQUOTE);
  }

  lemma EscapeByteHides(c: Byte, t: Text)
    ensures QuotedEnd(EscapeByte(c) + t, DQUOTE) == |EscapeByte(c)| + QuotedEnd(t, DQUOTE)
  {
    var e := EscapeByte(c);
    var s := e + t;
    if |e| == 4 {
      OctalHides(e[1], e[2], e[3], t);
      assert s == [BACKSLASH, e[1], e[2], e[3]] + t;
    } else if |e| == 2 {
      assert s[2..] == t;
    } else {
      assert s[1..] == t;
    }
  }

  lemma {:induction false} EscapeHides(x: Text, t: Text)
    requires t != [] && t[0] == DQUOTE
    ensures QuotedEnd(Escape(x) + t, DQUOTE) == |Escape(x)|
    decreases |x|
  {
    if x == [] {
      assert Escape(x) + t == t;
    } else {
      EscapeHides(x[1..], t);
      EscapeByteHides(x[0], Escape(x[1..]) + t);
      assert Escape(x) + t == EscapeByte(x[0]) + (Escape(x[1..]) + t);
    }
  }

  // A printed argument followed by anything reads back as that argument.
  lemma FirstArgOfCString(x: Text, rest: Text)
    requires NulFree(x)
    ensures FirstArg(CString(x) + rest) == (x, rest)
  {
    var s := CString(x) + rest;
    var t := [DQUOTE] + rest;
    assert s[1..] == Escape(x) + t;
    EscapeHides(x, t);
    var k := |Escape(x)|;
    assert s[1..][..k] == Escape(x) && s[1..][k + 1..] == rest;
    DecodeUndoesEscape(x);
  }

  lemma ArgsOf(arg: Text, rest: Text, s: Text, n: nat)
    requires s != [] && !IsSpace(s[0]) && n < MAX_ARGS && FirstArg(s) == (arg, rest)
    ensures Args(s, n) == [arg] + Args(rest, n + 1)
  {
  }

  lemma ArgsSkipSpace(line: Text, n: nat)
    ensures Args([SPACE] + line, n) == Args(line, n)
  {
    assert ([SPACE] + line)[1..] == line;
  }

  lemma {:induction false} ArgsOfPrinted(x: Text, more: Text, n: nat)
    requires NulFree(x) && n < MAX_ARGS
    ensures Args(CString(x) + [SPACE] + more, n) == [x] + Args(more, n + 1)
    ensures Args(CString(x), n) == [x]
  {
    var rest := [SPACE] + more;
    assert CString(x) + [SPACE] + more == CString(x) + rest && CString(x) + [] == CString(x);
    FirstArgOfCString(x, rest);
    FirstArgOfCString(x, []);
    ArgsOf(x, rest, CString(x) + rest, n);
    ArgsOf(x, [], CString(x), n);
    ArgsSkipSpace(more, n + 1);
  }

  // Tokenizing what was printed gives back the arguments, for every list of
  // NUL-free byte strings; arguments past the fiftieth are dropped.
  lemma {:induction false} ArgsRoundTrip(args: seq<Text>, n: nat)
    requires n <= MAX_ARGS && forall i :: 0 <= i < |args| ==> NulFree(args[i])
    ensures Args(PrintArgs(args), n) == FirstFew(args, MAX_ARGS - n)
    decreases |args|
  {
    hide Args, FirstArg;
    if args == [] {
      NoMoreArgs(PrintArgs(args), n);
    } else if n == MAX_ARGS {
      NoMoreArgs(PrintArgs(args), n);
    } else {
      assert NulFree(args[0]);
      PrintedStep(args, n);
      ArgsRoundTrip(args[1..], n + 1);
      FirstFewCons(args, MAX_ARGS - n);
    }
  }

  lemma NoMoreArgs(line: Text, n: nat)
    requires line == [] || n == MAX_ARGS
    ensures Args(line, n) == []
  {
  }

  lemma PrintedStep(args: seq<Text>, n: nat)
    requires args != [] && n < MAX_ARGS && NulFree(args[0])
    ensures Args(PrintArgs(args), n) == [args[0]] + Args(PrintArgs(args[1..]), n + 1)
  {
    ArgsOfPrinted(args[0], PrintArgs(args[1..]), n);
  }

  function FirstFew<T>(args: seq<T>, k: nat): seq<T> {
    if |args| <= k then args else args[..k]
  }

  lemma FirstFewCons<T>(args: seq<T>, k: nat)
    requires args != [] && k > 0
    ensures FirstFew(args, k) == [args[0]] + FirstFew(args[1..], k - 1)
  {
  }

  // The line of a dot-command with these arguments.
  function CommandOf(args: seq<Text>): Text {
    [DOT] + PrintArgs(args)
  }

  // The arguments of a dot-command line.
  function Tokens(line: Text): seq<Text>
    requires line != []
  {
    Args(line[1..], 0)
  }

  // A printed command line tokenizes to its arguments, the first fifty of them.
  lemma {:induction false} CommandRoundTrip(args: seq<Text>)
    requires forall i :: 0 <= i < |args| ==> NulFree(args[i])
    ensures Tokens(CommandOf(args)) == FirstFew(args, MAX_ARGS)
  {
    hide Args, PrintArgs;
    assert CommandOf(args)[1..] == PrintArgs(args);
    ArgsRoundTrip(args, 0);
  }

  // ----------------------------------------------- the three forms of argument

  // An argument as it may be typed: in double quotes with escapes, in single
  // quotes, or bare.
  datatype Form = Escaped(text: Text) | SingleQuoted(text: Text) | Bare(text: Text)

  ghost predicate FormOk(a: Form) {
    NulFree(a.text) &&
    match a
    case Escaped(_) => true
    case SingleQuoted(w) => 39 !in w
    case Bare(w) => w != [] && w[0] !in [34, 39] && 92 !in w && NoSpace(w)
  }

  ghost predicate NoSpace(w: Text) {
    forall i :: 0 <= i < |w| ==> w[i] !in [9, 10, 11, 12, 13, 32]
  }

  function Typed(a: Form): Text {
    match a
    case Escaped(x) => CString(x)
    case SingleQuoted(w) => [39] + w + [39]
    case Bare(w) => w
  }

  lemma {:induction false} PlainEndAt(w: Text, t: Text)
    requires NoSpace(w) && (t == [] || IsSpace(t[0]))
    ensures PlainEnd(w + t) == |w|
    decreases |w|
  {
    if w == [] {
      assert w + t == t;
    } else {
      assert (w + t)[1..] == w[1..] + t;
      PlainEndAt(w[1..], t);
    }
  }

  lemma {:induction false} QuotedEndAt(w: Text, t: Text)
    requires 39 !in w && (t == [] || t[0] == 39)
    ensures QuotedEnd(w + t, SQUOTE) == |w|
    decreases |w|
  {
    if w == [] {
      assert w + t == t;
    } else {
      assert (w + t)[1..] == w[1..] + t;
      QuotedEndAt(w[1..], t);
    }
  }

  // A bare argument ends at white space or with the line, and has its backslashes
  // resolved; so without any it is taken as it is.
  lemma FirstArgOfWord(w: Text, c: Byte, rest: Text)
    requires w != [] && w[0] !in [34, 39] && NulFree(w) && NoSpace(w) && c in [9, 10, 11, 12, 13, 32]
    ensures FirstArg(w + [c] + rest) == (CStr(Decode(w)), rest) && FirstArg(w) == (CStr(Decode(w)), [])
    ensures 92 !in w ==> CStr(Decode(w)) == w
  {
    hide CStr, Decode;
    var t := [c] + rest;
    var s := w + [c] + rest;
    assert s == w + t && s[0] == w[0];
    PlainEndAt(w, t);
    PlainEndAt(w, []);
    assert w + [] == w && w[..|w|] == w && s[..|w|] == w && s[|w| + 1..] == rest;
    if 92 !in w {
      assert w[..|w|] == w && w[|w|..] == [];
      DecodePlain(w, |w|);
      DecodeNothing();
    }
  }

  lemma DecodeNothing()
    ensures Decode([]) == []
  {
  }

  // A single-quoted argument is taken as it is, backslashes and spaces included;
  // the closing quote may be missing at the end of the line.
  lemma FirstArgOfSingleQuoted(w: Text, rest: Text)
    requires 39 !in w
    ensures FirstArg([39] + w + [39] + rest) == (w, rest) && FirstArg([39] + w) == (w, [])
  {
    SingleQuotedAt(w, [39] + rest);
    SingleQuotedAt(w, []);
    hide FirstArg;
    Assoc([39] + w, [39], rest);
    Assoc([39], w, [39] + rest);
    Assoc([39], w, []);
    assert [39] + w + [] == [39] + w && ([39] + rest)[1..] == rest;
  }

  lemma SingleQuotedAt(w: Text, t: Text)
    requires 39 !in w && (t == [] || t[0] == 39)
    ensures FirstArg([39] + (w + t)) == (w, if t == [] then [] else t[1..])
  {
    hide Decode, CStr, PlainEnd, QuotedEnd;
    var u := w + t;
    assert ([39] + u)[1..] == u;
    QuotedEndAt(w, t);
    assert u[..|w|] == w && (t != [] ==> u[|w| + 1..] == t[1..]);
  }

  lemma ArgsOfTyped(a: Form, more: Text, n: nat)
    requires FormOk(a) && n < MAX_ARGS
    ensures Args(Typed(a) + [SPACE] + more, n) == [a.text] + Args(more, n + 1)
    ensures Args(Typed(a), n) == [a.text]
  {
    hide FirstArg, Args, Decode, CStr;
    var t := Typed(a);
    var s, rest := t + [SPACE] + more, [SPACE] + more;
    NoMoreArgs([], n + 1);
    ArgsSkipSpace(more, n + 1);
    assert s == t + rest && t + [] == t && s[0] == t[0];
    match a
    case Escaped(x) =>
      ArgsOfPrinted(x, more, n);
    case SingleQuoted(w) =>
      FirstArgOfSingleQuoted(w, rest);
      FirstArgOfSingleQuoted(w, []);
      ArgsOf(w, rest, s, n);
      ArgsOf(w, [], t, n);
    case Bare(w) =>
      FirstArgOfWord(w, SPACE, more);
      ArgsOf(w, more, s, n);
      ArgsOf(w, [], t, n);
  }

  // The arguments as typed, separated by spaces.
  function TypedArgs(args: seq<Form>): Text {
    if args == [] then []
    else if |args| == 1 then Typed(args[0])
    else Typed(args[0]) + [SPACE] + TypedArgs(args[1..])
  }

  function Texts(args: seq<Form>): (r: seq<Text>)
    ensures |r| == |args| && forall i :: 0 <= i < |r| ==> r[i] == args[i].text
  {
    if args == [] then [] else [args[0].text] + Texts(args[1..])
  }

  lemma {:induction false} TypedRoundTrip(args: seq<Form>, n: nat)
    requires n <= MAX_ARGS && forall i :: 0 <= i < |args| ==> FormOk(args[i])
    ensures Args(TypedArgs(args), n) == FirstFew(Texts(args), MAX_ARGS - n)
    decreases |args|
  {
    hide Args, FirstArg, FormOk, Typed;
    if args == [] || n == MAX_ARGS {
      NoMoreArgs(TypedArgs(args), n);
    } else {
      TypedStep(args, n);
      TypedRoundTrip(args[1..], n + 1);
      FirstFewCons(Texts(args), MAX_ARGS - n);
      assert Texts(args)[1..] == Texts(args[1..]);
    }
  }

  lemma TypedStep(args: seq<Form>, n: nat)
    requires args != [] && n < MAX_ARGS && FormOk(args[0])
    ensures Args(TypedArgs(args), n) == [args[0].text] + Args(TypedArgs(args[1..]), n + 1)
  {
    ArgsOfTyped(args[0], TypedArgs(args[1..]), n);
    NoMoreArgs([], n + 1);
    hide Args, FormOk, Typed;
  }

  // A command line typed with any mixture of the three forms tokenizes to its
  // arguments, the first fifty of them.
  lemma TypedCommand(args: seq<Form>)
    requires forall i :: 0 <= i < |args| ==> FormOk(args[i])
    ensures Tokens([DOT] + TypedArgs(args)) == if |args| <= 50 then Texts(args) else Texts(args)[..50]
  {
    hide Args, TypedArgs;
    assert ([DOT] + TypedArgs(args))[1..] == TypedArgs(args);
    TypedRoundTrip(args, 0);
  }

  // ---------------------------------------------------------------- in place

  // A NUL-terminated argument in the line.
  ghost predicate ArgAt(z: array<Byte>, a: nat, arg: Text)
    reads z
  {
    a + |arg| < z.Length && z[a..a + |arg|] == arg && z[a + |arg|] == 0
  }

  // From h on the line is still as it was read.
  ghost predicate Unread(z: array<Byte>, h: nat, line: Text)
    reads z
  {
    h <= |line| < z.Length && NulFree(line) && z[|line|] == 0 && forall k :: h <= k < |line| ==> z[k] == line[k]
  }

  method SkipTo(z: array<Byte>, h: nat, ghost line: Text) returns (h': nat)
    requires Unread(z, h, line)
    ensures h <= h' <= |line| && line[h'..] == SkipSpaces(line[h..])
  {
    h' := h;
    while IsSpace(z[h'])
      invariant h <= h' <= |line| && SkipSpaces(line[h..]) == SkipSpaces(line[h'..])
      decreases |line| - h'
    {
      assert line[h'..][1..] == line[h' + 1..];
      h' := h' + 1;
    }
  }

  lemma QuotedEndHere(s: Text, delim: Byte)
    ensures s == [] || s[0] == delim ==> QuotedEnd(s, delim) == 0
  {
  }

  lemma QuotedEndStep(line: Text, e: nat, delim: Byte)
    requires e < |line| && line[e] != delim
    ensures var hides := line[e] == BACKSLASH && delim == DQUOTE && e + 1 < |line|;
            QuotedEnd(line[e..], delim) ==
            if hides then 2 + QuotedEnd(line[e + 2..], delim) else 1 + QuotedEnd(line[e + 1..], delim)
  {
    var s := line[e..];
    assert s[1..] == line[e + 1..] && (|s| > 1 ==> s[2..] == line[e + 2..]);
  }

  method FindQuotedEnd(z: array<Byte>, h: nat, delim: Byte, ghost line: Text) returns (e: nat)
    requires Unread(z, h, line) && delim != 0
    ensures h <= e <= |line| && e - h == QuotedEnd(line[h..], delim)
  {
    hide QuotedEnd;
    e := h;
    while z[e] != 0 && z[e] != delim
      invariant h <= e <= |line| && QuotedEnd(line[h..], delim) == e - h + QuotedEnd(line[e..], delim)
      decreases |line| - e
    {
      QuotedEndStep(line, e, delim);
      if z[e] == BACKSLASH && delim == DQUOTE && z[e + 1] != 0 { e := e + 1; }
      e := e + 1;
    }
    QuotedEndHere(line[e..], delim);
  }

  method FindPlainEnd(z: array<Byte>, h: nat, ghost line: Text) returns (e: nat)
    requires Unread(z, h, line)
    ensures h <= e <= |line| && e - h == PlainEnd(line[h..])
  {
    e := h;
    while z[e] != 0 && !IsSpace(z[e])
      invariant h <= e <= |line| && PlainEnd(line[h..]) == e - h + PlainEnd(line[e..])
      decreases |line| - e
    {
      assert line[e..][1..] == line[e + 1..];
      e := e + 1;
    }
  }

  lemma CStrArgAt(z: array<Byte>, a: nat, d: Text)
    requires ArgAt(z, a, d)
    ensures ArgAt(z, a, CStr(d))
  {
    hide CStr;
    var n := |CStr(d)|;
    assert forall k :: 0 <= k < |d| ==> z[a + k] == z[a..a + |d|][k] == d[k];
    assert z[a..a + n] == CStr(d);
    assert n < |d| ==> z[a + n] == d[n];
  }

  // Terminating the argument between a and e, and decoding it if asked: the line
  // after it is not touched.
  method Finish(z: array<Byte>, a: nat, e: nat, decode: bool, ghost line: Text) returns (h: nat, ghost arg: Text)
    requires Unread(z, a, line) && a <= e <= |line|
    modifies z
    ensures h == (if e < |line| then e + 1 else e) && Unread(z, h, line)
    ensures arg == (if decode then CStr(Decode(line[a..e])) else line[a..e])
    ensures a + |arg| <= e && ArgAt(z, a, arg)
    ensures forall k :: 0 <= k < a ==> z[k] == old(z[k])
  {
    hide Decode, CStr;
    h := e;
    if z[h] != 0 {
      z[h] := 0;
      h := h + 1;
    }
    assert z[a..e] == line[a..e];
    arg := line[a..e];
    if decode {
      ghost var d := Decode(line[a..e]);
      ResolveBackslashes(z, a, e);
      arg := CStr(d);
      CStrArgAt(z, a, d);
    }
  }

  // One turn of the tokenizer loop, on a line that goes on at h with neither
  // white space nor its end.
  method NextArg(z: array<Byte>, h: nat, ghost line: Text) returns (a: nat, h': nat, ghost arg: Text)
    requires Unread(z, h, line) && h < |line| && !IsSpace(line[h])
    modifies z
    ensures h <= a && a + |arg| <= h' && h < h' && ArgAt(z, a, arg) && Unread(z, h', line)
    ensures h' < |line| ==> a + |arg| < h'
    ensures (arg, line[h'..]) == FirstArg(line[h..])
    ensures forall k :: 0 <= k < h ==> z[k] == old(z[k])
  {
    hide Decode, CStr, QuotedEnd, PlainEnd;
    ghost var s := line[h..];
    assert s[0] == z[h] && s[1..] == line[h + 1..];
    if IsDelim(z[h]) {
      var delim := z[h];
      a := h + 1;
      var e := FindQuotedEnd(z, a, delim, line);
      h', arg := Finish(z, a, e, delim == DQUOTE, line);
      assert s[1..][..e - a] == line[a..e] && After(s[1..], e - a) == line[h'..];
    } else {
      a := h;
      var e := FindPlainEnd(z, a, line);
      h', arg := Finish(z, a, e, true, line);
      assert s[..e - a] == line[a..e] && After(s, e - a) == line[h'..];
    }
  }

  // The arguments found so far end before h, unless the line is used up.
  ghost predicate AllArgsAt(z: array<Byte>, azArg: seq<nat>, args: seq<Text>, h: nat, n: nat)
    reads z
  {
    |azArg| == |args| &&
    forall i :: 0 <= i < |args| ==> ArgAt(z, azArg[i], args[i]) && (azArg[i] + |args[i]| < h || h == n)
  }

  method AddArg(z: array<Byte>, h: nat, azArg: seq<nat>, ghost args: seq<Text>, ghost line: Text)
    returns (a: nat, h': nat, ghost arg: Text)
    requires Unread(z, h, line) && h < |line| && !IsSpace(line[h]) && AllArgsAt(z, azArg, args, h, |line|)
    modifies z
    ensures h < h' && Unread(z, h', line) && (arg, line[h'..]) == FirstArg(line[h..])
    ensures AllArgsAt(z, azArg + [a], args + [arg], h', |line|)
  {
    a, h', arg := NextArg(z, h, line);
    forall i | 0 <= i < |args| ensures ArgAt(z, azArg[i], args[i]) && azArg[i] + |args[i]| < h' {
      assert old(ArgAt(z, azArg[i], args[i]));
      assert z[azArg[i]..azArg[i] + |args[i]|] == old(z[azArg[i]..azArg[i] + |args[i]|]);
    }
  }

  // The tokenizer of do_meta_command.  The line in z is NUL-terminated; azArg
  // holds where the arguments start, and each is a C string in the buffer.
  method Tokenize(z: array<Byte>, ghost line: Text) returns (azArg: seq<nat>)
    requires Unread(z, 0, line) && |line| >= 1
    modifies z
    ensures |azArg| <= MAX_ARGS && |azArg| == |Tokens(line)|
    ensures forall i :: 0 <= i < |azArg| ==> ArgAt(z, azArg[i], Tokens(line)[i])
  {
    hide Args, FirstArg, SkipSpaces;
    ghost var all := Tokens(line);
    ghost var args: seq<Text> := [];
    azArg := [];
    var h: nat := 1;
    while z[h] != 0 && |azArg| < MAX_ARGS
      invariant Unread(z, h, line) && |azArg| <= MAX_ARGS
      invariant AllArgsAt(z, azArg, args, h, |line|)
      invariant all == args + Args(line[h..], |args|)
      decreases |line| - h
    {
      var start := SkipTo(z, h, line);
      ArgsSkipSpaces(line[h..], |args|);
      h := start;
      if z[h] == 0 { break; }
      assert !IsSpace(line[h]) by { assert line[h] == line[h..][0]; }
      ghost var s := line[h..];
      var a; ghost var arg;
      a, h, arg := AddArg(z, h, azArg, args, line);
      ArgsOf(arg, line[h..], s, |args|);
      ConsAssoc(args, arg, Args(line[h..], |args| + 1));
      azArg := azArg + [a];
      args := args + [arg];
    }
    NoMoreArgs(line[h..], |args|);
    assert all == args;
  }

  lemma {:induction false} ArgsSkipSpaces(line: Text, n: nat)
    ensures Args(SkipSpaces(line), n) == Args(line, n)
    decreases |line|
  {
    if line != [] && IsSpace(line[0]) { ArgsSkipSpaces(line[1..], n); }
  }

  // ------------------------------------------------ printing, then tokenizing

  lemma NulFreeConcat(a: Text, b: Text)
    requires NulFree(a) && NulFree(b)
    ensures NulFree(a + b)
  {
  }

  // Escaped text never contains a NUL, whatever was escaped.
  lemma {:induction false} EscapeNulFree(s: Text)
    ensures NulFree(Escape(s))
    decreases |s|
  {
    if s != [] {
      EscapeNulFree(s[1..]);
      NulFreeConcat(EscapeByte(s[0]), Escape(s[1..]));
    }
  }

  lemma {:induction false} PrintArgsNulFree(args: seq<Text>)
    ensures NulFree(PrintArgs(args))
    decreases |args|
  {
    if args != [] {
      EscapeNulFree(args[0]);
      PrintArgsNulFree(args[1..]);
      hide Escape;
      NulFreeConcat([DQUOTE], Escape(args[0]));
      NulFreeConcat([DQUOTE] + Escape(args[0]), [DQUOTE]);
      NulFreeConcat(CString(args[0]), [SPACE]);
      NulFreeConcat(CString(args[0]) + [SPACE], PrintArgs(args[1..]));
    }
  }

  method PrintCommand(args: seq<Text>) returns (line: Text)
    ensures line == CommandOf(args)
  {
    line := [DOT];
    var i := 0;
    DropNone(args);
    while i < |args|
      invariant 0 <= i <= |args| && CommandOf(args) == line + PrintArgs(args[i..])
    {
      PrintArgsStep(args, i);
      hide PrintArgs, CString, CommandOf;
      var text := OutputCString(args[i]);
      if i < |args| - 1 { text := text + [SPACE]; }
      Assoc(line, text, PrintArgs(args[i + 1..]));
      line := line + text;
      i := i + 1;
    }
  }

  lemma PrintArgsStep(args: seq<Text>, i: nat)
    requires i < |args|
    ensures PrintArgs(args[i..]) ==
            CString(args[i]) + (if i < |args| - 1 then [SPACE] else []) + PrintArgs(args[i + 1..])
  {
    assert args[i..][1..] == args[i + 1..];
  }

  // Through the shell's own code: the arguments printed behind a dot, the line
  // put into a buffer and tokenized there, come back as C strings in the buffer,
  // the first fifty of them.
  method PrintThenTokenize(args: seq<Text>) returns (z: array<Byte>, azArg: seq<nat>)
    requires forall i :: 0 <= i < |args| ==> NulFree(args[i])
    ensures |azArg| == Min(|args|, MAX_ARGS)
    ensures forall i :: 0 <= i < |azArg| ==> ArgAt(z, azArg[i], args[i])
  {
    var line := PrintCommand(args);
    PrintArgsNulFree(args);
    CommandRoundTrip(args);
    hide PrintArgs, Args;
    NulFreeConcat([DOT], PrintArgs(args));
    var text := line + [0];
    z := new Byte[|text|](i requires 0 <= i < |text| => text[i]);
    azArg := Tokenize(z, line);
  }
}
