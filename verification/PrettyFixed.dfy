// Which schema texts the pretty-printer leaves alone. Both passes are restated
// as scans of the text that carry no buffer, and the texts they do not change
// are described by one more scan.

module PrettyFixed {
  import opened Bytes
  import opened Pretty

  // The values the scanner's quote field takes.
  predicate QuoteMark(e: Byte) {
    e == 0 || e == DQUOTE || e == SQUOTE || e == BACKTICK || e == RBRACKET
  }

  // ----------------------------------------------- the first pass, streaming

  predicate Paren(c: Byte) {
    c == OPEN || c == CLOSE
  }

  // What is left of a run of white space that begins with c, stands after prev
  // and before the text u.
  function Gap(prev: Byte, c: Byte, u: Text): Text {
    if prev == OPEN || u == [] || Paren(u[0]) then [] else [c]
  }

  // The squeezed form of a text that stands after prev.
  function Compact(s: Text, prev: Byte): Text
    decreases |s|
  {
    if s == [] then []
    else if !IsSpace(s[0]) then [s[0]] + Compact(s[1..], s[0])
    else
      SkipSpacesShortens(s[1..]);
      var u := SkipSpaces(s[1..]);
      Gap(prev, s[0], u) + Compact(u, s[0])
  }

  // A run of white space after a written space is dropped.
  lemma {:induction false} SqueezeRun(w: Text, s: Text)
    requires w != [] && (IsSpace(w[|w| - 1]) || w[|w| - 1] == OPEN)
    ensures SqueezeAll(w, s) == SqueezeAll(w, SkipSpaces(s))
    decreases |s|
  {
    if s != [] && IsSpace(s[0]) { SqueezeRun(w, s[1..]); }
  }

  lemma {:induction false} CompactIsSqueeze(w: Text, s: Text)
    requires w != [] && !IsSpace(w[|w| - 1])
    ensures TrimRight(SqueezeAll(w, s)) == w + Compact(s, w[|w| - 1])
    decreases |s|
  {
    if s == [] {
      assert w + [] == w;
    } else {
      var prev, c := w[|w| - 1], s[0];
      if !IsSpace(c) {
        assert Squeeze(w, c) == w + [c];
        CompactIsSqueeze(w + [c], s[1..]);
        ConsAssoc(w, c, Compact(s[1..], c));
      } else {
        SqueezeAfterGap(w, s);
      }
    }
  }

  lemma {:induction false} SqueezeAfterGap(w: Text, s: Text)
    requires w != [] && !IsSpace(w[|w| - 1]) && s != [] && IsSpace(s[0])
    ensures TrimRight(SqueezeAll(w, s)) == w + Compact(s, w[|w| - 1])
    decreases |s|, 0
  {
    hide SqueezeAll, TrimRight, SkipSpaces, Squeeze, Gap, Compact;
    var prev, c := w[|w| - 1], s[0];
    SkipSpacesShortens(s[1..]);
    var u := SkipSpaces(s[1..]);
    GapSteps(w, s);
    if u == [] {
      GapAtEnd(w, c);
      assert w + [] == w;
    } else {
      var gap, more := Gap(prev, c, u), Compact(u[1..], u[0]);
      SqueezePast(w, c, u);
      CompactIsSqueeze(w + gap + [u[0]], u[1..]);
      Assoc(w, gap, [u[0]] + more);
      ConsAssoc(w + gap, u[0], more);
    }
  }

  // Both forms of the first pass across a run of white space.
  lemma GapSteps(w: Text, s: Text)
    requires w != [] && !IsSpace(w[|w| - 1]) && s != [] && IsSpace(s[0])
    ensures var u := SkipSpaces(s[1..]);
            var v := Squeeze(w, s[0]);
            && SqueezeAll(w, s) == (if u == [] then v else SqueezeAll(Squeeze(v, u[0]), u[1..]))
            && Compact(s, w[|w| - 1]) ==
               (if u == [] then [] else Gap(w[|w| - 1], s[0], u) + ([u[0]] + Compact(u[1..], u[0])))
  {
    SkipSpacesShortens(s[1..]);
    var u, v := SkipSpaces(s[1..]), Squeeze(w, s[0]);
    SqueezeRun(v, s[1..]);
    assert SqueezeAll(w, s) == SqueezeAll(v, u);
    assert Compact(s, w[|w| - 1]) == if u == [] then [] else Gap(w[|w| - 1], s[0], u) + Compact(u, s[0]);
    assert u != [] ==> Compact(u, s[0]) == [u[0]] + Compact(u[1..], u[0]);
    hide Squeeze, Gap, SkipSpaces, Compact;
  }

  lemma GapAtEnd(w: Text, c: Byte)
    requires w != [] && !IsSpace(w[|w| - 1]) && IsSpace(c)
    ensures TrimRight(Squeeze(w, c)) == w
  {
    assert (w + [c])[..|w|] == w;
  }

  // The first character after a run of white space decides whether it stays.
  lemma SqueezePast(w: Text, c: Byte, u: Text)
    requires w != [] && !IsSpace(w[|w| - 1]) && IsSpace(c) && u != [] && !IsSpace(u[0])
    ensures Squeeze(Squeeze(w, c), u[0]) == w + Gap(w[|w| - 1], c, u) + [u[0]]
  {
    assert (w + [c])[..|w|] == w && w + [] == w;
  }

  lemma CompactIsFirstPass(s: Text)
    ensures FirstPass(s) == Compact(s, OPEN)
  {
    var u := SkipSpaces(s);
    SkipSpacesShortens(s);
    assert Compact(s, OPEN) == Compact(u, OPEN) by { CompactSkips(s); }
    if u != [] {
      assert Squeeze([], u[0]) == [u[0]];
      CompactIsSqueeze([u[0]], u[1..]);
    }
  }

  lemma CompactSkips(s: Text)
    ensures Compact(s, OPEN) == Compact(SkipSpaces(s), OPEN)
  {
    if s != [] && IsSpace(s[0]) {
      var u := SkipSpaces(s[1..]);
      assert Compact(s, OPEN) == [] + Compact(u, s[0]) == Compact(u, s[0]);
    }
  }

  // ---------------------------------------------- the second pass, streaming

  function Depth(n: int, c: Byte): int {
    if c == OPEN then n + 1 else if c == CLOSE then n - 1 else n
  }

  // A line starts at c: the last closing parenthesis of a text that has been
  // broken, unless the line is still empty (bare).
  predicate Before(c: Byte, n: int, broken: bool, bare: bool) {
    c == CLOSE && n == 1 && broken && !bare
  }

  predicate After(c: Byte, n: int) {
    Depth(n, c) == 1 && (c == OPEN || c == COMMA || c == LF)
  }

  // What the second pass prints from here on.
  function Lines(s: Text, n: int, broken: bool, bare: bool): Text
    decreases |s|
  {
    if s == [] then []
    else if Before(s[0], n, broken, bare) then [LF] + ([s[0]] + Lines(s[1..], 0, broken, false))
    else if After(s[0], n) then
      SkipSpacesShortens(s[1..]);
      Broken(s[0]) + Lines(SkipSpaces(s[1..]), 1, true, true)
    else [s[0]] + Lines(s[1..], Depth(n, s[0]), broken, false)
  }

  function Broken(c: Byte): Text {
    if c == LF then INDENT else [c] + INDENT
  }

  lemma {:induction false} LinesIsLayout(s: Text, st: Scan, line: Text)
    requires QuoteMark(st.cEnd)
    ensures Layout(s, st, line) == line + Lines(s, st.nParen, st.nLine > 0, line == [])
    decreases |s|
  {
    if s != [] {
      var c := s[0];
      SkipSpacesShortens(s[1..]);
      var rest := if BreaksAfter(st, c) then SkipSpaces(s[1..]) else s[1..];
      LinesIsLayout(rest, AfterChar(st, c), Carry(st, c, line));
      var next, carry := AfterChar(st, c), Carry(st, c, line);
      LinesStep(c, st, line, Lines(rest, next.nParen, next.nLine > 0, carry == []));
    }
  }

  lemma LinesStep(c: Byte, st: Scan, line: Text, more: Text)
    requires QuoteMark(st.cEnd)
    ensures AfterChar(st, c).nParen == Depth(st.nParen, c)
    ensures BreaksAfter(st, c) <==> After(c, st.nParen)
    ensures BreaksBefore(st, c, line) <==> Before(c, st.nParen, st.nLine > 0, line == [])
    ensures Emit(st, c, line) + (Carry(st, c, line) + more) ==
            line + (if Before(c, st.nParen, st.nLine > 0, line == []) then [LF] + ([c] + more)
                    else if After(c, st.nParen) then Broken(c) + more
                    else [c] + more)
  {
  }

  // ------------------------------------------- quotes do not protect anything

  // The scanner keeps track of quotes, and what it prints never depends on them.
  lemma QuotesIgnored(s: Text, st: Scan, e: Byte, line: Text)
    requires QuoteMark(st.cEnd) && QuoteMark(e)
    ensures Layout(s, st, line) == Layout(s, st.(cEnd := e), line)
  {
    LinesIsLayout(s, st, line);
    LinesIsLayout(s, st.(cEnd := e), line);
  }

  // White space inside a quoted text is squeezed: 'a  b' comes out as 'a b'.
  lemma QuotedSpacesSqueezed()
    ensures Pretty.Pretty([SQUOTE, 97, SPACE, SPACE, 98, SQUOTE]) == [SQUOTE, 97, SPACE, 98, SQUOTE, SEMI, LF]
  {
    var s3 := [SPACE, SPACE, 98, SQUOTE];
    var s := [SQUOTE] + ([97] + s3);
    CompactIsFirstPass(s);
    assert s[1..] == [97] + s3 && s[1..][1..] == s3;
    assert s3[1..][1..] == [98] + [SQUOTE] && SkipSpaces(s3[1..]) == [98] + [SQUOTE];
    assert ([98] + [SQUOTE])[1..] == [SQUOTE];
    assert Compact([SQUOTE], 98) == [SQUOTE];
    assert Compact([98] + [SQUOTE], SPACE) == [98] + [SQUOTE];
    assert Compact(s3, 97) == [SPACE] + ([98] + [SQUOTE]);
    assert Compact(s[1..], SQUOTE) == [97] + Compact(s3, 97);
    assert s == [SQUOTE, 97, SPACE, SPACE, 98, SQUOTE];
    assert FirstPass(s) == [SQUOTE, 97, SPACE, 98, SQUOTE];
    assert |CREATE_VIEW| == |CREATE_TRIG| == 11;
  }

  // ------------------------------------------------------------- fixed points

  // The text is laid out as the printer would lay it out, scanned from left to
  // right after the character prev:
  // - after an opening parenthesis or comma at depth one comes an indented line;
  // - a line feed at depth one is followed by the indent, or by the closing
  //   parenthesis that ends the statement, which is never found inside a line;
  // - any other white space is one character, not next to a parenthesis on its
  //   right or an opening one on its left, and not last.
  predicate LaidOut(s: Text, n: int, broken: bool, bare: bool, prev: Byte)
    decreases |s|
  {
    if s == [] then true
    else if !IsSpace(s[0]) then
      && !Before(s[0], n, broken, bare)
      && (if After(s[0], n) then
            && INDENT <= s[1..] && Flush(s[4..])
            && LaidOut(s[4..], 1, true, true, s[0])
          else LaidOut(s[1..], Depth(n, s[0]), broken, false, s[0]))
    else if s[0] == LF && |s| > 1 && Before(s[1], n, broken, bare) then
      LaidOut(s[2..], 0, broken, false, CLOSE)
    else if After(s[0], n) then
      && prev != OPEN && INDENT <= s && Flush(s[3..]) && |s| > 3 && !Paren(s[3])
      && LaidOut(s[3..], 1, true, true, s[0])
    else
      && prev != OPEN && Flush(s[1..]) && |s| > 1 && !Paren(s[1])
      && LaidOut(s[1..], n, broken, false, s[0])
  }

  // Does not start with white space.
  predicate Flush(s: Text) {
    s != [] ==> !IsSpace(s[0])
  }

  lemma CompactFlush(u: Text, p: Byte, q: Byte)
    requires Flush(u)
    ensures Compact(u, p) == Compact(u, q) && Flush(Compact(u, p))
    ensures u != [] ==> Compact(u, p) != [] && Compact(u, p)[0] == u[0]
  {
  }

  // Squeezing keeps what follows a run of white space.
  lemma CompactAfter(s: Text, prev: Byte)
    ensures SkipSpaces(Compact(s, prev)) == Compact(SkipSpaces(s), prev)
  {
    SkipSpacesShortens(s);
    var u := SkipSpaces(s);
    if s != [] && IsSpace(s[0]) {
      CompactFlush(u, prev, s[0]);
      var rest := Compact(u, prev);
      assert Compact(s, prev) == Gap(prev, s[0], u) + rest;
      if Gap(prev, s[0], u) == [] {
        assert Compact(s, prev) == rest;
      } else {
        assert ([s[0]] + rest)[1..] == rest;
      }
    } else {
      CompactFlush(s, prev, prev);
    }
  }

  // After a line break, or before a character that starts no line, the text
  // printed begins as the squeezed text does.
  lemma LinesHead(t: Text, n: int, broken: bool, bare: bool)
    requires Flush(t) && (bare || t == [] || !Paren(t[0]))
    ensures Flush(Lines(t, n, broken, bare))
    ensures t != [] ==> Lines(t, n, broken, bare) != [] && Lines(t, n, broken, bare)[0] == t[0]
  {
  }

  lemma FlushSuffix(s: Text, k: nat)
    requires k <= |s| && Flush(s[k..])
    requires forall i :: 0 <= i < k ==> IsSpace(s[i])
    ensures SkipSpaces(s) == s[k..]
    decreases k
  {
    if k > 0 {
      assert s[1..][k - 1..] == s[k..];
      FlushSuffix(s[1..], k - 1);
    } else {
      DropNone(s);
    }
  }

  // The texts both passes together leave unchanged are exactly those laid out.
  lemma {:induction false} FixedScan(s: Text, n: int, broken: bool, bare: bool, prev: Byte)
    ensures Lines(Compact(s, prev), n, broken, bare) == s <==> LaidOut(s, n, broken, bare, prev)
    decreases |s|
  {
    if s != [] {
      if IsSpace(s[0]) {
        if s[0] == LF && |s| > 1 && Before(s[1], n, broken, bare) {
          FixedScan(s[2..], 0, broken, false, CLOSE);
          FixedClose(s, broken, bare, prev);
        } else if After(s[0], n) {
          if |s| > 3 { FixedScan(s[3..], 1, true, true, s[0]); }
          FixedLineFeed(s, broken, bare, prev);
        } else {
          FixedScan(s[1..], n, broken, false, s[0]);
          FixedGap(s, n, broken, bare, prev);
        }
      } else if !Before(s[0], n, broken, bare) {
        if After(s[0], n) {
          if |s| > 3 { FixedScan(s[4..], 1, true, true, s[0]); }
          FixedBreak(s, n, broken, bare, prev);
        } else {
          FixedScan(s[1..], Depth(n, s[0]), broken, false, s[0]);
          assert (([s[0]] + Compact(s[1..], s[0]))[1..]) == Compact(s[1..], s[0]);
          assert s == [s[0]] + s[1..];
        }
      }
    }
  }

  // One step each: a closing parenthesis on its own line,
  lemma FixedClose(s: Text, broken: bool, bare: bool, prev: Byte)
    requires |s| > 1 && s[0] == LF && Before(s[1], 1, broken, bare)
    ensures Lines(Compact(s, prev), 1, broken, bare) == s <==>
            Lines(Compact(s[2..], CLOSE), 0, broken, false) == s[2..]
  {
    var u := s[1..];
    assert u[1..] == s[2..];
    var more := Compact(s[2..], CLOSE);
    assert SkipSpaces(u) == u;
    assert Compact(s, prev) == [] + Compact(u, LF) == [CLOSE] + more;
    assert ([CLOSE] + more)[1..] == more;
    assert s == [LF] + ([CLOSE] + s[2..]);
    assert Lines([CLOSE] + more, 1, broken, bare) == [LF] + ([CLOSE] + Lines(more, 0, broken, false));
    Peel2(LF, CLOSE, Lines(more, 0, broken, false), s[2..]);
  }

  lemma Peel2(x: Byte, y: Byte, a: Text, b: Text)
    ensures [x] + ([y] + a) == [x] + ([y] + b) <==> a == b
  {
    assert ([x] + ([y] + a))[2..] == a && ([x] + ([y] + b))[2..] == b;
  }

  lemma Peel(p: Text, a: Text, s: Text)
    ensures p + a == s <==> p <= s && s[|p|..] == a
  {
    assert (p + a)[|p|..] == a;
    if p <= s { assert s == p + s[|p|..]; }
  }

  // a line feed at depth one,
  lemma FixedLineFeed(s: Text, broken: bool, bare: bool, prev: Byte)
    requires s != [] && s[0] == LF && !(|s| > 1 && Before(s[1], 1, broken, bare))
    ensures Lines(Compact(s, prev), 1, broken, bare) == s <==>
            && prev != OPEN && INDENT <= s && Flush(s[3..]) && |s| > 3 && !Paren(s[3])
            && Lines(Compact(s[3..], LF), 1, true, true) == s[3..]
  {
    var u := SkipSpaces(s[1..]);
    SkipSpacesShortens(s[1..]);
    var t := Compact(u, LF);
    CompactFlush(u, LF, LF);
    if INDENT <= s && Flush(s[3..]) { IndentThen(s); }
    if Gap(prev, LF, u) == [] {
      assert Compact(s, prev) == t;
      LinesNotGap(t, broken, bare, s);
    } else {
      assert Compact(s, prev) == [LF] + t;
      LineFeedBreaks(t, broken, bare);
      LinesHead(t, 1, true, true);
      Peel(INDENT, Lines(t, 1, true, true), s);
    }
    hide Lines, Compact, SkipSpaces;
  }

  lemma LineFeedBreaks(t: Text, broken: bool, bare: bool)
    requires Flush(t)
    ensures Lines([LF] + t, 1, broken, bare) == INDENT + Lines(t, 1, true, true)
  {
    assert ([LF] + t)[1..] == t;
  }

  // Text that does not start with white space is printed with a line feed first
  // only for the closing parenthesis.
  lemma LinesNotGap(t: Text, broken: bool, bare: bool, s: Text)
    requires Flush(t) && s != [] && s[0] == LF && !(|s| > 1 && Before(s[1], 1, broken, bare))
    ensures Lines(t, 1, broken, bare) != s
  {
    if t != [] && Before(t[0], 1, broken, bare) {
      assert Lines(t, 1, broken, bare)[1] == t[0];
    }
  }

  lemma IndentThen(s: Text)
    requires INDENT <= s && Flush(s[3..])
    ensures SkipSpaces(s[1..]) == s[3..]
  {
    assert s[1..][2..] == s[3..];
    FlushSuffix(s[1..], 2);
  }

  // any other white space,
  lemma FixedGap(s: Text, n: int, broken: bool, bare: bool, prev: Byte)
    requires s != [] && IsSpace(s[0]) && !After(s[0], n)
    requires !(s[0] == LF && |s| > 1 && Before(s[1], n, broken, bare))
    ensures Lines(Compact(s, prev), n, broken, bare) == s <==>
            && prev != OPEN && Flush(s[1..]) && |s| > 1 && !Paren(s[1])
            && Lines(Compact(s[1..], s[0]), n, broken, false) == s[1..]
  {
  }

  // and a character that ends a line.
  lemma FixedBreak(s: Text, n: int, broken: bool, bare: bool, prev: Byte)
    requires s != [] && !IsSpace(s[0]) && After(s[0], n)
    ensures Lines(Compact(s, prev), n, broken, bare) == s <==>
            && INDENT <= s[1..] && Flush(s[4..])
            && Lines(Compact(s[4..], s[0]), 1, true, true) == s[4..]
  {
    var u := SkipSpaces(s[1..]);
    SkipSpacesShortens(s[1..]);
    var c := s[0];
    CompactAfter(s[1..], c);
    var t := Compact(u, c);
    CompactFlush(u, c, c);
    assert ([c] + Compact(s[1..], c))[1..] == Compact(s[1..], c);
    assert Lines(Compact(s, prev), n, broken, bare) == [c] + INDENT + Lines(t, 1, true, true);
    LinesHead(t, 1, true, true);
    Peel([c] + INDENT, Lines(t, 1, true, true), s);
    if INDENT <= s[1..] && Flush(s[4..]) {
      assert s[1..][3..] == s[4..];
      FlushSuffix(s[1..], 3);
    }
  }

  // The text of a statement as printed, without the semicolon.
  function Body(sql: Text): Text {
    var tight := FirstPass(sql);
    if Verbatim(sql) then sql
    else if |tight| >= 79 then Layout(tight, Scan(0, 0, 0), [])
    else tight
  }

  predicate Verbatim(sql: Text) {
    LikePrefix(CREATE_VIEW, sql) || LikePrefix(CREATE_TRIG, sql)
  }

  // A long text is broken into lines unless it already is.
  lemma LongFixed(sql: Text)
    ensures Layout(FirstPass(sql), Scan(0, 0, 0), []) == sql <==> LaidOut(sql, 0, false, true, OPEN)
  {
    var tight := FirstPass(sql);
    CompactIsFirstPass(sql);
    LinesIsLayout(tight, Scan(0, 0, 0), []);
    assert [] + Lines(tight, 0, false, true) == Lines(tight, 0, false, true);
    FixedScan(sql, 0, false, true, OPEN);
  }

  // Exactly when pretty-printing adds nothing but the semicolon and line end:
  // for views and triggers always, for a short text when its white space is
  // normal, for a long one when it is laid out.
  lemma PrettyUnchanged(sql: Text)
    ensures Pretty.Pretty(sql) == Body(sql) + [SEMI, LF]
    ensures Pretty.Pretty(sql) == sql + [SEMI, LF] <==>
            || Verbatim(sql)
            || (if |FirstPass(sql)| < 79 then Normal(sql) else LaidOut(sql, 0, false, true, OPEN))
  {
    FirstPassNormalises(sql);
    LongFixed(sql);
    Peel2End(Body(sql), sql);
    hide FirstPass, Layout, LaidOut, LikePrefix, Normal;
  }

  lemma Peel2End(a: Text, b: Text)
    ensures a + [SEMI, LF] == b + [SEMI, LF] <==> a == b
  {
    if a + [SEMI, LF] == b + [SEMI, LF] {
      assert |a| == |b|;
      assert a == (a + [SEMI, LF])[..|a|] == (b + [SEMI, LF])[..|b|] == b;
    }
  }

  // ---------------------------------------------------------------- idempotence

  // Normal form read from left to right after prev.
  predicate TightFrom(prev: Byte, s: Text)
    decreases |s|
  {
    if s == [] then !IsSpace(prev) else !BadPair(prev, s[0]) && TightFrom(s[0], s[1..])
  }

  lemma {:induction false} NormalIsTightFrom(s: Text, i: nat)
    requires Normal(s) && 0 < i <= |s|
    ensures TightFrom(s[i - 1], s[i..])
    decreases |s| - i
  {
    if i < |s| {
      assert PairOk(s, i);
      NormalIsTightFrom(s, i + 1);
      assert s[i..][1..] == s[i + 1..];
    }
  }

  lemma TightAfterBreak(c: Byte, s: Text)
    requires !IsSpace(c) && TightFrom(c, s)
    ensures TightFrom(c, SkipSpaces(s)) && Flush(SkipSpaces(s))
    ensures |s| <= |SkipSpaces(s)| + |Gap(c, LF, SkipSpaces(s))|
  {
    if s != [] && IsSpace(s[0]) {
      assert s[1..] != [] && !IsSpace(s[1]);
    }
  }

  lemma CompactIndent(m: Text, prev: Byte)
    requires Flush(m)
    ensures Compact(INDENT + m, prev) == Gap(prev, LF, m) + Compact(m, prev)
  {
    var s := INDENT + m;
    assert s[1..][2..] == m;
    FlushSuffix(s[1..], 2);
    CompactFlush(m, LF, prev);
  }

  // Whatever the second pass prints of a normal text is laid out, and the first
  // pass takes it back to no less than the text it was printed from.
  ghost predicate Stable(t: Text, n: int, broken: bool, bare: bool, prev: Byte) {
    var y := Lines(t, n, broken, bare);
    LaidOut(y, n, broken, bare, prev) && |Compact(y, prev)| >= |t|
  }

  lemma {:induction false} LinesAreStable(t: Text, n: int, broken: bool, bare: bool, prev: Byte)
    requires TightFrom(prev, t)
    ensures Stable(t, n, broken, bare, prev)
    decreases |t|
  {
    if t != [] {
      var c := t[0];
      if Before(c, n, broken, bare) {
        LinesAreStable(t[1..], 0, broken, false, c);
        StableClose(t, broken, bare, prev);
      } else if After(c, n) {
        SkipSpacesShortens(t[1..]);
        if IsSpace(c) {
          LinesAreStable(t[1..], 1, true, true, c);
          StableLineFeed(t, broken, bare, prev);
        } else {
          TightAfterBreak(c, t[1..]);
          LinesAreStable(SkipSpaces(t[1..]), 1, true, true, c);
          StableBreak(t, n, broken, bare, prev);
        }
      } else {
        LinesAreStable(t[1..], Depth(n, c), broken, false, c);
        StableOther(t, n, broken, bare, prev);
      }
    }
  }

  lemma StableClose(t: Text, broken: bool, bare: bool, prev: Byte)
    requires t != [] && Before(t[0], 1, broken, bare) && Stable(t[1..], 0, broken, false, CLOSE)
    ensures Stable(t, 1, broken, bare, prev)
  {
    var m := Lines(t[1..], 0, broken, false);
    var y := [LF] + ([CLOSE] + m);
    assert y[1..] == [CLOSE] + m && y[2..] == m && y[1..][1..] == m;
    assert SkipSpaces(y[1..]) == y[1..];
    assert Compact(y, prev) == [] + Compact(y[1..], LF) == [CLOSE] + Compact(m, CLOSE);
  }

  lemma StableLineFeed(t: Text, broken: bool, bare: bool, prev: Byte)
    requires t != [] && t[0] == LF && TightFrom(prev, t) && Stable(t[1..], 1, true, true, LF)
    ensures Stable(t, 1, broken, bare, prev)
  {
    assert t[1..] != [] && t[1..][0] == t[1];
    assert !IsSpace(t[1]) && !Paren(t[1]) && prev != OPEN;
    var m := Lines(t[1..], 1, true, true);
    LinesHead(t[1..], 1, true, true);
    var y := INDENT + m;
    assert y[3..] == m && y[1] == SPACE;
    CompactIndent(m, prev);
    CompactFlush(m, prev, LF);
  }

  lemma StableBreak(t: Text, n: int, broken: bool, bare: bool, prev: Byte)
    requires t != [] && !IsSpace(t[0]) && After(t[0], n) && TightFrom(prev, t)
    requires Stable(SkipSpaces(t[1..]), 1, true, true, t[0])
    ensures Stable(t, n, broken, bare, prev)
  {
    var c, v := t[0], SkipSpaces(t[1..]);
    TightAfterBreak(c, t[1..]);
    var m := Lines(v, 1, true, true);
    LinesHead(v, 1, true, true);
    var y := [c] + INDENT + m;
    CompactIndent(m, c);
    assert Gap(c, LF, m) == Gap(c, LF, v);
    BreakStep(t, n, broken, bare, prev, m);
    hide Lines, LaidOut, Compact, TightFrom, SkipSpaces;
  }

  lemma BreakStep(t: Text, n: int, broken: bool, bare: bool, prev: Byte, m: Text)
    requires t != [] && !IsSpace(t[0]) && After(t[0], n)
    requires m == Lines(SkipSpaces(t[1..]), 1, true, true) && Flush(m)
    ensures var y := [t[0]] + INDENT + m;
            && Lines(t, n, broken, bare) == y
            && Compact(y, prev) == [t[0]] + Compact(INDENT + m, t[0])
            && (LaidOut(m, 1, true, true, t[0]) ==> LaidOut(y, n, broken, bare, prev))
  {
    var y := [t[0]] + INDENT + m;
    assert y[1..] == INDENT + m && y[4..] == m;
  }

  lemma StableOther(t: Text, n: int, broken: bool, bare: bool, prev: Byte)
    requires t != [] && TightFrom(prev, t) && !Before(t[0], n, broken, bare) && !After(t[0], n)
    requires Stable(t[1..], Depth(n, t[0]), broken, false, t[0])
    ensures Stable(t, n, broken, bare, prev)
  {
    var c := t[0];
    var m := Lines(t[1..], Depth(n, c), broken, false);
    var y := [c] + m;
    assert y[1..] == m;
    if IsSpace(c) {
      assert t[1..] != [] && t[1..][0] == t[1] && !Paren(t[1]);
      LinesHead(t[1..], n, broken, false);
      assert SkipSpaces(m) == m;
      assert Compact(y, prev) == [c] + Compact(m, c);
    }
  }

  // Pretty-printing what was printed, without its semicolon, prints it again.
  lemma PrettyIdempotent(sql: Text)
    ensures Body(Body(sql)) == Body(sql)
    ensures Pretty.Pretty(Body(sql)) == Pretty.Pretty(sql)
  {
    var tight := FirstPass(sql);
    FirstPassNormalises(sql);
    PrettyUnchanged(sql);
    PrettyUnchanged(Body(sql));
    if !Verbatim(sql) && |tight| >= 79 {
      NormalIsTightFrom(tight, 1);
      LinesAreStable(tight, 0, false, true, OPEN);
      LinesIsLayout(tight, Scan(0, 0, 0), []);
      assert [] + Lines(tight, 0, false, true) == Lines(tight, 0, false, true) == Body(sql);
      CompactIsFirstPass(Body(sql));
    }
    Peel2End(Body(Body(sql)), Body(sql));
    hide FirstPass, Layout, LaidOut, LikePrefix, Normal, Lines, Compact;
  }
}
