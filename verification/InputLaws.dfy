// What the input loop's notions amount to, written out: which lines are blank,
// which are terminators, what the text of a batch is and when it is executed.

module InputLaws {
  import opened Bytes
  import opened InputText
  import opened ProcessInput

  // ------------------------------------------------------- blank text, written out

  ghost predicate Space(p: Text) {
    |p| == 1 && p[0] in [9, 10, 11, 12, 13, 32]
  }

  // Starts with a slash and a star and ends with the first star and slash after
  // them.
  ghost predicate BlockComment(p: Text) {
    && |p| >= 4 && p[0] == 47 && p[1] == 42 && p[|p| - 2] == 42 && p[|p| - 1] == 47
    && forall i :: 2 <= i < |p| - 2 ==> !(p[i] == 42 && p[i + 1] == 47)
  }

  // Starts with two dashes and ends with the first line feed after them.
  ghost predicate LineComment(p: Text) {
    |p| >= 3 && p[0] == 45 && p[1] == 45 && p[|p| - 1] == 10 && 10 !in p[..|p| - 1]
  }

  ghost predicate OpenLineComment(p: Text) {
    |p| >= 2 && p[0] == 45 && p[1] == 45 && 10 !in p
  }

  ghost predicate Filler(p: Text) {
    Space(p) || BlockComment(p) || LineComment(p)
  }

  function Concat(ps: seq<Text>): Text {
    if ps == [] then [] else ps[0] + Concat(ps[1..])
  }

  // Made of white space and comments, the last of which may be a line comment
  // without its line feed.
  ghost predicate MadeOf(s: Text, ps: seq<Text>, tail: Text) {
    && s == Concat(ps) + tail && (tail == [] || OpenLineComment(tail))
    && forall i :: 0 <= i < |ps| ==> Filler(ps[i])
  }

  lemma {:induction false} BlockEnds(s: Text) returns (k: nat)
    requires AfterBlock(s).Some?
    ensures k + 2 <= |s| && s[k] == 42 && s[k + 1] == 47 && AfterBlock(s).value == s[k + 2..]
    ensures forall i :: 0 <= i < k ==> !(s[i] == 42 && s[i + 1] == 47)
    decreases |s|
  {
    if s[0] == STAR && |s| > 1 && s[1] == SLASH {
      k := 0;
    } else {
      k := BlockEnds(s[1..]);
      k := k + 1;
      assert s[1..][k + 1..] == s[k + 2..];
      forall i | 0 <= i < k ensures !(s[i] == 42 && s[i + 1] == 47) {
        assert i > 0 ==> !(s[1..][i - 1] == 42 && s[1..][i] == 47);
      }
    }
  }

  lemma {:induction false} BlockEndsAt(s: Text, k: nat)
    requires k + 2 <= |s| && s[k] == 42 && s[k + 1] == 47
    requires forall i :: 0 <= i < k ==> !(s[i] == 42 && s[i + 1] == 47)
    ensures AfterBlock(s) == Some(s[k + 2..])
    decreases |s|
  {
    if k > 0 {
      assert !(s[0] == 42 && s[1] == 47);
      forall i | 0 <= i < k - 1 ensures !(s[1..][i] == 42 && s[1..][i + 1] == 47) {
        assert !(s[i + 1] == 42 && s[i + 2] == 47);
      }
      BlockEndsAt(s[1..], k - 1);
      assert s[1..][k + 1..] == s[k + 2..];
    }
  }

  lemma {:induction false} LineEnds(s: Text) returns (k: nat)
    ensures k <= |s| && 10 !in s[..k] && (k < |s| ==> s[k] == 10)
    ensures AfterLine(s) == if k < |s| then Some(s[k + 1..]) else None
    decreases |s|
  {
    if s == [] || s[0] == LF {
      k := 0;
    } else {
      k := LineEnds(s[1..]);
      k := k + 1;
      assert s[..k] == [s[0]] + s[1..][..k - 1];
      assert k < |s| ==> s[1..][k..] == s[k + 1..];
    }
  }

  lemma {:induction false} LineEndsAt(s: Text, k: nat)
    requires k <= |s| && 10 !in s[..k] && (k < |s| ==> s[k] == 10)
    ensures AfterLine(s) == if k < |s| then Some(s[k + 1..]) else None
    decreases |s|
  {
    if k > 0 {
      assert s[0] == s[..k][0] && s[1..][..k - 1] == s[..k][1..];
      LineEndsAt(s[1..], k - 1);
      assert k < |s| ==> s[1..][k..] == s[k + 1..];
    }
  }

  // The first piece of filler at the front of a blank text.
  lemma FirstFiller(s: Text) returns (k: nat)
    requires s != [] && AllWhitespace(s)
    ensures k <= |s|
    ensures k > 0 ==> Filler(s[..k]) && AllWhitespace(s[k..])
    ensures k == 0 ==> OpenLineComment(s)
  {
    if IsSpace(s[0]) {
      k := 1;
    } else if StartsBlock(s) {
      k := BlockEnds(s[2..]);
      assert s[2..][k + 2..] == s[k + 4..];
      forall i | 2 <= i < k + 2 ensures !(s[i] == 42 && s[i + 1] == 47) {
        assert !(s[2..][i - 2] == 42 && s[2..][i - 1] == 47);
      }
      k := k + 4;
      assert BlockComment(s[..k]);
    } else {
      k := LineEnds(s[2..]);
      assert s[2..][..k] == s[2..k + 2];
      if k == |s[2..]| {
        assert s == [s[0], s[1]] + s[2..];
        k := 0;
      } else {
        assert s[..k + 2] == [s[0], s[1]] + s[2..k + 2];
        assert s[2..][k + 1..] == s[k + 3..];
        k := k + 3;
        assert s[..k][..k - 1] == s[..k - 1];
        assert LineComment(s[..k]);
      }
    }
  }

  // Filler in front changes nothing.
  lemma FillerInFront(p: Text, s: Text)
    requires Filler(p)
    ensures AllWhitespace(p + s) == AllWhitespace(s)
  {
    var t := p + s;
    var n := |p|;
    assert t[n..] == s;
    if Space(p) {
      assert t[1..] == s;
    } else if BlockComment(p) {
      forall i | 0 <= i < n - 4 ensures !(t[2..][i] == 42 && t[2..][i + 1] == 47) {
        assert !(p[i + 2] == 42 && p[i + 3] == 47);
      }
      BlockEndsAt(t[2..], n - 4);
      assert t[2..][n - 2..] == s;
    } else {
      assert t[2..][..n - 3] == p[..n - 1][2..];
      LineEndsAt(t[2..], n - 3);
      assert t[2..][n - 2..] == s;
    }
  }

  lemma OpenLineIsBlank(s: Text)
    requires s == [] || OpenLineComment(s)
    ensures AllWhitespace(s)
  {
    if s != [] {
      assert s[2..][..|s| - 2] == s[2..];
      LineEndsAt(s[2..], |s| - 2);
    }
  }

  lemma {:induction false} BlankIsMade(s: Text) returns (ps: seq<Text>, tail: Text)
    requires AllWhitespace(s)
    ensures MadeOf(s, ps, tail)
    decreases |s|
  {
    ps, tail := [], s;
    if s != [] {
      var k := FirstFiller(s);
      hide AllWhitespace, Filler, OpenLineComment;
      if k > 0 {
        ps, tail := BlankIsMade(s[k..]);
        var p := s[..k];
        assert s == p + s[k..];
        Assoc(p, Concat(ps), tail);
        assert ([p] + ps)[1..] == ps;
        ps := [p] + ps;
      } else {
        assert [] + s == s;
      }
    } else {
      assert [] + s == s;
    }
  }

  lemma {:induction false} MadeIsBlank(s: Text, ps: seq<Text>, tail: Text)
    requires MadeOf(s, ps, tail)
    ensures AllWhitespace(s)
    decreases |ps|
  {
    if ps == [] {
      assert s == tail;
      OpenLineIsBlank(tail);
    } else {
      var rest := Concat(ps[1..]) + tail;
      assert MadeOf(rest, ps[1..], tail);
      MadeIsBlank(rest, ps[1..], tail);
      FillerInFront(ps[0], rest);
      Assoc(ps[0], Concat(ps[1..]), tail);
    }
  }

  // A text is blank exactly when it is made of white space and comments.
  lemma BlankExactly(s: Text)
    ensures AllWhitespace(s) <==> exists ps, tail :: MadeOf(s, ps, tail)
  {
    if AllWhitespace(s) {
      var ps, tail := BlankIsMade(s);
    }
    if ps, tail :| MadeOf(s, ps, tail) {
      MadeIsBlank(s, ps, tail);
    }
  }

  // ------------------------------------------------------------- terminators

  ghost predicate TerminatorParts(line: Text, before: Text, word: Text, after: Text) {
    && line == before + word + after && AllWhitespace(after)
    && (forall i :: 0 <= i < |before| ==> IsSpace(before[i]))
    && TerminatorWord(word)
  }

  // A slash, go, Go, gO or GO.
  predicate TerminatorWord(w: Text) {
    w == [47] || w == [103, 111] || w == [71, 111] || w == [103, 79] || w == [71, 79]
  }

  // A terminator is a slash, or go in any case, with white space before it and
  // white space and comments after it.
  lemma TerminatorExactly(line: Text)
    ensures IsTerminator(line) <==> exists before, word, after :: TerminatorParts(line, before, word, after)
  {
    if IsTerminator(line) {
      var k, n := TerminatorSplit(line);
    }
    if before, word, after :| TerminatorParts(line, before, word, after) {
      PartsTerminate(line, before, word, after);
    }
    hide TerminatorParts, IsTerminator;
  }

  lemma TerminatorSplit(line: Text) returns (k: nat, n: nat)
    requires IsTerminator(line)
    ensures k + n <= |line| && TerminatorParts(line, line[..k], line[k..k + n], line[k + n..])
  {
    hide AllWhitespace, SkipSpaces;
    var s := SkipSpaces(line);
    SkipSpacesShortens(line);
    k := |line| - |s|;
    n := if s[0] == SLASH && AllWhitespace(s[1..]) then 1 else 2;
    assert s[n..] == line[k + n..] && s[..n] == line[k..k + n];
    TerminatorPrefix(s, n);
    assert forall i :: 0 <= i < k ==> line[..k][i] == line[i];
    Split3(line, k, n);
  }

  lemma TerminatorPrefix(s: Text, n: nat)
    requires 1 <= n <= 2 && n <= |s|
    requires if n == 1 then s[0] == SLASH else Lower(s[0]) == 103 && Lower(s[1]) == 111
    ensures TerminatorWord(s[..n])
  {
    assert s[..n] == if n == 1 then [s[0]] else [s[0], s[1]];
  }

  lemma Split3(s: Text, k: nat, n: nat)
    requires k + n <= |s|
    ensures s == s[..k] + s[k..k + n] + s[k + n..]
  {
  }

  lemma PartsTerminate(line: Text, before: Text, word: Text, after: Text)
    requires TerminatorParts(line, before, word, after)
    ensures IsTerminator(line)
  {
    hide AllWhitespace, SkipSpaces;
    var s := word + after;
    SkipLeadingSpaces(before, s);
    assert line == before + s;
    assert s[|word|..] == after;
  }

  // --------------------------------------------------------- the text of a batch

  // The lines, each behind a line feed.
  function Behind(lines: seq<Text>): Text {
    if lines == [] then [] else [10] + lines[0] + Behind(lines[1..])
  }

  lemma {:induction false} BehindAppend(lines: seq<Text>, line: Text)
    ensures Behind(lines + [line]) == Behind(lines) + [10] + line
    decreases |lines|
  {
    if lines == [] {
      assert lines + [line] == [line] && [line][1..] == [];
    } else {
      assert (lines + [line])[1..] == lines[1..] + [line];
      BehindAppend(lines[1..], line);
      Regroup([10] + lines[0], Behind(lines[1..]), [10], line);
    }
  }

  lemma Regroup(a: Text, b: Text, c: Text, d: Text)
    ensures a + (b + c + d) == a + b + c + d
  {
  }

  // Without terminators the text is the lines as read, with line feeds between
  // them, from the first character on that is not white space.
  lemma {:induction false} BatchIsLines(env: Env, lines: seq<Text>, noBuffer: bool)
    requires lines != [] && forall i :: 0 <= i < |lines| ==> !IsTerminator(lines[i])
    ensures Batch(env, lines, noBuffer) == SkipSpaces(lines[0]) + Behind(lines[1..])
    decreases |lines|
  {
    hide IsTerminator, SkipSpaces;
    var n := |lines| - 1;
    if n == 0 {
      assert SkipSpaces(lines[0]) + [] == SkipSpaces(lines[0]);
    } else {
      BatchIsLines(env, lines[..n], noBuffer);
      assert lines[1..] == lines[..n][1..] + [lines[n]];
      BehindAppend(lines[..n][1..], lines[n]);
      Regroup(SkipSpaces(lines[0]), Behind(lines[..n][1..]), [10], lines[n]);
    }
  }

  // A terminator puts a semicolon in its place where the text before it would be
  // complete with one, and is text like any other line elsewhere.
  lemma TerminatorAdds(env: Env, lines: seq<Text>, line: Text, noBuffer: bool)
    requires lines != [] && IsTerminator(line)
    ensures var text := Batch(env, lines, noBuffer);
            Batch(env, lines + [line], noBuffer) ==
            text + [10] + (if env.complete(text + [59]) then [59] else line)
  {
    BatchExtend(env, lines, line, noBuffer);
  }

  // ------------------------------------------------------ when a batch is executed

  // The last line holds a semicolon, or is a terminator that stands for one.
  ghost predicate BringsSemicolon(env: Env, lines: seq<Text>, noBuffer: bool)
    requires lines != []
  {
    var n := |lines| - 1;
    var replaced := IsTerminator(lines[n]) &&
      (if n == 0 then noBuffer || env.complete([59])
       else env.complete(Batch(env, lines[..n], noBuffer) + [59]));
    replaced || 59 in lines[n]
  }

  ghost predicate Runs(env: Env, lines: seq<Text>, noBuffer: bool)
    requires lines != []
  {
    BringsSemicolon(env, lines, noBuffer) && env.complete(Batch(env, lines, noBuffer))
  }

  lemma {:induction false} SkipKeeps(s: Text, c: Byte)
    requires !IsSpace(c)
    ensures c in SkipSpaces(s) <==> c in s
    decreases |s|
  {
    if s != [] && IsSpace(s[0]) {
      SkipKeeps(s[1..], c);
      assert c in s <==> c in s[1..];
    }
  }

  lemma RunsIsExecutes(env: Env, lines: seq<Text>, noBuffer: bool)
    requires lines != []
    ensures Executes(env, lines, noBuffer) <==> Runs(env, lines, noBuffer)
  {
    hide IsTerminator, Batch, SkipSpaces;
    var n := |lines| - 1;
    var line, before := lines[n], lines[..n];
    assert lines == before + [line];
    BatchExtend(env, before, line, noBuffer);
    if n == 0 {
      assert before == [] && [] + [SEMI] == [59];
      SkipKeeps(Replaced(env, line, [], noBuffer), SEMI);
      DropNone(Batch(env, lines, noBuffer));
    } else {
      var text := Batch(env, before, noBuffer);
      AddedPart(text, Replaced(env, line, text, false));
    }
  }

  lemma AddedPart(text: Text, l: Text)
    ensures SEMI in (text + [LF] + l)[|text|..] <==> SEMI in l
  {
    assert (text + [LF] + l)[|text|..] == [LF] + l;
  }

  // A batch of lines is settled by its last line and no earlier one.
  ghost predicate SettledByLast(env: Env, e: Event, noBuffer: bool)
    requires IsBatch(e)
  {
    var lines := LinesOf(e);
    && lines != []
    && (forall k :: 0 < k < |lines| ==> !Runs(env, lines[..k], noBuffer))
    && (forall k :: 0 < k < |lines| ==> !AllWhitespace(Batch(env, lines[..k], noBuffer)))
    && (Runs(env, lines, noBuffer) <==> e.Exec?)
    && (e.Exec? ==> e.text == Batch(env, lines, noBuffer) && env.complete(e.text))
    && (e.Dropped? ==> AllWhitespace(Batch(env, lines, noBuffer)))
  }

  ghost predicate Unsettled(env: Env, pending: seq<Text>, noBuffer: bool) {
    forall k :: 0 < k <= |pending| ==>
      !Runs(env, pending[..k], noBuffer) && !AllWhitespace(Batch(env, pending[..k], noBuffer))
  }

  lemma NotYet(env: Env, lines: seq<Text>, noBuffer: bool, k: nat)
    requires OneBatch(env, lines, noBuffer) && 0 < k < |lines|
    ensures !Runs(env, lines[..k], noBuffer) && !AllWhitespace(Batch(env, lines[..k], noBuffer))
  {
    assert !Ends(env, lines[..k], noBuffer);
    RunsIsExecutes(env, lines[..k], noBuffer);
    hide Runs, Executes, Batch, AllWhitespace;
  }

  lemma BatchSettled(env: Env, before: seq<Event>, e: Event)
    requires EventOk(env, before, e) && IsBatch(e)
    ensures SettledByLast(env, e, NoBuffer(before))
  {
    var lines, nb := LinesOf(e), NoBuffer(before);
    forall k | 0 < k < |lines|
      ensures !Runs(env, lines[..k], nb) && !AllWhitespace(Batch(env, lines[..k], nb))
    {
      NotYet(env, lines, nb, k);
    }
    RunsIsExecutes(env, lines, nb);
    hide Batch, AllWhitespace, NoBuffer, BringsSemicolon;
  }

  lemma {:induction false} LogAt(env: Env, log: seq<Event>, i: nat)
    requires LogOk(env, log) && i < |log|
    ensures EventOk(env, log[..i], log[i])
    decreases |log|
  {
    hide EventOk;
    var n := |log| - 1;
    if i < n {
      LogAt(env, log[..n], i);
      assert log[..n][..i] == log[..i];
    }
  }

  // On every account of the lines read: a batch is executed at its first line
  // that brings a semicolon and makes the text complete, dropped at its first
  // line that leaves it blank, and what is left over has done neither.
  lemma ExecutedWhenComplete(env: Env, lines: seq<Text>, log: seq<Event>, pending: seq<Text>)
    requires Accounts(env, lines, log, pending)
    ensures forall i :: 0 <= i < |log| && IsBatch(log[i]) ==> SettledByLast(env, log[i], NoBuffer(log[..i]))
    ensures Unsettled(env, pending, NoBuffer(log))
  {
    hide EventOk, SettledByLast, AllLines, NoBuffer;
    forall i | 0 <= i < |log| && IsBatch(log[i]) ensures SettledByLast(env, log[i], NoBuffer(log[..i])) {
      LogAt(env, log, i);
      BatchSettled(env, log[..i], log[i]);
    }
    forall k | 0 < k <= |pending|
      ensures !Runs(env, pending[..k], NoBuffer(log)) && !AllWhitespace(Batch(env, pending[..k], NoBuffer(log)))
    {
      if k < |pending| {
        NotYet(env, pending, NoBuffer(log), k);
      } else {
        assert pending[..k] == pending;
        RunsIsExecutes(env, pending, NoBuffer(log));
      }
    }
    hide Runs, Batch, AllWhitespace;
  }

  // ----------------------------------------------------------- the other events

  // What tells the events apart: the first line of each.
  lemma EventByFirstLine(env: Env, lines: seq<Text>, log: seq<Event>, pending: seq<Text>, i: nat)
    requires Accounts(env, lines, log, pending) && i < |log|
    ensures LinesOf(log[i]) != []
    ensures var line := LinesOf(log[i])[0];
            && (log[i].Blank? <==> AllWhitespace(line))
            && (log[i].Meta? <==> !AllWhitespace(line) && line != [] && line[0] == 46)
            && (log[i].Exec? || log[i].Dropped? <==> !AllWhitespace(line) && (line == [] || line[0] != 46))
  {
    LogAt(env, log, i);
    FirstLineDecides(env, log[..i], log[i]);
    hide EventOk, AllWhitespace;
  }

  // Errors are counted exactly for dot-commands that return something other than
  // 0 and 2, and for batches that fail.
  lemma {:induction false} ErrorsExactly(log: seq<Event>)
    ensures Errors(log) > 0 <==>
            exists i :: 0 <= i < |log| &&
              ((log[i].Meta? && log[i].rc != 0 && log[i].rc != 2) || (log[i].Exec? && log[i].failed))
    decreases |log|
  {
    if log != [] {
      var n := |log| - 1;
      ErrorsExactly(log[..n]);
      forall i | 0 <= i < n ensures log[i] == log[..n][i] {}
    }
  }
}
