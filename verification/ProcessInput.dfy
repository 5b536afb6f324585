// process_input: lines are accumulated into SQL batches; every line read is a
// skipped blank, a dot-command, part of one executed batch, part of one dropped
// batch, or left over.

module ProcessInput {
  import opened Bytes
  import opened InputText

  // What the shell cannot decide itself: sqlite3_complete, the result of a
  // dot-command and of executing a batch (by line number), and whether errors
  // stop the run.
  datatype Env = Env(
    complete: Text -> bool, meta: (nat, Text) -> int, exec: (nat, Text) -> bool,
    bail: nat -> bool, interactive: bool)

  // ------------------------------------------------------- the text of a batch

  // A terminator line becomes a semicolon where the text so far is complete;
  // with no buffer yet, it always does.
  function Replaced(env: Env, line: Text, text: Text, noBuffer: bool): Text {
    if IsTerminator(line) && (noBuffer || env.complete(text + [SEMI])) then [SEMI] else line
  }

  // The left-trimmed first line, joined by LF with the others.
  function Batch(env: Env, lines: seq<Text>, noBuffer: bool): Text
    requires lines != []
  {
    var n := |lines| - 1;
    if n == 0 then SkipSpaces(Replaced(env, lines[0], [], noBuffer))
    else
      var text := Batch(env, lines[..n], noBuffer);
      text + [LF] + Replaced(env, lines[n], text, false)
  }

  // How much of the text was there before the last line.
  function Prior(env: Env, lines: seq<Text>, noBuffer: bool): (p: nat)
    requires lines != []
    ensures p <= |Batch(env, lines, noBuffer)|
  {
    if |lines| == 1 then 0 else |Batch(env, lines[..|lines| - 1], noBuffer)|
  }

  // The last line brought a semicolon and the text is complete SQL.
  predicate Executes(env: Env, lines: seq<Text>, noBuffer: bool)
    requires lines != []
  {
    var text := Batch(env, lines, noBuffer);
    SEMI in text[Prior(env, lines, noBuffer)..] && env.complete(text)
  }

  predicate Ends(env: Env, lines: seq<Text>, noBuffer: bool)
    requires lines != []
  {
    Executes(env, lines, noBuffer) || AllWhitespace(Batch(env, lines, noBuffer))
  }

  predicate IsDotCommand(line: Text) {
    line != [] && line[0] == DOT
  }

  predicate StartsBatch(line: Text) {
    !AllWhitespace(line) && !IsDotCommand(line)
  }

  // Lines that belong to one batch: the first could start one and no earlier
  // line ended it.
  ghost predicate OneBatch(env: Env, lines: seq<Text>, noBuffer: bool) {
    && lines != [] && StartsBatch(lines[0])
    && forall k :: 0 < k < |lines| ==> !Ends(env, lines[..k], noBuffer)
  }

  lemma BatchExtend(env: Env, lines: seq<Text>, line: Text, noBuffer: bool)
    ensures Batch(env, lines + [line], noBuffer) ==
            if lines == [] then SkipSpaces(Replaced(env, line, [], noBuffer))
            else Batch(env, lines, noBuffer) + [LF] + Replaced(env, line, Batch(env, lines, noBuffer), false)
    ensures Prior(env, lines + [line], noBuffer) == if lines == [] then 0 else |Batch(env, lines, noBuffer)|
  {
    hide Replaced, SkipSpaces;
    assert (lines + [line])[..|lines|] == lines;
  }

  lemma ReplacedNotBlank(env: Env, line: Text, text: Text, noBuffer: bool)
    ensures StartsBatch(line) ==> SkipSpaces(Replaced(env, line, text, noBuffer)) != []
  {
    hide AllWhitespace, IsTerminator;
    TrimKeepsWhitespace(line);
  }

  lemma OneBatchExtend(env: Env, lines: seq<Text>, line: Text, noBuffer: bool)
    requires if lines == [] then StartsBatch(line) else OneBatch(env, lines, noBuffer) && !Ends(env, lines, noBuffer)
    ensures OneBatch(env, lines + [line], noBuffer)
  {
    hide Ends, StartsBatch;
    var more := lines + [line];
    forall k | 0 < k < |more| ensures !Ends(env, more[..k], noBuffer) {
      if k < |lines| {
        assert more[..k] == lines[..k];
      } else {
        assert more[..k] == lines;
      }
    }
  }

  // ------------------------------------------------------------------- events

  datatype Event =
    | Blank(line: Text)
    | Meta(line: Text, rc: int)
    | Exec(lines: seq<Text>, text: Text, startline: nat, failed: bool)
    | Dropped(lines: seq<Text>)

  function LinesOf(e: Event): (r: seq<Text>) {
    match e
    case Blank(line) => [line]
    case Meta(line, _) => [line]
    case Exec(lines, _, _, _) => lines
    case Dropped(lines) => lines
  }

  function AllLines(log: seq<Event>): seq<Text> {
    if log == [] then [] else AllLines(log[..|log| - 1]) + LinesOf(log[|log| - 1])
  }

  predicate NoBuffer(log: seq<Event>) {
    forall i :: 0 <= i < |log| ==> log[i].Blank? || log[i].Meta?
  }

  // What an event says about its lines, given the events before it.
  ghost predicate EventOk(env: Env, before: seq<Event>, e: Event) {
    var n := |AllLines(before)|;
    match e
    case Blank(line) => AllWhitespace(line)
    case Meta(line, rc) => !AllWhitespace(line) && IsDotCommand(line) && rc == env.meta(n + 1, line)
    case Exec(lines, text, startline, failed) =>
      && OneBatch(env, lines, NoBuffer(before)) && Executes(env, lines, NoBuffer(before))
      && text == Batch(env, lines, NoBuffer(before))
      && startline == n + 1 && failed == env.exec(n + |lines|, text)
    case Dropped(lines) =>
      && OneBatch(env, lines, NoBuffer(before)) && !Executes(env, lines, NoBuffer(before))
      && AllWhitespace(Batch(env, lines, NoBuffer(before)))
  }

  ghost predicate LogOk(env: Env, log: seq<Event>) {
    var n := |log| - 1;
    log != [] ==> LogOk(env, log[..n]) && EventOk(env, log[..n], log[n])
  }

  // What process_input leaves in the buffer.
  ghost predicate LeftoverOk(env: Env, log: seq<Event>, pending: seq<Text>) {
    pending != [] ==> OneBatch(env, pending, NoBuffer(log)) && !Ends(env, pending, NoBuffer(log))
  }

  // These events, and the lines left over, account for all the lines read.
  ghost predicate Accounts(env: Env, lines: seq<Text>, log: seq<Event>, pending: seq<Text>) {
    LogOk(env, log) && LeftoverOk(env, log, pending) && AllLines(log) + pending == lines
  }

  predicate IsBatch(e: Event) {
    e.Exec? || e.Dropped?
  }

  // The dot-command asked to exit.
  predicate IsExit(e: Event) {
    e.Meta? && e.rc == 2
  }

  ghost predicate NoExit(log: seq<Event>) {
    forall i :: 0 <= i < |log| ==> !IsExit(log[i])
  }

  // The last event, and no other, asked to exit.
  ghost predicate ExitsLast(log: seq<Event>) {
    log != [] && IsExit(log[|log| - 1]) && NoExit(log[..|log| - 1])
  }

  predicate IsError(e: Event) {
    (e.Meta? && e.rc != 0 && !IsExit(e)) || (e.Exec? && e.failed)
  }

  function Errors(log: seq<Event>): nat {
    if log == [] then 0 else Errors(log[..|log| - 1]) + if IsError(log[|log| - 1]) then 1 else 0
  }

  lemma LogExtend(env: Env, log: seq<Event>, e: Event)
    requires LogOk(env, log) && EventOk(env, log, e)
    ensures LogOk(env, log + [e])
    ensures AllLines(log + [e]) == AllLines(log) + LinesOf(e)
    ensures Errors(log + [e]) == Errors(log) + if IsError(e) then 1 else 0
    ensures NoBuffer(log + [e]) <==> NoBuffer(log) && (e.Blank? || e.Meta?)
  {
    hide EventOk;
    var log' := log + [e];
    assert log'[..|log|] == log;
    if NoBuffer(log') {
      forall i | 0 <= i < |log| ensures log[i].Blank? || log[i].Meta? { assert log'[i] == log[i]; }
      assert log'[|log|] == e;
    }
  }

  // -------------------------------------------------------------- the machine

  class Shell {
    const env: Env
    var zSql: Text      // the allocated bytes; no bytes stands for a null pointer
    var nSql: nat
    var nAlloc: nat
    var lineno: nat
    var startline: nat
    var errCnt: nat
    ghost var log: seq<Event>      // what became of the lines before those
    ghost var pending: seq<Text>   // the lines in the buffer

    // The buffer leaves room for a semicolon and a terminator after the text.
    ghost predicate BufferOk()
      reads this
    {
      && |zSql| == nAlloc && (nAlloc == 0 ==> nSql == 0) && (nAlloc > 0 ==> nSql + 1 < nAlloc)
      && NulFree(zSql[..nSql]) && (nSql > 0 ==> zSql[nSql] == 0)
    }

    // The buffer holds the text of the pending lines, none of which ended it.
    ghost predicate PendingOk()
      reads this
      requires BufferOk()
    {
      && (nSql == 0 <==> pending == [])
      && (nAlloc == 0 <==> NoBuffer(log) && pending == [])
      && (pending != [] ==>
            && zSql[..nSql] == Batch(env, pending, NoBuffer(log))
            && OneBatch(env, pending, NoBuffer(log)) && !Ends(env, pending, NoBuffer(log))
            && startline == |AllLines(log)| + 1)
    }

    ghost predicate Valid()
      reads this
    {
      && BufferOk() && PendingOk() && LogOk(env, log)
      && errCnt == Errors(log) && lineno == |AllLines(log)| + |pending|
    }

    // The lines read so far, each once, by what became of them.
    ghost function Seen(): seq<Text>
      reads this`log, this`pending
    {
      AllLines(log) + pending
    }

    constructor (env: Env)
      ensures Valid() && log == [] && pending == [] && this.env == env && fresh(this)
    {
      this.env := env;
      zSql, nSql, nAlloc, lineno, startline, errCnt := [], 0, 0, 0, 0, 0;
      log, pending := [], [];
    }

    // line_is_complete: both stores are inside the allocation, and the text is
    // left as it was.
    method LineIsComplete() returns (r: bool)
      requires BufferOk()
      modifies this`zSql
      ensures BufferOk() && zSql[..nSql] == old(zSql[..nSql])
      ensures r <==> nAlloc == 0 || env.complete(zSql[..nSql] + [SEMI])
    {
      if nAlloc == 0 { return true; }
      ghost var text := zSql[..nSql];
      zSql := zSql[nSql := SEMI];
      zSql := zSql[nSql + 1 := 0];
      assert zSql[..nSql + 1] == text + [SEMI];
      r := env.complete(zSql[..nSql + 1]);
      zSql := zSql[nSql := 0];
      assert zSql[..nSql] == text;
    }

    // Growing the buffer for nLine more bytes, a line feed and a terminator.
    method EnsureRoom(nLine: nat)
      requires BufferOk()
      modifies this`zSql, this`nAlloc
      ensures BufferOk() && nSql + nLine + 2 < nAlloc && zSql[..nSql] == old(zSql[..nSql])
    {
      if nSql + nLine + 2 >= nAlloc {
        var grown := new Byte[nSql + nLine + 100 - nAlloc];
        ghost var text := zSql[..nSql];
        nAlloc := nSql + nLine + 100;
        zSql := zSql + grown[..];
        assert zSql[..nSql] == text;
      }
    }

    // Copying a line behind the text, or left-trimmed to the front of an empty
    // buffer.
    method AppendText(line: Text)
      requires BufferOk() && NulFree(line) && (nSql == 0 ==> SkipSpaces(line) != [])
      modifies this`zSql, this`nSql, this`nAlloc
      ensures BufferOk() && nAlloc > 0 && nSql > 0
      ensures zSql[..nSql] == if old(nSql) == 0 then SkipSpaces(line) else old(zSql[..nSql]) + [LF] + line
    {
      var nLine := |line|;
      EnsureRoom(nLine);
      if nSql == 0 {
        var i := 0;
        DropNone(line);
        while i < nLine && IsSpace(line[i])
          invariant 0 <= i <= nLine && SkipSpaces(line) == SkipSpaces(line[i..])
        {
          assert line[i..][1..] == line[i + 1..];
          i := i + 1;
        }
        zSql := line[i..] + [0] + zSql[nLine + 1 - i..];
        nSql := nLine - i;
        assert zSql[..nSql] == line[i..] == SkipSpaces(line);
      } else {
        ghost var text := zSql[..nSql] + [LF] + line;
        zSql := zSql[..nSql] + [LF] + zSql[nSql + 1..];
        nSql := nSql + 1;
        zSql := zSql[..nSql] + (line + [0]) + zSql[nSql + nLine + 1..];
        nSql := nSql + nLine;
        assert zSql[..nSql] == text;
      }
    }

    // The line as it goes into the buffer.
    method ReplaceTerminator(line: Text) returns (l: Text)
      requires BufferOk() && NulFree(line)
      modifies this`zSql
      ensures BufferOk() && zSql[..nSql] == old(zSql[..nSql]) && NulFree(l)
      ensures l == Replaced(env, line, zSql[..nSql], nAlloc == 0)
    {
      l := line;
      var terminates := LineIsTerminator(line);
      hide IsTerminator;
      if terminates {
        var complete := LineIsComplete();
        if complete { l := [SEMI]; }
      }
    }

    // One more line in the buffer: the terminator check, the copy and the first
    // line's bookkeeping.
    method Accumulate(line: Text) returns (nSqlPrior: nat)
      requires BufferOk() && PendingOk() && NulFree(line) && (pending == [] ==> StartsBatch(line))
      modifies this`zSql, this`nSql, this`nAlloc, this`startline, this`pending
      ensures pending == old(pending) + [line] && BufferOk() && nSql > 0
      ensures zSql[..nSql] == Batch(env, pending, NoBuffer(log))
      ensures nSqlPrior == Prior(env, pending, NoBuffer(log)) && nSqlPrior <= nSql
      ensures startline == if old(pending) == [] then lineno else old(startline)
    {
      hide Batch, Prior, Ends, Executes, OneBatch, Replaced, SkipSpaces;
      BatchExtend(env, pending, line, NoBuffer(log));
      var l := ReplaceTerminator(line);
      ReplacedNotBlank(env, line, zSql[..nSql], nAlloc == 0);
      nSqlPrior := nSql;
      AppendText(l);
      if nSqlPrior == 0 { startline := lineno; }
      pending := pending + [line];
    }

    // The pending lines become an event.
    ghost method Conclude(e: Event)
      requires LogOk(env, log) && EventOk(env, log, e) && IsBatch(e) && LinesOf(e) == pending
      modifies this`log, this`pending
      ensures pending == [] && LogOk(env, log) && !NoBuffer(log)
      ensures AllLines(log) == old(AllLines(log)) + old(pending)
      ensures Errors(log) == old(Errors(log)) + if IsError(e) then 1 else 0
      ensures NoExit(old(log)) ==> NoExit(log)
    {
      hide EventOk, AllLines, Errors;
      LogExtend(env, log, e);
      log := log + [e];
      pending := [];
    }

    // After a line: run the batch if it is complete, drop it if it is only white
    // space, keep it otherwise.
    method Settle(nSqlPrior: nat)
      requires BufferOk() && nSql > 0 && pending != [] && LogOk(env, log) && errCnt == Errors(log)
      requires zSql[..nSql] == Batch(env, pending, NoBuffer(log)) && OneBatch(env, pending, NoBuffer(log))
      requires nSqlPrior == Prior(env, pending, NoBuffer(log)) && nSqlPrior <= nSql
      requires startline == |AllLines(log)| + 1 && lineno == |AllLines(log)| + |pending|
      modifies this`nSql, this`errCnt, this`log, this`pending
      ensures Valid() && Seen() == old(Seen())
      ensures NoExit(old(log)) ==> NoExit(log)
    {
      hide Batch, Prior, OneBatch, AllWhitespace, Errors, AllLines, LogOk, NoBuffer, NoExit;
      var text := zSql[..nSql];
      var added := zSql[nSqlPrior..nSql];
      assert added == text[nSqlPrior..];
      var blank := IsAllWhitespace(text);
      if SEMI in added && env.complete(text) {
        var failed := env.exec(lineno, text);
        if failed { errCnt := errCnt + 1; }
        Conclude(Exec(pending, text, startline, failed));
        nSql := 0;
      } else if blank {
        Conclude(Dropped(pending));
        nSql := 0;
      }
    }

    // A line that is an event of its own.
    ghost method Record(e: Event)
      requires BufferOk() && PendingOk() && pending == [] && LogOk(env, log) && EventOk(env, log, e)
      requires e.Blank? || e.Meta?
      modifies this`log
      ensures log == old(log) + [e] && LogOk(env, log) && PendingOk()
      ensures AllLines(log) == old(AllLines(log)) + LinesOf(e)
      ensures Errors(log) == old(Errors(log)) + if IsError(e) then 1 else 0
      ensures NoExit(old(log)) ==> if IsExit(e) then ExitsLast(log) else NoExit(log)
    {
      hide Batch, OneBatch, EventOk, AllLines, Errors;
      LogExtend(env, log, e);
      assert (log + [e])[..|log|] == log;
      log := log + [e];
    }

    // One turn of the input loop.
    method TakeLine(line: Text) returns (exit: bool)
      requires Valid() && NulFree(line)
      modifies this
      ensures Valid() && Seen() == old(Seen()) + [line] && lineno == old(lineno) + 1
      ensures NoExit(old(log)) ==> if exit then ExitsLast(log) else NoExit(log)
    {
      hide Batch, Prior, OneBatch, Executes, Ends, AllWhitespace, AllLines, Errors, LogOk;
      lineno := lineno + 1;
      exit := false;
      var blank := IsAllWhitespace(line);
      if nSql == 0 && blank {
        Record(Blank(line));
      } else if nSql == 0 && IsDotCommand(line) {
        var rc := env.meta(lineno, line);
        Record(Meta(line, rc));
        if rc == 2 {
          exit := true;
        } else if rc != 0 {
          errCnt := errCnt + 1;
        }
      } else {
        OneBatchExtend(env, pending, line, NoBuffer(log));
        Assoc(AllLines(log), pending, [line]);
        var nSqlPrior := Accumulate(line);
        Settle(nSqlPrior);
      }
    }

    // The end of process_input: text left in the buffer is never blank, so it is
    // always an error.
    method Leftover() returns (failed: bool)
      requires Valid()
      modifies this`errCnt
      ensures failed <==> Errors(log) > 0 || pending != []
    {
      hide Batch, OneBatch, Errors, LogOk, Executes, AllWhitespace;
      if nSql > 0 {
        var blank := IsAllWhitespace(zSql[..nSql]);
        if !blank { errCnt := errCnt + 1; }
      }
      failed := errCnt > 0;
    }

    // The loop: it stops early only on an exit command, or on an error with bail
    // set.
    method ReadLines(lines: seq<Text>)
      requires Valid() && log == [] && pending == []
      requires forall i :: 0 <= i < |lines| ==> NulFree(lines[i])
      modifies this
      ensures Valid() && lineno <= |lines| && Seen() == lines[..lineno]
      ensures NoExit(log) || ExitsLast(log)
      ensures lineno < |lines| ==> ExitsLast(log) || (Errors(log) > 0 && env.bail(lineno) && !env.interactive)
    {
      Started(lines);
      hide PendingOk, AllLines, Errors, LogOk, Seen, NulFree, NoExit, ExitsLast;
      while errCnt == 0 || !env.bail(lineno) || env.interactive
        invariant Valid() && lineno <= |lines| && Seen() == lines[..lineno] && NoExit(log)
        decreases |lines| - lineno
      {
        if lineno == |lines| { break; }
        TakeMore(lines, lineno);
        var exit := TakeLine(lines[lineno]);
        if exit { break; }
      }
    }

    lemma Started(lines: seq<Text>)
      requires Valid() && log == [] && pending == []
      ensures lineno == 0 && Seen() == lines[..lineno] && NoExit(log)
    {
    }

    // process_input on the lines that can be read: every line read is accounted
    // for exactly once, in order; the batches are those the lines determine; text
    // left over is an error.
    method ProcessInput(lines: seq<Text>) returns (failed: bool)
      requires Valid() && log == [] && pending == []
      requires forall i :: 0 <= i < |lines| ==> NulFree(lines[i])
      modifies this
      ensures lineno <= |lines| && Accounts(env, lines[..lineno], log, pending)
      ensures NoExit(log) || ExitsLast(log)
      ensures lineno < |lines| ==> ExitsLast(log) || (Errors(log) > 0 && env.bail(lineno) && !env.interactive)
      ensures failed <==> Errors(log) > 0 || pending != []
    {
      hide AllLines, Errors, LogOk, NulFree, NoExit, ExitsLast, OneBatch, Ends, Batch;
      ReadLines(lines);
      failed := Leftover();
    }
  }

  lemma TakeMore<T>(s: seq<T>, n: nat)
    requires n < |s|
    ensures s[..n] + [s[n]] == s[..n + 1]
  {
  }

  // ------------------------------------------------------ one log per input

  lemma SamePrefix<T>(a: seq<T>, x: seq<T>, b: seq<T>, y: seq<T>)
    requires a + x == b + y && |a| <= |b|
    ensures a == b[..|a|] && (|a| == |b| ==> x == y)
  {
    assert (a + x)[..|a|] == a && (b + y)[..|a|] == b[..|a|];
    if |a| == |b| { assert (a + x)[|a|..] == x && (b + y)[|a|..] == y; }
  }

  ghost predicate Closed(env: Env, lines: seq<Text>, noBuffer: bool) {
    OneBatch(env, lines, noBuffer) && Ends(env, lines, noBuffer)
  }

  // A closed batch cannot be a proper start of another batch.
  lemma BatchesAgree(env: Env, noBuffer: bool, a: seq<Text>, x: seq<Text>, b: seq<Text>, y: seq<Text>)
    requires a + x == b + y && Closed(env, a, noBuffer) && OneBatch(env, b, noBuffer)
    requires |a| <= |b|
    ensures a == b && x == y
  {
    hide Ends;
    SamePrefix(a, x, b, y);
    if |a| == |b| { assert b[..|a|] == b; }
  }

  lemma SameFirst<T>(a: seq<T>, x: seq<T>, b: seq<T>, y: seq<T>)
    requires a + x == b + y && a != [] && b != []
    ensures a[0] == b[0]
  {
    assert (a + x)[0] == a[0] && (b + y)[0] == b[0];
  }

  lemma BatchClosed(env: Env, before: seq<Event>, e: Event)
    requires EventOk(env, before, e) && IsBatch(e)
    ensures Closed(env, LinesOf(e), NoBuffer(before))
  {
  }

  lemma FirstLineDecides(env: Env, before: seq<Event>, e: Event)
    requires EventOk(env, before, e)
    ensures LinesOf(e) != []
    ensures var l := LinesOf(e)[0];
            && (e.Blank? <==> AllWhitespace(l))
            && (e.Meta? <==> !AllWhitespace(l) && IsDotCommand(l))
  {
    hide AllWhitespace, Ends, Executes, Batch;
  }

  lemma {:induction false} SameLinesSameEvent(env: Env, before: seq<Event>, e: Event, e': Event)
    requires EventOk(env, before, e) && EventOk(env, before, e') && LinesOf(e) == LinesOf(e')
    requires e.Blank? == e'.Blank? && e.Meta? == e'.Meta?
    ensures e == e'
  {
    hide AllWhitespace, Batch, OneBatch, Executes, IsDotCommand, AllLines, NoBuffer;
    assert e.Blank? || e.Meta? ==> LinesOf(e)[0] == LinesOf(e')[0];
  }

  // The lines from a point on determine the event there.
  lemma {:induction false} EventsAgree(env: Env, before: seq<Event>, e: Event, x: seq<Text>, e': Event, x': seq<Text>)
    requires EventOk(env, before, e) && EventOk(env, before, e')
    requires LinesOf(e) + x == LinesOf(e') + x'
    ensures e == e' && x == x'
  {
    hide EventOk, Closed, AllWhitespace, IsDotCommand, NoBuffer;
    FirstLineDecides(env, before, e);
    FirstLineDecides(env, before, e');
    SameFirst(LinesOf(e), x, LinesOf(e'), x');
    if IsBatch(e) {
      BatchClosed(env, before, e);
      BatchClosed(env, before, e');
      ClosedAgree(env, NoBuffer(before), LinesOf(e), x, LinesOf(e'), x');
    } else {
      SamePrefix(LinesOf(e), x, LinesOf(e'), x');
      assert LinesOf(e')[..1] == LinesOf(e');
    }
    SameLinesSameEvent(env, before, e, e');
  }

  lemma ClosedAgree(env: Env, noBuffer: bool, a: seq<Text>, x: seq<Text>, b: seq<Text>, y: seq<Text>)
    requires a + x == b + y && Closed(env, a, noBuffer) && Closed(env, b, noBuffer)
    ensures a == b && x == y
  {
    hide Ends;
    if |a| <= |b| {
      BatchesAgree(env, noBuffer, a, x, b, y);
    } else {
      BatchesAgree(env, noBuffer, b, y, a, x);
    }
  }

  // Lines that make up an event are not left over.
  lemma {:induction false} EventNotLeftover(env: Env, before: seq<Event>, e: Event, x: seq<Text>, pending: seq<Text>)
    requires EventOk(env, before, e) && LeftoverOk(env, before, pending)
    ensures LinesOf(e) + x != pending
  {
    FirstLineDecides(env, before, e);
    hide AllWhitespace, Batch, Executes, Ends, IsDotCommand;
    assert pending + [] == pending;
    if LinesOf(e) + x == pending {
      SameFirst(LinesOf(e), x, pending, []);
      BatchClosed(env, before, e);
      BatchesAgree(env, NoBuffer(before), LinesOf(e), x, pending, []);
    }
  }

  function LinesFrom(log: seq<Event>, pending: seq<Text>): seq<Text> {
    if log == [] then pending else LinesOf(log[0]) + LinesFrom(log[1..], pending)
  }

  lemma {:induction false} LinesSplit(log: seq<Event>, pending: seq<Text>)
    ensures AllLines(log) + pending == LinesFrom(log, pending)
    decreases |log|
  {
    if log == [] {
      assert [] + pending == pending;
    } else {
      var n := |log| - 1;
      var last := LinesOf(log[n]);
      Assoc(AllLines(log[..n]), last, pending);
      LinesSplit(log[..n], last + pending);
      LinesFromLast(log[..n], log[n], pending);
      assert log[..n] + [log[n]] == log;
    }
  }

  lemma {:induction false} LinesFromLast(log: seq<Event>, e: Event, pending: seq<Text>)
    ensures LinesFrom(log + [e], pending) == LinesFrom(log, LinesOf(e) + pending)
    decreases |log|
  {
    if log == [] {
      assert log + [e] == [e] && [e][1..] == [];
    } else {
      assert (log + [e])[1..] == log[1..] + [e];
      LinesFromLast(log[1..], e, pending);
    }
  }

  lemma {:induction false} LogsAgree(env: Env, before: seq<Event>,
                                     log: seq<Event>, p: seq<Text>, log': seq<Event>, p': seq<Text>)
    requires LogOk(env, before + log) && LeftoverOk(env, before + log, p)
    requires LogOk(env, before + log') && LeftoverOk(env, before + log', p')
    requires LinesFrom(log, p) == LinesFrom(log', p')
    ensures log == log' && p == p'
    decreases |log|
  {
    hide EventOk, LeftoverOk, LinesOf;
    assert before + [] == before;
    if log == [] && log' == [] {
    } else if log == [] {
      EventAt(env, before, log');
      EventNotLeftover(env, before, log'[0], LinesFrom(log'[1..], p'), p);
    } else if log' == [] {
      EventAt(env, before, log);
      EventNotLeftover(env, before, log[0], LinesFrom(log[1..], p), p');
    } else {
      EventAt(env, before, log);
      EventAt(env, before, log');
      EventsAgree(env, before, log[0], LinesFrom(log[1..], p), log'[0], LinesFrom(log'[1..], p'));
      LogsAgree(env, before + [log[0]], log[1..], p, log'[1..], p');
    }
  }

  lemma {:induction false} EventAt(env: Env, before: seq<Event>, log: seq<Event>)
    requires log != [] && LogOk(env, before + log)
    ensures EventOk(env, before, log[0]) && before + log == (before + [log[0]]) + log[1..]
    decreases |log|
  {
    hide EventOk;
    var n := |log| - 1;
    var all := before + log;
    assert all[..|all| - 1] == before + log[..n];
    assert log == [log[0]] + log[1..];
    if n == 0 {
      assert before + log[..n] == before;
    } else {
      EventAt(env, before, log[..n]);
    }
  }

  // The lines read determine everything: there is one way to split them into
  // blanks, dot-commands, executed and dropped batches and a remainder that the
  // contract of ProcessInput allows.
  lemma {:induction false} OneLogPerInput(env: Env, lines: seq<Text>,
                                          log: seq<Event>, p: seq<Text>, log': seq<Event>, p': seq<Text>)
    requires Accounts(env, lines, log, p) && Accounts(env, lines, log', p')
    ensures log == log' && p == p'
  {
    hide EventOk, LeftoverOk, LogOk, AllLines;
    LinesSplit(log, p);
    LinesSplit(log', p');
    assert [] + log == log && [] + log' == log';
    LogsAgree(env, [], log, p, log', p');
  }
}
