// White space and comments, command terminators, and how input lines are joined
// into the text of one SQL batch.

module InputText {
  import opened Bytes

  const SLASH: Byte := 47
  const STAR: Byte := 42
  const DASH: Byte := 45

  // The text after the end of a block comment, if it ends.
  function AfterBlock(s: Text): (r: Option<Text>)
    ensures r.Some? ==> |r.value| < |s|
  {
    if s == [] then None
    else if s[0] == STAR && |s| > 1 && s[1] == SLASH then Some(s[2..])
    else AfterBlock(s[1..])
  }

  // The text after the line feed that ends a line comment, if there is one.
  function AfterLine(s: Text): (r: Option<Text>)
    ensures r.Some? ==> |r.value| < |s|
  {
    if s == [] then None else if s[0] == LF then Some(s[1..]) else AfterLine(s[1..])
  }

  predicate StartsBlock(s: Text) {
    |s| > 1 && s[0] == SLASH && s[1] == STAR
  }

  predicate StartsLine(s: Text) {
    |s| > 1 && s[0] == DASH && s[1] == DASH
  }

  // Nothing but white space and comments; an unfinished block comment does not
  // count, an unfinished line comment does.
  predicate AllWhitespace(s: Text)
    decreases |s|
  {
    if s == [] then true
    else if IsSpace(s[0]) then AllWhitespace(s[1..])
    else if StartsBlock(s) then
      var r := AfterBlock(s[2..]);
      r.Some? && AllWhitespace(r.value)
    else if StartsLine(s) then
      var r := AfterLine(s[2..]);
      r.None? || AllWhitespace(r.value)
    else false
  }

  // _all_whitespace
  method IsAllWhitespace(s: Text) returns (r: bool)
    ensures r == AllWhitespace(s)
  {
    hide AllWhitespace, AfterBlock, AfterLine;
    var i := 0;
    DropNone(s);
    while i < |s|
      invariant 0 <= i <= |s| && AllWhitespace(s) == AllWhitespace(s[i..])
    {
      WhitespaceStep(s, i);
      if IsSpace(s[i]) {
        i := i + 1;
      } else if s[i] == SLASH && i + 1 < |s| && s[i + 1] == STAR {
        var e := FindBlockEnd(s, i + 2);
        if e == |s| { return false; }
        i := e + 2;
      } else if s[i] == DASH && i + 1 < |s| && s[i + 1] == DASH {
        var e := FindLineEnd(s, i + 2);
        if e == |s| { return true; }
        i := e + 1;
      } else {
        return false;
      }
    }
    NothingIsBlank(s[i..]);
    return true;
  }

  lemma NothingIsBlank(s: Text)
    requires s == []
    ensures AllWhitespace(s)
  {
  }

  // One turn of the loop at position i.
  lemma WhitespaceStep(s: Text, i: nat)
    requires i < |s|
    ensures AllWhitespace(s[i..]) ==
            if IsSpace(s[i]) then AllWhitespace(s[i + 1..])
            else if s[i] == SLASH && i + 1 < |s| && s[i + 1] == STAR then
              AfterBlock(s[i + 2..]).Some? && AllWhitespace(AfterBlock(s[i + 2..]).value)
            else if s[i] == DASH && i + 1 < |s| && s[i + 1] == DASH then
              AfterLine(s[i + 2..]).None? || AllWhitespace(AfterLine(s[i + 2..]).value)
            else false
  {
    hide AfterBlock, AfterLine;
    var t := s[i..];
    assert t[0] == s[i] && t[1..] == s[i + 1..];
    if |t| > 1 { assert t[1] == s[i + 1] && t[2..] == s[i + 2..]; }
  }

  method FindBlockEnd(s: Text, from: nat) returns (e: nat)
    requires from <= |s|
    ensures from <= e <= |s|
    ensures e < |s| ==> e + 2 <= |s|
    ensures AfterBlock(s[from..]) == if e == |s| then None else Some(s[e + 2..])
  {
    e := from;
    while e < |s| && (s[e] != STAR || e + 1 == |s| || s[e + 1] != SLASH)
      invariant from <= e <= |s| && AfterBlock(s[from..]) == AfterBlock(s[e..])
    {
      ghost var t := s[e..];
      assert t[0] == s[e] && (|t| > 1 ==> t[1] == s[e + 1]) && t[1..] == s[e + 1..];
      e := e + 1;
    }
    if e < |s| {
      ghost var t := s[e..];
      assert t[0] == s[e] && t[1] == s[e + 1] && t[2..] == s[e + 2..];
    }
  }

  method FindLineEnd(s: Text, from: nat) returns (e: nat)
    requires from <= |s|
    ensures from <= e <= |s|
    ensures AfterLine(s[from..]) == if e == |s| then None else Some(s[e + 1..])
  {
    e := from;
    while e < |s| && s[e] != LF
      invariant from <= e <= |s| && AfterLine(s[from..]) == AfterLine(s[e..])
    {
      assert s[e..][1..] == s[e + 1..];
      e := e + 1;
    }
    assert e < |s| ==> s[e..][1..] == s[e + 1..];
  }

  // ------------------------------------------------------------ joining lines

  lemma {:induction false} AfterBlockExtend(s: Text, t: Text)
    requires AfterBlock(s).Some?
    ensures AfterBlock(s + t) == Some(AfterBlock(s).value + t)
    decreases |s|
  {
    if s[0] == STAR && |s| > 1 && s[1] == SLASH {
      assert (s + t)[2..] == s[2..] + t;
    } else {
      assert (s + t)[1..] == s[1..] + t;
      AfterBlockExtend(s[1..], t);
    }
  }

  lemma {:induction false} AfterLineExtend(s: Text, t: Text)
    ensures AfterLine(s).Some? ==> AfterLine(s + t) == Some(AfterLine(s).value + t)
    ensures AfterLine(s).None? ==> AfterLine(s + ([LF] + t)) == Some(t)
    decreases |s|
  {
    if s == [] {
      assert s + ([LF] + t) == [LF] + t && ([LF] + t)[1..] == t;
    } else {
      assert (s + t)[1..] == s[1..] + t && (s + ([LF] + t))[1..] == s[1..] + ([LF] + t);
      AfterLineExtend(s[1..], t);
    }
  }

  // A line that is white space never matters for the lines after it.
  lemma {:induction false} WhitespaceLineJoins(a: Text, b: Text)
    requires AllWhitespace(a)
    ensures AllWhitespace(a + ([LF] + b)) <==> AllWhitespace(b)
    decreases |a|
  {
    var t := [LF] + b;
    var s := a + t;
    if a == [] {
      assert s == t && t[1..] == b;
    } else if IsSpace(a[0]) {
      assert s[1..] == a[1..] + t;
      WhitespaceLineJoins(a[1..], b);
    } else if StartsBlock(a) {
      assert StartsBlock(s) && s[2..] == a[2..] + t;
      AfterBlockExtend(a[2..], t);
      WhitespaceLineJoins(AfterBlock(a[2..]).value, b);
    } else {
      assert StartsLine(s) && s[2..] == a[2..] + t;
      AfterLineExtend(a[2..], t);
      AfterLineExtend(a[2..], b);
      if AfterLine(a[2..]).Some? { WhitespaceLineJoins(AfterLine(a[2..]).value, b); }
    }
  }

  lemma {:induction false} TrimKeepsWhitespace(s: Text)
    ensures AllWhitespace(SkipSpaces(s)) == AllWhitespace(s)
    ensures !AllWhitespace(s) ==> SkipSpaces(s) != []
    decreases |s|
  {
    if s != [] && IsSpace(s[0]) { TrimKeepsWhitespace(s[1..]); }
  }

  // -------------------------------------------------------------- terminators

  // line_is_command_terminator: a line that is "/" or "go".
  predicate IsTerminator(line: Text) {
    var s := SkipSpaces(line);
    || (|s| > 0 && s[0] == SLASH && AllWhitespace(s[1..]))
    || (|s| > 1 && Lower(s[0]) == 103 && Lower(s[1]) == 111 && AllWhitespace(s[2..]))
  }

  method LineIsTerminator(line: Text) returns (r: bool)
    ensures r == IsTerminator(line)
  {
    var i := 0;
    DropNone(line);
    while i < |line| && IsSpace(line[i])
      invariant 0 <= i <= |line| && SkipSpaces(line) == SkipSpaces(line[i..])
    {
      assert line[i..][1..] == line[i + 1..];
      i := i + 1;
    }
    var s := line[i..];
    if |s| > 0 && s[0] == SLASH {
      r := IsAllWhitespace(s[1..]);
      if r { return; }
    }
    if |s| > 1 && Lower(s[0]) == 103 && Lower(s[1]) == 111 {
      r := IsAllWhitespace(s[2..]);
      return;
    }
    r := false;
  }
}
