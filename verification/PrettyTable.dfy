// What the pretty-printer makes of a statement of the usual shape, written out:
// a head, a list in parentheses, and a tail.

module PrettyTable {
  import opened Bytes
  import opened Pretty
  import opened PrettyFixed

  // ------------------------------------------------------------------- lines

  // No parentheses.
  ghost predicate Flat(s: Text) {
    40 !in s && 41 !in s
  }

  // The parentheses match, and outside them there is no comma or line feed. Such
  // a text is one item of a list; depth parentheses are open already.
  predicate Balanced(s: Text, depth: nat) {
    if s == [] then depth == 0
    else if s[0] == 40 then Balanced(s[1..], depth + 1)
    else if s[0] == 41 then depth > 0 && Balanced(s[1..], depth - 1)
    else (depth == 0 ==> s[0] != 44 && s[0] != 10) && Balanced(s[1..], depth)
  }

  predicate Item(s: Text) {
    s != [] && !IsSpace(s[0]) && Balanced(s, 0)
  }

  // The items separated by commas, each comma followed by the same gap.
  function Joined(items: seq<Text>, gap: Text): Text
    requires items != []
  {
    if |items| == 1 then items[0] else items[0] + ([44] + (gap + Joined(items[1..], gap)))
  }

  lemma {:induction false} FlatLines(w: Text, t: Text, broken: bool, bare: bool)
    requires Flat(w)
    ensures Lines(w + t, 0, broken, bare) == w + Lines(t, 0, broken, bare && w == [])
    decreases |w|
  {
    if w == [] {
      assert w + t == t && w + Lines(t, 0, broken, bare) == Lines(t, 0, broken, bare);
    } else {
      assert (w + t)[1..] == w[1..] + t;
      FlatLines(w[1..], t, broken, false);
      assert w == [w[0]] + w[1..];
      Assoc([w[0]], w[1..], Lines(t, 0, broken, false));
    }
  }

  lemma {:induction false} BalancedLines(s: Text, depth: nat, t: Text, bare: bool)
    requires Balanced(s, depth)
    ensures Lines(s + t, 1 + depth, true, bare) == s + Lines(t, 1, true, bare && s == [])
    decreases |s|
  {
    if s == [] {
      assert s + t == t && s + Lines(t, 1, true, bare) == Lines(t, 1, true, bare);
    } else {
      assert (s + t)[1..] == s[1..] + t;
      var depth' := if s[0] == 40 then depth + 1 else if s[0] == 41 then depth - 1 else depth;
      BalancedLines(s[1..], depth', t, false);
      assert s == [s[0]] + s[1..];
      Assoc([s[0]], s[1..], Lines(t, 1, true, false));
    }
  }

  ghost predicate Spaces(gap: Text) {
    forall i :: 0 <= i < |gap| ==> IsSpace(gap[i])
  }

  lemma CommaLines(gap: Text, t: Text)
    requires Spaces(gap) && (t == [] || !IsSpace(t[0]))
    ensures Lines([44] + (gap + t), 1, true, false) == [44] + ([10, 32, 32] + Lines(t, 1, true, true))
  {
    assert ([44] + (gap + t))[1..] == gap + t;
    SkipLeadingSpaces(gap, t);
  }

  lemma CloseLines(tail: Text)
    requires Flat(tail)
    ensures Lines([41] + tail, 1, true, false) == [10, 41] + tail
  {
    assert ([41] + tail)[1..] == tail;
    FlatLines(tail, [], true, false);
    assert tail + [] == tail;
  }

  lemma JoinedHead(items: seq<Text>, gap: Text)
    requires items != [] && Item(items[0])
    ensures Joined(items, gap) != [] && !IsSpace(Joined(items, gap)[0])
  {
  }

  // Inside the parentheses every item starts a line of its own.
  lemma {:induction false} ListLines(items: seq<Text>, gap: Text, tail: Text)
    requires items != [] && (forall i :: 0 <= i < |items| ==> Item(items[i])) && Spaces(gap) && Flat(tail)
    ensures Lines(Joined(items, gap) + ([41] + tail), 1, true, true) ==
            Joined(items, [10, 32, 32]) + ([10, 41] + tail)
    decreases |items|
  {
    hide Lines, Balanced;
    var first, close := items[0], [41] + tail;
    assert Item(first);
    if |items| == 1 {
      BalancedLines(first, 0, close, true);
      CloseLines(tail);
    } else {
      assert Item(items[1]);
      JoinedHead(items[1..], gap);
      var more := Joined(items[1..], gap) + close;
      ListRegroup(first, [44], gap, Joined(items[1..], gap), close);
      BalancedLines(first, 0, [44] + (gap + more), true);
      CommaLines(gap, more);
      ListLines(items[1..], gap, tail);
      ListRegroup(first, [44], [10, 32, 32], Joined(items[1..], [10, 32, 32]), [10, 41] + tail);
    }
  }

  lemma ListRegroup(a: Text, b: Text, c: Text, d: Text, e: Text)
    ensures (a + (b + (c + d))) + e == a + (b + (c + (d + e)))
  {
  }

  // A statement of the usual shape: a head without parentheses, a list in
  // parentheses, a tail without parentheses.
  function Statement(head: Text, items: seq<Text>, gap: Text, tail: Text): Text
    requires items != []
  {
    head + ([40] + (Joined(items, gap) + ([41] + tail)))
  }

  // It is laid out with the opening parenthesis at the end of the first line, one
  // indented line for each item, and the closing parenthesis in front of the
  // last line.
  lemma StatementLayout(head: Text, items: seq<Text>, gap: Text, tail: Text)
    requires items != [] && (forall i :: 0 <= i < |items| ==> Item(items[i]))
    requires Flat(head) && Flat(tail) && Spaces(gap)
    ensures Layout(Statement(head, items, gap, tail), Scan(0, 0, 0), []) ==
            head + ([40] + ([10, 32, 32] + (Joined(items, [10, 32, 32]) + ([10, 41] + tail))))
  {
    hide Layout, Lines, Item, Joined, Flat, Spaces;
    var j := Joined(items, gap);
    var list := j + ([41] + tail);
    assert Item(items[0]);
    JoinedHead(items, gap);
    assert list[0] == j[0];
    StartLines(head + ([40] + list));
    FlatLines(head, [40] + list, false, true);
    OpenLines(list, head == []);
    ListLines(items, gap, tail);
  }

  lemma StartLines(s: Text)
    ensures Layout(s, Scan(0, 0, 0), []) == Lines(s, 0, false, true)
  {
    LinesIsLayout(s, Scan(0, 0, 0), []);
    assert [] + Lines(s, 0, false, true) == Lines(s, 0, false, true);
  }

  lemma OpenLines(t: Text, bare: bool)
    requires t == [] || !IsSpace(t[0])
    ensures Lines([40] + t, 0, false, bare) == [40] + ([10, 32, 32] + Lines(t, 1, true, true))
  {
    assert ([40] + t)[1..] == t;
  }

  // So this is what is printed of a long statement with no white space to spare.
  lemma StatementPrinted(head: Text, items: seq<Text>, gap: Text, tail: Text)
    requires items != [] && (forall i :: 0 <= i < |items| ==> Item(items[i]))
    requires Flat(head) && Flat(tail) && Spaces(gap)
    requires var s := Statement(head, items, gap, tail);
             Normal(s) && |s| >= 79 && !Verbatim(s)
    ensures Pretty.Pretty(Statement(head, items, gap, tail)) ==
            head + ([40] + ([10, 32, 32] + (Joined(items, [10, 32, 32]) + ([10, 41] + tail)))) + [59, 10]
  {
    hide Layout, Item, Joined, Normal, LikePrefix, FirstPass;
    NormalIsFixed(Statement(head, items, gap, tail));
    StatementLayout(head, items, gap, tail);
  }

  // ------------------------------------------------------ white space, squeezed

  lemma {:induction false} CompactAppend(a: Text, t: Text, prev: Byte)
    requires a != [] && !IsSpace(a[|a| - 1])
    ensures Compact(a + t, prev) == Compact(a, prev) + Compact(t, a[|a| - 1])
    decreases |a|
  {
    hide Compact, SkipSpaces, Gap;
    var s, end := a + t, Compact(t, a[|a| - 1]);
    assert s[1..] == a[1..] + t;
    if !IsSpace(a[0]) {
      CompactSolid(s, prev);
      CompactSolid(a, prev);
      if |a| > 1 {
        CompactAppend(a[1..], t, a[0]);
        Assoc([a[0]], Compact(a[1..], a[0]), end);
      } else {
        CompactNothing(a[0]);
        assert a[1..] == [] && [] + t == t && [a[0]] + [] == [a[0]];
      }
    } else {
      var u := SkipSpaces(a[1..]);
      SkipSpacesShortens(a[1..]);
      SkipAppend(a[1..], t);
      CompactAppend(u, t, a[0]);
      CompactGap(s, prev);
      CompactGap(a, prev);
      GapFirst(prev, a[0], u, t);
      Assoc(Gap(prev, a[0], u), Compact(u, a[0]), end);
    }
  }

  lemma CompactNothing(prev: Byte)
    ensures Compact([], prev) == []
  {
  }

  lemma GapFirst(prev: Byte, c: Byte, u: Text, t: Text)
    requires u != []
    ensures Gap(prev, c, u + t) == Gap(prev, c, u)
  {
  }

  lemma {:induction false} SkipAppend(s: Text, t: Text)
    requires s != [] && !IsSpace(s[|s| - 1])
    ensures SkipSpaces(s) != [] && SkipSpaces(s)[|SkipSpaces(s)| - 1] == s[|s| - 1]
    ensures SkipSpaces(s + t) == SkipSpaces(s) + t
    decreases |s|
  {
    if IsSpace(s[0]) {
      assert (s + t)[1..] == s[1..] + t;
      SkipAppend(s[1..], t);
    }
  }

  lemma CompactSolid(s: Text, prev: Byte)
    requires s != [] && !IsSpace(s[0])
    ensures Compact(s, prev) == [s[0]] + Compact(s[1..], s[0])
  {
  }

  lemma CompactGap(s: Text, prev: Byte)
    requires s != [] && IsSpace(s[0])
    ensures var u := SkipSpaces(s[1..]);
            Compact(s, prev) == Gap(prev, s[0], u) + Compact(u, s[0])
  {
  }

  // A run of white space between two texts: its first character is kept, unless
  // an opening parenthesis stands before it or any parenthesis after it.
  lemma SpaceBetween(a: Text, gap: Text, b: Text)
    requires a != [] && !IsSpace(a[|a| - 1]) && b != [] && !IsSpace(b[0]) && gap != [] && Spaces(gap)
    ensures FirstPass(a + (gap + b)) ==
            FirstPass(a) + ((if a[|a| - 1] == 40 || b[0] == 40 || b[0] == 41 then [] else [gap[0]]) + FirstPass(b))
  {
    hide FirstPass, Compact, SkipSpaces;
    var last := a[|a| - 1];
    CompactIsFirstPass(a + (gap + b));
    CompactIsFirstPass(a);
    CompactIsFirstPass(b);
    CompactAppend(a, gap + b, OPEN);
    assert (gap + b)[1..] == gap[1..] + b;
    SkipLeadingSpaces(gap[1..], b);
    CompactGap(gap + b, last);
    CompactFlush(b, gap[0], OPEN);
  }

  // At the ends white space is dropped.
  lemma SpaceAround(before: Text, a: Text, after: Text)
    requires a != [] && !IsSpace(a[0]) && !IsSpace(a[|a| - 1]) && Spaces(before) && Spaces(after)
    ensures FirstPass(before + (a + after)) == FirstPass(a)
  {
    hide FirstPass, Compact, SkipSpaces;
    var s := a + after;
    CompactIsFirstPass(before + s);
    CompactIsFirstPass(a);
    CompactSkips(before + s);
    SkipLeadingSpaces(before, s);
    CompactAppend(a, after, OPEN);
    NothingKept(after, a[|a| - 1]);
    assert Compact(a, OPEN) + [] == Compact(a, OPEN);
  }

  lemma NothingKept(after: Text, prev: Byte)
    requires Spaces(after)
    ensures Compact(after, prev) == []
  {
    if after != [] {
      assert after[1..] + [] == after[1..];
      SkipLeadingSpaces(after[1..], []);
    }
  }

  // ---------------------------------------------------------- views and triggers

  // The character of a literal, or its lower-case form.
  predicate EitherCase(z: Byte, c: char) {
    z == c as int || ('A' <= c <= 'Z' && z == c as int + 32)
  }

  // Statements that start with CREATE VIEW or CREATE TRIG, in any case, and no
  // others, are printed as they are.
  lemma VerbatimExactly(sql: Text)
    ensures Verbatim(sql) <==>
            && |sql| >= 11
            && ((forall i :: 0 <= i < 11 ==> EitherCase(sql[i], "CREATE VIEW"[i]))
                || (forall i :: 0 <= i < 11 ==> EitherCase(sql[i], "CREATE TRIG"[i])))
    ensures Verbatim(sql) ==> Pretty.Pretty(sql) == sql + [59, 10]
  {
    if |sql| >= 11 {
      CaseInsensitive("CREATE VIEW", sql);
      CaseInsensitive("CREATE TRIG", sql);
    }
    hide LikePrefix, Ascii;
  }

  lemma CaseInsensitive(p: string, z: Text)
    requires |p| <= |z| && forall i :: 0 <= i < |p| ==> p[i] == ' ' || 'A' <= p[i] <= 'Z'
    ensures LikePrefix(Ascii(p), z) <==> forall i :: 0 <= i < |p| ==> EitherCase(z[i], p[i])
  {
    hide Ascii;
    forall i | 0 <= i < |p| ensures Lower(Ascii(p)[i]) == Lower(z[i]) <==> EitherCase(z[i], p[i]) {
    }
  }
}
