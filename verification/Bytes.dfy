// Bytes, C strings and the few character classes shared by the shell model.

module Bytes {

  datatype Option<+T> = None | Some(value: T)

  lemma ConsAssoc<T>(a: seq<T>, x: T, b: seq<T>)
    ensures a + ([x] + b) == (a + [x]) + b
  {
  }

  lemma Assoc<T>(a: seq<T>, b: seq<T>, c: seq<T>)
    ensures a + (b + c) == (a + b) + c
  {
  }

  lemma DropNone<T>(s: seq<T>)
    ensures s[0..] == s
  {
  }

  type Byte = b: int | 0 <= b < 256

  type Text = seq<Byte>

  const EOF := -1

  const TAB: Byte := 9
  const LF: Byte := 10
  const CR: Byte := 13
  const SPACE: Byte := 32
  const DOT: Byte := 46
  const SEMI: Byte := 59
  const DQUOTE: Byte := 34
  const SQUOTE: Byte := 39

  function Min(a: nat, b: nat): nat {
    if a < b then a else b
  }

  // tolower() in the C locale.
  function Lower(b: Byte): Byte {
    if 65 <= b <= 90 then b + 32 else b
  }

  // isspace() in the C locale.
  predicate IsSpace(b: int) {
    9 <= b <= 13 || b == 32
  }

  predicate NulFree(s: Text) {
    forall i :: 0 <= i < |s| ==> s[i] != 0
  }

  // A string literal as bytes.
  function Ascii(s: string): (r: Text)
    requires forall i :: 0 <= i < |s| ==> s[i] as int < 128
    ensures |r| == |s| && forall i :: 0 <= i < |s| ==> r[i] == s[i] as int
  {
    seq(|s|, i requires 0 <= i < |s| => s[i] as int)
  }

  // The C string held in a buffer: everything before the first NUL.
  function CStr(s: Text): (r: Text)
    ensures NulFree(r) && r <= s
    ensures |r| < |s| ==> s[|r|] == 0
    ensures NulFree(s) ==> r == s
  {
    if s == [] || s[0] == 0 then [] else [s[0]] + CStr(s[1..])
  }

  function Count(x: int, s: Text): nat {
    if s == [] then 0 else (if s[0] == x then 1 else 0) + Count(x, s[1..])
  }

  lemma {:induction false} CountConcat(x: int, a: Text, b: Text)
    ensures Count(x, a + b) == Count(x, a) + Count(x, b)
  {
    if a == [] {
      assert a + b == b;
    } else {
      assert (a + b)[1..] == a[1..] + b;
      CountConcat(x, a[1..], b);
    }
  }

  // Per-character quote doubling: the reference every quoting routine is held to.
  function Doubled(s: Text, q: Byte): Text {
    if s == [] then []
    else (if s[0] == q then [q, q] else [s[0]]) + Doubled(s[1..], q)
  }

  lemma {:induction false} DoubledConcat(a: Text, b: Text, q: Byte)
    ensures Doubled(a + b, q) == Doubled(a, q) + Doubled(b, q)
  {
    if a == [] {
      assert a + b == b;
    } else {
      assert (a + b)[1..] == a[1..] + b;
      DoubledConcat(a[1..], b, q);
    }
  }

  function SkipSpaces(s: Text): (r: Text)
    ensures r != [] ==> !IsSpace(r[0])
  {
    if s != [] && IsSpace(s[0]) then SkipSpaces(s[1..]) else s
  }

  lemma {:induction false} SkipSpacesShortens(s: Text)
    ensures |SkipSpaces(s)| <= |s| && SkipSpaces(s) == s[|s| - |SkipSpaces(s)|..]
    ensures forall i :: 0 <= i < |s| - |SkipSpaces(s)| ==> IsSpace(s[i])
    decreases |s|
  {
    if s != [] && IsSpace(s[0]) { SkipSpacesShortens(s[1..]); }
  }

  lemma {:induction false} SkipLeadingSpaces(before: Text, s: Text)
    requires (s == [] || !IsSpace(s[0])) && forall i :: 0 <= i < |before| ==> IsSpace(before[i])
    ensures SkipSpaces(before + s) == s
    decreases |before|
  {
    if before == [] {
      assert before + s == s;
    } else {
      assert (before + s)[1..] == before[1..] + s;
      SkipLeadingSpaces(before[1..], s);
    }
  }
}
