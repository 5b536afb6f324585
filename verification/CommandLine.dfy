// C-string output and the in-place backslash decoder, which undoes it.

module CommandLine {
  import opened Bytes

  const BACKSLASH: Byte := 92
  const MAX_ARGS := 50

  // ---------------------------------------------------------------- printing

  // isprint() in the C locale.
  predicate IsPrint(b: Byte) {
    32 <= b <= 126
  }

  function EscapeByte(c: Byte): Text {
    if c == BACKSLASH then [BACKSLASH, BACKSLASH]
    else if c == DQUOTE then [BACKSLASH, DQUOTE]
    else if c == TAB then [BACKSLASH, 116]
    else if c == LF then [BACKSLASH, 110]
    else if c == CR then [BACKSLASH, 114]
    else if !IsPrint(c) then [BACKSLASH, 48 + c / 64, 48 + c / 8 % 8, 48 + c % 8]
    else [c]
  }

  function Escape(s: Text): Text {
    if s == [] then [] else EscapeByte(s[0]) + Escape(s[1..])
  }

  // output_c_string
  function CString(s: Text): Text {
    [DQUOTE] + Escape(s) + [DQUOTE]
  }

  // The printed arguments, separated by spaces.
  function PrintArgs(args: seq<Text>): Text {
    if args == [] then []
    else if |args| == 1 then CString(args[0])
    else CString(args[0]) + [SPACE] + PrintArgs(args[1..])
  }

  lemma EscapeStep(s: Text, i: nat)
    requires i < |s|
    ensures Escape(s[i..]) == EscapeByte(s[i]) + Escape(s[i + 1..])
  {
    assert s[i..][1..] == s[i + 1..];
  }

  method PutEscaped(c: Byte) returns (out: Text)
    ensures out == EscapeByte(c)
  {
    if c == BACKSLASH {
      out := [c, c];
    } else if c == DQUOTE {
      out := [BACKSLASH, DQUOTE];
    } else if c == TAB {
      out := [BACKSLASH, 116];
    } else if c == LF {
      out := [BACKSLASH, 110];
    } else if c == CR {
      out := [BACKSLASH, 114];
    } else if !IsPrint(c) {
      out := [BACKSLASH, 48 + c / 64, 48 + c / 8 % 8, 48 + c % 8];
    } else {
      out := [c];
    }
  }

  method OutputCString(s: Text) returns (out: Text)
    ensures out == CString(s)
  {
    out := [DQUOTE];
    var i := 0;
    assert s[0..] == s;
    while i < |s|
      invariant 0 <= i <= |s| && [DQUOTE] + Escape(s) == out + Escape(s[i..])
    {
      EscapeStep(s, i);
      var e := PutEscaped(s[i]);
      ghost var more := Escape(s[i + 1..]);
      assert out + (e + more) == (out + e) + more;
      out := out + e;
      i := i + 1;
    }
    out := out + [DQUOTE];
  }

  // ---------------------------------------------------------------- decoding

  predicate IsOctal(b: int) {
    48 <= b <= 55
  }

  function SimpleEscape(c: Byte): Byte {
    if c == 97 then 7           // \a
    else if c == 98 then 8      // \b
    else if c == 116 then 9     // \t
    else if c == 110 then 10    // \n
    else if c == 118 then 11    // \v
    else if c == 102 then 12    // \f
    else if c == 114 then 13    // \r
    else c                      // the quotes, the backslash, and any other character
  }

  // The character an escape stands for, and how many characters of s it takes;
  // s starts after the backslash.  There is no case for \s.
  function DecodeEscape(s: Text): (r: (Byte, nat))
    requires s != []
    ensures 1 <= r.1 <= |s| && r.1 <= 3
  {
    if !IsOctal(s[0]) then (SimpleEscape(s[0]), 1)
    else if |s| < 2 || !IsOctal(s[1]) then (s[0] - 48, 1)
    else
      var two: int := (s[0] - 48) * 8 + s[1] - 48;
      if |s| < 3 || !IsOctal(s[2]) then (two, 2)
      else ((two * 8 + s[2] - 48) % 256, 3)
  }

  // resolve_backslashes on a whole string.
  function Decode(s: Text): (r: Text)
    ensures |r| <= |s|
    decreases |s|
  {
    if s == [] then []
    else if s[0] == BACKSLASH && |s| > 1 then
      var (c, k) := DecodeEscape(s[1..]);
      [c] + Decode(s[1 + k..])
    else [s[0]] + Decode(s[1..])
  }

  // The comment above the decoder promises a space for \s; the code gives an s.
  lemma BackslashS()
    ensures Decode([BACKSLASH, 115]) == [115]
  {
    var s: Text := [BACKSLASH, 115];
    assert s[1..] == [115] && s[2..] == [];
    assert DecodeEscape(s[1..]) == (115, 1);
  }

  lemma OctalRoundTrip(c: Byte)
    ensures ((c / 64) * 8 + c / 8 % 8) * 8 + c % 8 == c
  {
  }

  lemma DecodeEscaped(c: Byte, rest: Text)
    ensures Decode(EscapeByte(c) + rest) == [c] + Decode(rest)
  {
    var e := EscapeByte(c);
    var s := e + rest;
    if |e| == 4 {
      OctalRoundTrip(c);
      assert s[1..][0] == e[1] && s[1..][1] == e[2] && s[1..][2] == e[3];
      assert DecodeEscape(s[1..]) == (c, 3);
      assert s[4..] == rest;
    } else if |e| == 2 {
      assert s[1..][0] == e[1];
      assert DecodeEscape(s[1..]) == (c, 1);
      assert s[2..] == rest;
    } else {
      assert s[1..] == rest;
    }
  }

  // Decoding undoes escaping, for every byte string.
  lemma {:induction false} DecodeUndoesEscape(s: Text)
    ensures Decode(Escape(s)) == s
    decreases |s|
  {
    if s != [] {
      DecodeUndoesEscape(s[1..]);
      DecodeEscaped(s[0], Escape(s[1..]));
    }
  }

  // -------------------------------------------------- the decoder, in place

  // The NUL-terminated text between start and end.
  ghost predicate CStringAt(z: array<Byte>, start: nat, end: nat)
    reads z
  {
    start <= end < z.Length && z[end] == 0 && NulFree(z[start..end])
  }

  // The escape after a backslash at i - 1: reads no further than the NUL.
  method DecodeEscapeAt(z: array<Byte>, i: nat, ghost end: nat) returns (c: Byte, last: nat)
    requires i < end && CStringAt(z, i, end)
    ensures (c, last - i + 1) == DecodeEscape(z[i..end]) && i <= last < end
  {
    last := i;
    c := z[i];
    ghost var s := z[i..end];
    assert s[0] == z[i] && (|s| > 1 ==> s[1] == z[i + 1]) && (|s| > 2 ==> s[2] == z[i + 2]);
    if !IsOctal(c) {
      c := SimpleEscape(c);
    } else {
      var v: int := c - 48;
      if IsOctal(z[last + 1]) {
        last := last + 1;
        v := v * 8 + z[last] - 48;
        if IsOctal(z[last + 1]) {
          last := last + 1;
          v := v * 8 + z[last] - 48;
        }
      }
      c := v % 256;
    }
  }

  // -------------------------------------------------- the escapes, written out

  // A printable character other than the quote and the backslash prints as
  // itself, five characters have escapes of their own, the rest are printed as
  // three octal digits.
  lemma EscapeExactly(c: Byte)
    ensures 32 <= c <= 126 && c != 34 && c != 92 <==> EscapeByte(c) == [c]
    ensures EscapeByte(34) == [92, 34] && EscapeByte(92) == [92, 92]
    ensures EscapeByte(9) == [92, 116] && EscapeByte(10) == [92, 110] && EscapeByte(13) == [92, 114]
    ensures !(32 <= c <= 126) && c !in [9, 10, 13] ==>
              && |EscapeByte(c)| == 4 && EscapeByte(c)[0] == 92
              && (forall i :: 1 <= i < 4 ==> 48 <= EscapeByte(c)[i] <= 55)
              && c == OctalValue(EscapeByte(c)[1..])
  {
    var e := EscapeByte(c);
    if |e| == 4 {
      OctalDigits(e[1..]);
      OctalRoundTrip(c);
      hide OctalValue;
    }
  }

  function Digit(b: Byte): (d: int) {
    var v: int := b;
    v - 48
  }

  // The number some octal digits stand for.
  function OctalValue(ds: Text): int {
    if ds == [] then 0 else OctalValue(ds[..|ds| - 1]) * 8 + Digit(ds[|ds| - 1])
  }

  lemma OctalDigits(ds: Text)
    requires 1 <= |ds| <= 3
    ensures |ds| == 1 ==> OctalValue(ds) == Digit(ds[0])
    ensures |ds| == 2 ==> OctalValue(ds) == Digit(ds[0]) * 8 + Digit(ds[1])
    ensures |ds| == 3 ==> OctalValue(ds) == Digit(ds[0]) * 64 + Digit(ds[1]) * 8 + Digit(ds[2])
  {
    hide Digit;
    assert OctalValue([ds[0]]) == Digit(ds[0]);
    if |ds| == 1 {
      assert ds == [ds[0]];
    } else {
      assert OctalValue([ds[0], ds[1]]) == Digit(ds[0]) * 8 + Digit(ds[1]) by {
        assert [ds[0], ds[1]][..1] == [ds[0]];
      }
      if |ds| == 2 {
        assert ds == [ds[0], ds[1]];
      } else {
        assert ds[..2] == [ds[0], ds[1]];
      }
    }
  }

  // What is printed is printable, and it is the text itself exactly when all its
  // characters print as themselves.
  lemma {:induction false} EscapePrintable(s: Text)
    ensures forall i :: 0 <= i < |Escape(s)| ==> 32 <= Escape(s)[i] <= 126
    ensures |Escape(s)| >= |s|
    ensures |Escape(s)| == |s| <==> forall i :: 0 <= i < |s| ==> 32 <= s[i] <= 126 && s[i] != 34 && s[i] != 92
    ensures |Escape(s)| == |s| ==> Escape(s) == s
    decreases |s|
  {
    if s != [] {
      EscapePrintable(s[1..]);
      EscapeExactly(s[0]);
      assert forall i :: 0 <= i < |EscapeByte(s[0])| ==> 32 <= EscapeByte(s[0])[i] <= 126;
      hide EscapeByte;
      assert forall i :: 1 <= i < |s| ==> s[i] == s[1..][i - 1];
      assert s == [s[0]] + s[1..];
    }
  }

  // A backslash before a character that is no octal digit: the seven letters, and
  // any other character as itself. A backslash at the very end stays.
  lemma DecodeLetter(x: Byte, rest: Text)
    requires !(48 <= x <= 55)
    ensures Decode([92, x] + rest) ==
            [if x == 97 then 7 else if x == 98 then 8 else if x == 116 then 9 else if x == 110 then 10
             else if x == 118 then 11 else if x == 102 then 12 else if x == 114 then 13 else x] + Decode(rest)
    ensures Decode([92]) == [92]
  {
    var s := [92, x] + rest;
    assert s[1..][0] == x && s[2..] == rest;
    assert [92][1..] == [];
  }

  // One to three octal digits after a backslash are the character with that
  // number, modulo 256.
  lemma DecodeOctal(ds: Text, rest: Text)
    requires 1 <= |ds| <= 3 && forall i :: 0 <= i < |ds| ==> 48 <= ds[i] <= 55
    requires |ds| == 3 || rest == [] || !(48 <= rest[0] <= 55)
    ensures 0 <= OctalValue(ds) < 512 && Decode([92] + (ds + rest)) == [OctalValue(ds) % 256] + Decode(rest)
  {
    hide OctalValue, DecodeEscape, Decode;
    OctalEscape(ds, rest);
    DropFront(ds, rest);
    DropFront([92], ds + rest);
    DecodeAfter([92] + (ds + rest), ds + rest, |ds|);
  }

  lemma DropFront(a: Text, b: Text)
    ensures (a + b)[|a|..] == b
  {
  }

  lemma OctalEscape(ds: Text, rest: Text)
    requires 1 <= |ds| <= 3 && forall i :: 0 <= i < |ds| ==> 48 <= ds[i] <= 55
    requires |ds| == 3 || rest == [] || !(48 <= rest[0] <= 55)
    ensures 0 <= OctalValue(ds) < 512
    ensures DecodeEscape(ds + rest).0 == OctalValue(ds) % 256 && DecodeEscape(ds + rest).1 == |ds|
  {
    hide OctalValue, DecodeEscape, Digit;
    OctalDigits(ds);
    OctalRange(ds);
    DecodeDigits(ds, rest);
    if |ds| == 3 {
      assert DecodeEscape(ds + rest).0 == OctalValue(ds) % 256;
    } else {
      assert DecodeEscape(ds + rest).0 == OctalValue(ds);
      SmallModulo(OctalValue(ds));
    }
  }

  lemma OctalRange(ds: Text)
    requires 1 <= |ds| <= 3 && forall i :: 0 <= i < |ds| ==> 48 <= ds[i] <= 55
    ensures 0 <= OctalValue(ds) < 512 && (|ds| < 3 ==> OctalValue(ds) < 64)
  {
    hide OctalValue;
    OctalDigits(ds);
  }

  lemma SmallModulo(v: int)
    requires 0 <= v < 256
    ensures v % 256 == v
  {
  }

  lemma DecodeAfter(s: Text, t: Text, k: nat)
    requires |s| > 1 && s[0] == 92 && t == s[1..] && k == DecodeEscape(t).1
    ensures Decode(s) == [DecodeEscape(t).0] + Decode(t[k..])
  {
    hide DecodeEscape;
    assert s[1 + k..] == t[k..];
  }

  lemma DecodeDigits(ds: Text, rest: Text)
    requires 1 <= |ds| <= 3 && forall i :: 0 <= i < |ds| ==> 48 <= ds[i] <= 55
    requires |ds| == 3 || rest == [] || !(48 <= rest[0] <= 55)
    ensures var (c, k) := DecodeEscape(ds + rest);
            && k == |ds|
            && (|ds| == 1 ==> c == Digit(ds[0]))
            && (|ds| == 2 ==> c == Digit(ds[0]) * 8 + Digit(ds[1]))
            && (|ds| == 3 ==> c == (Digit(ds[0]) * 64 + Digit(ds[1]) * 8 + Digit(ds[2])) % 256)
  {
  }

  lemma {:induction false} DecodePlain(s: Text, k: nat)
    requires k <= |s| && BACKSLASH !in s[..k]
    ensures Decode(s) == s[..k] + Decode(s[k..])
    decreases k
  {
    if k > 0 {
      assert s[0] == s[..k][0] && s[1..][..k - 1] == s[..k][1..];
      DecodePlain(s[1..], k - 1);
      assert s[1..][k - 1..] == s[k..];
      assert s[..k] == [s[0]] + s[1..][..k - 1];
    }
  }

  method FindBackslash(z: array<Byte>, start: nat, ghost end: nat) returns (p: nat)
    requires CStringAt(z, start, end)
    ensures start <= p && CStringAt(z, p, end)
    ensures Decode(z[start..end]) == z[start..p] + Decode(z[p..end])
  {
    hide Decode;
    ghost var s := z[start..end];
    p := start;
    while z[p] != 0 && z[p] != BACKSLASH
      invariant start <= p <= end && BACKSLASH !in s[..p - start]
      decreases end - p
    {
      assert s[p - start] == z[p];
      assert s[..p - start + 1] == s[..p - start] + [z[p]];
      p := p + 1;
    }
    CStringTail(z, start, p, end);
    DecodePlain(s, p - start);
  }

  lemma CStringTail(z: array<Byte>, start: nat, p: nat, end: nat)
    requires CStringAt(z, start, end) && start <= p <= end
    ensures CStringAt(z, p, end)
    ensures z[start..end][..p - start] == z[start..p] && z[start..end][p - start..] == z[p..end]
  {
    assert z[start..end][p - start..] == z[p..end];
  }

  // The next decoded character, read from i up to next.
  method DecodeOneAt(z: array<Byte>, i: nat, ghost end: nat) returns (c: Byte, next: nat)
    requires i < end && CStringAt(z, i, end)
    ensures i < next <= end && CStringAt(z, next, end)
    ensures Decode(z[i..end]) == [c] + Decode(z[next..end])
  {
    ghost var s := z[i..end];
    assert s[0] == z[i] && (|s| > 1 ==> s[1] == z[i + 1]) && s[1..] == z[i + 1..end];
    assert forall k :: i <= k < end ==> s[k - i] == z[k];
    c := z[i];
    next := i + 1;
    if c == BACKSLASH && z[i + 1] != 0 {
      c, next := DecodeEscapeAt(z, i + 1, end);
      next := next + 1;
      assert s[next - i..] == z[next..end];
    }
  }

  // A store at j, seen from the text before it and the text after it.
  method Store(z: array<Byte>, j: nat, c: Byte, ghost start: nat, ghost next: nat, ghost end: nat)
    requires start <= j < next <= end < z.Length
    modifies z
    ensures z[start..j + 1] == old(z[start..j]) + [c]
    ensures z[next..end] == old(z[next..end])
    ensures forall k :: 0 <= k < z.Length && k != j ==> z[k] == old(z[k])
  {
    z[j] := c;
  }

  // Decoded up to i into the slots up to j; d is what the whole text decodes to.
  ghost predicate Resolved(z: array<Byte>, start: nat, j: nat, i: nat, end: nat, d: Text)
    reads z
  {
    start <= j <= i && CStringAt(z, i, end) && d == z[start..j] + Decode(z[i..end])
  }

  // One turn of the decoding loop.
  method ResolveOne(z: array<Byte>, i: nat, j: nat, ghost start: nat, ghost end: nat, ghost d: Text) returns (next: nat)
    requires i < end && Resolved(z, start, j, i, end, d)
    modifies z
    ensures i < next && Resolved(z, start, j + 1, next, end, d)
    ensures forall k :: 0 <= k < z.Length && k != j ==> z[k] == old(z[k])
  {
    var c;
    c, next := DecodeOneAt(z, i, end);
    ghost var done, rest := z[start..j], z[next..end];
    assert done + ([c] + Decode(rest)) == (done + [c]) + Decode(rest);
    Store(z, j, c, start, next, end);
  }

  // The decoding loop, from the first backslash on.
  method ResolveFrom(z: array<Byte>, from: nat, ghost start: nat, ghost end: nat, ghost d: Text)
    requires Resolved(z, start, from, from, end, d)
    modifies z
    ensures start + |d| <= end && z[start..start + |d|] == d && z[start + |d|] == 0
    ensures forall k :: 0 <= k < z.Length && (k < start || end <= k) ==> z[k] == old(z[k])
  {
    var i: nat, j: nat := from, from;
    while z[i] != 0
      invariant Resolved(z, start, j, i, end, d)
      invariant forall k :: 0 <= k < z.Length && (k < start || end <= k) ==> z[k] == old(z[k])
      decreases end - i
    {
      i := ResolveOne(z, i, j, start, end, d);
      j := j + 1;
    }
    assert z[i..end] == [] && z[start..j] == d;
    if j < i { z[j] := 0; }
    assert z[start..j] == d;
  }

  // resolve_backslashes: the decoded text replaces the text it came from, and
  // nothing outside that text changes.
  method ResolveBackslashes(z: array<Byte>, start: nat, ghost end: nat)
    requires CStringAt(z, start, end)
    modifies z
    ensures var d := Decode(old(z[start..end]));
            start + |d| <= end && z[start..start + |d|] == d && z[start + |d|] == 0
    ensures forall k :: 0 <= k < z.Length && (k < start || end <= k) ==> z[k] == old(z[k])
  {
    ghost var d := Decode(z[start..end]);
    var from := FindBackslash(z, start, end);
    ResolveFrom(z, from, start, end, d);
  }
}
