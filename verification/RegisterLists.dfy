// Differentially encoded register lists and the searches over them.

module RegisterLists {

  import opened Bytes

  const WORD := 0x1_0000

  type Word = w: int | 0 <= w < 0x1_0000

  // ---------------------------------------------------------------- the lists

  // There is a zero at or after this position.
  ghost predicate Terminated(lists: seq<Word>, at: nat) {
    exists e :: at <= e < |lists| && lists[e] == 0
  }

  // The registers a list stands for: each entry is added, modulo 2^16, to the
  // register before it; a zero ends the list.
  function Walk(lists: seq<Word>, at: nat, val: Word): seq<Word>
    requires at <= |lists|
    decreases |lists| - at
  {
    if at == |lists| || lists[at] == 0 then []
    else
      var next: Word := (val + lists[at]) % WORD;
      [next] + Walk(lists, at + 1, next)
  }

  // The list that stands for these registers after `val`.
  function Encode(val: Word, regs: seq<Word>): seq<Word>
    decreases |regs|
  {
    if regs == [] then [0] else [(regs[0] + WORD - val) % WORD] + Encode(regs[0], regs[1..])
  }

  // No register follows itself, starting from `val`.
  predicate NoRepeat(val: Word, regs: seq<Word>)
    decreases |regs|
  {
    regs == [] || (regs[0] != val && NoRepeat(regs[0], regs[1..]))
  }

  lemma {:induction false} WalkShift(a: seq<Word>, b: seq<Word>, at: nat, val: Word)
    requires at <= |b|
    ensures Walk(a + b, |a| + at, val) == Walk(b, at, val)
    decreases |b| - at
  {
    if at < |b| && b[at] != 0 {
      assert (a + b)[|a| + at] == b[at];
      WalkShift(a, b, at + 1, (val + b[at]) % WORD);
    } else if at < |b| {
      assert (a + b)[|a| + at] == b[at];
    }
  }

  // Walking an encoded list gives the registers back, wherever the list lies and
  // whatever follows it.
  lemma {:induction false} WalkUndoesEncode(a: seq<Word>, val: Word, regs: seq<Word>, b: seq<Word>)
    requires NoRepeat(val, regs)
    ensures Walk(a + Encode(val, regs) + b, |a|, val) == regs
    ensures Terminated(a + Encode(val, regs) + b, |a|)
    decreases |regs|
  {
    var e := Encode(val, regs);
    var lists := a + e + b;
    assert lists[|a|] == e[0];
    if regs != [] {
      assert (val + e[0]) % WORD == regs[0];
      var a' := a + [e[0]];
      assert lists == a' + Encode(regs[0], regs[1..]) + b;
      WalkUndoesEncode(a', regs[0], regs[1..], b);
      var z :| |a'| <= z < |lists| && lists[z] == 0;
    }
  }

  // A list stands for these registers exactly when none of them repeats: with a
  // repeated register the walk stops early.
  lemma {:induction false} EncodableIffNoRepeat(val: Word, regs: seq<Word>)
    ensures Walk(Encode(val, regs), 0, val) == regs <==> NoRepeat(val, regs)
    decreases |regs|
  {
    var e := Encode(val, regs);
    if NoRepeat(val, regs) {
      WalkUndoesEncode([], val, regs, []);
      assert [] + e + [] == e;
    } else if regs[0] != val {
      assert (val + e[0]) % WORD == regs[0];
      EncodableIffNoRepeat(regs[0], regs[1..]);
      assert [e[0]] + Encode(regs[0], regs[1..]) == e;
      WalkShift([e[0]], Encode(regs[0], regs[1..]), 0, regs[0]);
      assert regs == [regs[0]] + regs[1..];
    }
  }

  // ------------------------------------------------------------- the iterator

  class DiffListIterator {
    const lists: seq<Word>
    var val: Word
    var list: Option<nat>   // None is the null pointer

    ghost predicate Valid()
      reads this
    {
      list.Some? ==> list.value <= |lists| && Terminated(lists, list.value)
    }

    // The registers still to come.
    ghost function Rest(): seq<Word>
      requires Valid()
      reads this
    {
      if list.None? then [] else Walk(lists, list.value, val)
    }

    constructor (lists: seq<Word>, initVal: Word, at: nat)
      requires Terminated(lists, at)
      ensures Valid() && this.lists == lists && list == Some(at) && val == initVal
    {
      this.lists, val, list := lists, initVal, Some(at);
    }

    method Next() returns (more: bool)
      requires Valid()
      modifies this
      ensures Valid()
      ensures more <==> old(Rest()) != []
      ensures more <==> list.Some?
      ensures more ==> val == old(Rest())[0] && Rest() == old(Rest())[1..] && list.value > old(list).value
      ensures !more ==> Rest() == [] && val == old(val)
    {
      if list.None? { return false; }
      var d := lists[list.value];
      list := Some(list.value + 1);
      val := (val + d) % WORD;
      if d == 0 { list := None; }
      more := d != 0;
    }
  }

  // --------------------------------------------------------------- the tables

  datatype Desc = Desc(subRegs: nat, superRegs: nat, subRegIndices: nat)

  datatype Info = Info(desc: seq<Desc>, diffLists: seq<Word>, subRegIndices: seq<Word>)

  function SubRegs(ri: Info, reg: Word): seq<Word>
    requires reg < |ri.desc| && ri.desc[reg].subRegs <= |ri.diffLists|
  {
    Walk(ri.diffLists, ri.desc[reg].subRegs, reg)
  }

  function SuperRegs(ri: Info, reg: Word): seq<Word>
    requires reg < |ri.desc| && ri.desc[reg].superRegs <= |ri.diffLists|
  {
    Walk(ri.diffLists, ri.desc[reg].superRegs, reg)
  }

  // Every register's lists are terminated, each sub-register has an index, and
  // super-registers are registers.
  ghost predicate WellFormed(ri: Info) {
    |ri.desc| <= WORD && forall r :: 0 <= r < |ri.desc| ==> RegOk(ri, r)
  }

  ghost predicate RegOk(ri: Info, r: Word)
    requires r < |ri.desc|
  {
    var d := ri.desc[r];
    && Terminated(ri.diffLists, d.subRegs) && Terminated(ri.diffLists, d.superRegs)
    && d.subRegIndices + |SubRegs(ri, r)| <= |ri.subRegIndices|
    && AllRegs(ri, SuperRegs(ri, r))
  }

  // The sub-register paired with the first matching index, or 0.
  function SubRegAt(regs: seq<Word>, indices: seq<Word>, idx: int): Word
    requires |regs| <= |indices|
  {
    if regs == [] then 0
    else if indices[0] == idx then regs[0]
    else SubRegAt(regs[1..], indices[1..], idx)
  }

  lemma {:induction false} SubRegAtIsFirst(regs: seq<Word>, indices: seq<Word>, idx: int)
    requires |regs| <= |indices|
    ensures var r := SubRegAt(regs, indices, idx);
            || (exists i :: 0 <= i < |regs| && indices[i] == idx && r == regs[i] && idx !in indices[..i])
            || (r == 0 && idx !in indices[..|regs|])
    decreases |regs|
  {
    if regs != [] && indices[0] != idx {
      var tail := indices[1..];
      SubRegAtIsFirst(regs[1..], tail, idx);
      assert indices[..|regs|] == [indices[0]] + tail[..|regs| - 1];
      if idx in tail[..|regs| - 1] {
        var i :| 0 <= i < |regs| - 1 && tail[i] == idx && idx !in tail[..i]
                 && SubRegAt(regs, indices, idx) == regs[1..][i];
        assert indices[..i + 1] == [indices[0]] + tail[..i];
        assert indices[i + 1] == idx && regs[i + 1] == regs[1..][i];
      }
    }
  }

  ghost function SubReg(ri: Info, reg: Word, idx: int): Word
    requires WellFormed(ri) && reg < |ri.desc|
  {
    assert RegOk(ri, reg);
    SubRegAt(SubRegs(ri, reg), ri.subRegIndices[ri.desc[reg].subRegIndices..], idx)
  }

  // Here in the table is the list of these registers.
  ghost predicate ListedAt(lists: seq<Word>, at: nat, val: Word, regs: seq<Word>) {
    NoRepeat(val, regs) && at <= |lists| && Encode(val, regs) <= lists[at..]
  }

  lemma ListedWalk(lists: seq<Word>, at: nat, val: Word, regs: seq<Word>)
    requires ListedAt(lists, at, val, regs)
    ensures Walk(lists, at, val) == regs
  {
    var e := Encode(val, regs);
    var a, b := lists[..at], lists[at + |e|..];
    assert lists[at..][..|e|] == e && lists == a + e + b;
    WalkUndoesEncode(a, val, regs, b);
  }

  // A table built from lists of sub-registers answers with the sub-register whose
  // index is asked for, if no earlier one has the same index.
  lemma SubRegFromTable(ri: Info, reg: Word, regs: seq<Word>, k: nat)
    requires WellFormed(ri) && reg < |ri.desc| && k < |regs|
    requires ListedAt(ri.diffLists, ri.desc[reg].subRegs, reg, regs)
    requires ri.desc[reg].subRegIndices + |regs| <= |ri.subRegIndices|
    requires var indices := ri.subRegIndices[ri.desc[reg].subRegIndices..];
             indices[k] !in indices[..k]
    ensures SubReg(ri, reg, ri.subRegIndices[ri.desc[reg].subRegIndices + k]) == regs[k]
  {
    var indices := ri.subRegIndices[ri.desc[reg].subRegIndices..];
    ListedWalk(ri.diffLists, ri.desc[reg].subRegs, reg, regs);
    assert indices[k] == ri.subRegIndices[ri.desc[reg].subRegIndices + k];
    SubRegAtIsFirst(regs, indices, indices[k]);
    hide WellFormed, ListedAt, SubRegAt;
    assert indices[k] in indices[..|regs|] by { assert indices[..|regs|][k] == indices[k]; }
    var i :| 0 <= i < |regs| && indices[i] == indices[k] && indices[k] !in indices[..i]
             && SubRegAt(regs, indices, indices[k]) == regs[i];
  }

  // The super-registers searched are those whose list the table holds.
  lemma SuperRegsFromTable(ri: Info, reg: Word, regs: seq<Word>)
    requires reg < |ri.desc| && ListedAt(ri.diffLists, ri.desc[reg].superRegs, reg, regs)
    ensures SuperRegs(ri, reg) == regs
  {
    ListedWalk(ri.diffLists, ri.desc[reg].superRegs, reg, regs);
  }

  // MCRegisterClass_contains
  predicate Contains(regSet: seq<bv8>, reg: Word) {
    reg / 8 < |regSet| && (regSet[reg / 8] & ((1 as bv8) << (reg % 8))) != 0
  }

  // The bit set of a register class: eight registers to a byte, the lowest bit
  // first.
  function ClassByte(regs: set<nat>, base: nat): bv8 {
    Bit(regs, base, 0) | Bit(regs, base, 1) | Bit(regs, base, 2) | Bit(regs, base, 3) |
    Bit(regs, base, 4) | Bit(regs, base, 5) | Bit(regs, base, 6) | Bit(regs, base, 7)
  }

  function Bit(regs: set<nat>, base: nat, i: nat): bv8
    requires i < 8
  {
    if base + i in regs then (1 as bv8) << i else 0
  }

  function ClassBits(regs: set<nat>, size: nat): (r: seq<bv8>)
    ensures |r| == size && forall k :: 0 <= k < size ==> r[k] == ClassByte(regs, 8 * k)
  {
    seq(size, k requires 0 <= k < size => ClassByte(regs, 8 * k))
  }

  lemma ByteHasBit(regs: set<nat>, base: nat, i: nat)
    requires i < 8
    ensures ClassByte(regs, base) & ((1 as bv8) << i) != 0 <==> base + i in regs
  {
  }

  // A class holds exactly the registers its bit set was made from, as far as the
  // bit set reaches.
  lemma ContainsExactly(regs: set<nat>, size: nat, reg: Word)
    ensures Contains(ClassBits(regs, size), reg) <==> reg in regs && reg < 8 * size
  {
    if reg / 8 < size { ByteHasBit(regs, 8 * (reg / 8), reg % 8); }
    hide ClassByte;
  }

  ghost predicate Matches(ri: Info, regSet: seq<bv8>, reg: Word, subIdx: int, val: Word)
    requires WellFormed(ri)
  {
    val < |ri.desc| && Contains(regSet, val) && reg == SubReg(ri, val, subIdx)
  }

  // The first of these registers that matches, or 0.
  ghost function FirstMatch(ri: Info, regs: seq<Word>, regSet: seq<bv8>, reg: Word, subIdx: int): (r: Word)
    requires WellFormed(ri)
    ensures (exists i :: 0 <= i < |regs| && r == regs[i] && Matches(ri, regSet, reg, subIdx, regs[i])
                         && forall j :: 0 <= j < i ==> !Matches(ri, regSet, reg, subIdx, regs[j]))
         || (r == 0 && forall j :: 0 <= j < |regs| ==> !Matches(ri, regSet, reg, subIdx, regs[j]))
    decreases |regs|
  {
    if regs == [] then 0
    else if Matches(ri, regSet, reg, subIdx, regs[0]) then regs[0]
    else
      var rest := regs[1..];
      assert forall j :: 0 < j < |regs| ==> regs[j] == rest[j - 1];
      assert forall j :: 0 <= j < |rest| ==> rest[j] == regs[j + 1];
      FirstMatch(ri, rest, regSet, reg, subIdx)
  }

  // MCRegisterInfo_getSubReg
  method GetSubReg(ri: Info, reg: Word, idx: int) returns (r: Word)
    requires WellFormed(ri) && reg < |ri.desc|
    ensures r == SubReg(ri, reg, idx)
  {
    assert RegOk(ri, reg);
    var iter := new DiffListIterator(ri.diffLists, reg, ri.desc[reg].subRegs);
    hide Walk, WellFormed, RegOk, SubRegAt;
    Advance(iter);
    r := FindSubReg(iter, ri.subRegIndices, ri.desc[reg].subRegIndices, idx);
  }

  // The loop over the sub-registers and their indices, side by side.
  method FindSubReg(iter: DiffListIterator, indices: seq<Word>, start: nat, idx: int) returns (r: Word)
    requires iter.Valid() && start + |Left(iter)| <= |indices|
    modifies iter
    ensures r == SubRegAt(old(Left(iter)), indices[start..], idx)
  {
    hide Walk, SubRegAt, Terminated;
    ghost var first := SubRegAt(Left(iter), indices[start..], idx);
    var sri := start;
    while iter.list.Some?
      invariant iter.Valid() && sri + |Left(iter)| <= |indices|
      invariant first == SubRegAt(Left(iter), indices[sri..], idx)
      decreases |Left(iter)|
    {
      ghost var left := Left(iter);
      assert left[1..] == iter.Rest();
      SubRegAtStep(left, indices, sri, idx);
      if indices[sri] == idx {
        return iter.val;
      }
      Advance(iter);
      sri := sri + 1;
    }
    SubRegAtNone(indices[sri..], idx);
    r := 0;
  }

  lemma SubRegAtStep(regs: seq<Word>, indices: seq<Word>, k: nat, idx: int)
    requires regs != [] && k + |regs| <= |indices|
    ensures SubRegAt(regs, indices[k..], idx) ==
            if indices[k] == idx then regs[0] else SubRegAt(regs[1..], indices[k + 1..], idx)
  {
    assert indices[k..][1..] == indices[k + 1..];
  }

  lemma SubRegAtNone(indices: seq<Word>, idx: int)
    ensures SubRegAt([], indices, idx) == 0
  {
  }

  ghost predicate AllRegs(ri: Info, regs: seq<Word>) {
    forall i :: 0 <= i < |regs| ==> regs[i] < |ri.desc|
  }

  lemma FirstMatchStep(ri: Info, regs: seq<Word>, regSet: seq<bv8>, reg: Word, subIdx: int)
    requires WellFormed(ri) && regs != [] && AllRegs(ri, regs)
    ensures regs[0] < |ri.desc| && AllRegs(ri, regs[1..])
    ensures FirstMatch(ri, regs, regSet, reg, subIdx) ==
            if Contains(regSet, regs[0]) && reg == SubReg(ri, regs[0], subIdx) then regs[0]
            else FirstMatch(ri, regs[1..], regSet, reg, subIdx)
  {
    hide SubReg, Contains, WellFormed;
  }

  lemma FirstMatchNone(ri: Info, regSet: seq<bv8>, reg: Word, subIdx: int)
    requires WellFormed(ri)
    ensures FirstMatch(ri, [], regSet, reg, subIdx) == 0
  {
  }

  // The registers an iterator stands at and after.
  ghost function Left(iter: DiffListIterator): seq<Word>
    requires iter.Valid()
    reads iter
  {
    if iter.list.None? then [] else [iter.val] + iter.Rest()
  }

  method Advance(iter: DiffListIterator)
    requires iter.Valid() && iter.list.Some?
    modifies iter
    ensures iter.Valid() && Left(iter) == old(iter.Rest())
  {
    hide Walk;
    ghost var rest := iter.Rest();
    var more := iter.Next();
    if more { assert rest == [iter.val] + iter.Rest(); }
  }

  // MCRegisterInfo_getMatchingSuperReg
  method GetMatchingSuperReg(ri: Info, reg: nat, subIdx: int, regSet: seq<bv8>) returns (r: Word)
    requires WellFormed(ri)
    ensures reg >= |ri.desc| ==> r == 0
    ensures reg < |ri.desc| ==> RegOk(ri, reg) && r == FirstMatch(ri, SuperRegs(ri, reg), regSet, reg, subIdx)
  {
    if reg >= |ri.desc| { return 0; }
    assert RegOk(ri, reg);
    var iter := new DiffListIterator(ri.diffLists, reg, ri.desc[reg].superRegs);
    ghost var first := FirstMatch(ri, iter.Rest(), regSet, reg, subIdx);
    assert AllRegs(ri, iter.Rest());
    hide FirstMatch, SubReg, Contains, WellFormed, AllRegs, Walk, RegOk;
    Advance(iter);
    while iter.list.Some?
      invariant iter.Valid() && fresh(iter) && AllRegs(ri, Left(iter))
      invariant first == FirstMatch(ri, Left(iter), regSet, reg, subIdx)
      decreases |Left(iter)|
    {
      FirstMatchStep(ri, Left(iter), regSet, reg, subIdx);
      assert Left(iter)[1..] == iter.Rest();
      var val := iter.val;
      if Contains(regSet, val) {
        var sub := GetSubReg(ri, val, subIdx);
        if reg == sub { return val; }
      }
      Advance(iter);
    }
    FirstMatchNone(ri, regSet, reg, subIdx);
    r := 0;
  }
}
