// The indentation of EXPLAIN output: each loop-closing opcode indents the
// opcodes from its jump target up to itself.

module ExplainIndent {

  datatype Op = Op(addr: int, opcode: string, p1: int, p2: int)

  const NEXT: seq<string> := ["Next", "Prev", "VPrev", "VNext", "SorterNext", "NextIfOpen", "PrevIfOpen"]
  const YIELD: seq<string> := ["Yield", "SeekLT", "SeekGT", "RowSetRead", "Rewind"]
  const GOTO: seq<string> := ["Goto"]

  // The jump target as an index of the listing; it differs from p2 inside a
  // sub-program.
  function Target(ops: seq<Op>, j: nat): int
    requires j < |ops|
  {
    ops[j].p2 + (j - ops[j].addr)
  }

  predicate Jumps(op: Op) {
    op.opcode in NEXT || op.opcode in GOTO
  }

  // Jumps never lead before the start of the listing.
  predicate TargetsOk(ops: seq<Op>) {
    forall j :: 0 <= j < |ops| && Jumps(ops[j]) ==> Target(ops, j) >= 0
  }

  // Opcode j closes a loop: a Next-like opcode, or a Goto back to a Yield-like
  // opcode, or a Goto marked by p1.
  predicate Closes(ops: seq<Op>, j: nat)
    requires j < |ops| && TargetsOk(ops)
  {
    || ops[j].opcode in NEXT
    || (ops[j].opcode in GOTO && Target(ops, j) <= j && (ops[Target(ops, j)].opcode in YIELD || ops[j].p1 != 0))
  }

  // Opcode k lies in the loop that opcode j closes.
  predicate Encloses(ops: seq<Op>, j: nat, k: nat)
    requires j < |ops| && TargetsOk(ops)
  {
    Closes(ops, j) && Target(ops, j) <= k < j
  }

  // The loops around opcode k, by the opcode that closes them, among the first n.
  function Enclosing(ops: seq<Op>, n: nat, k: nat): seq<nat>
    requires n <= |ops| && TargetsOk(ops)
  {
    if n == 0 then []
    else Enclosing(ops, n - 1, k) + if Encloses(ops, n - 1, k) then [n - 1] else []
  }

  // Exactly the loops around k among the first n opcodes, in order.
  ghost predicate Lists(ops: seq<Op>, n: nat, k: nat, e: seq<nat>)
    requires n <= |ops| && TargetsOk(ops)
  {
    && (forall i :: 0 <= i < |e| ==> k < e[i] < n && Encloses(ops, e[i], k))
    && Increasing(e)
    && (forall j :: 0 <= j < n && Encloses(ops, j, k) ==> j in e)
  }

  ghost predicate Increasing(e: seq<nat>) {
    forall i, i' :: 0 <= i < i' < |e| ==> e[i] < e[i']
  }

  lemma {:induction false} EnclosingIsAll(ops: seq<Op>, n: nat, k: nat)
    requires n <= |ops| && TargetsOk(ops)
    ensures Lists(ops, n, k, Enclosing(ops, n, k))
    decreases n
  {
    hide Encloses, TargetsOk, Target;
    if n > 0 {
      EnclosingIsAll(ops, n - 1, k);
      ListsStep(ops, n, k, Enclosing(ops, n - 1, k));
    }
  }

  lemma ListsStep(ops: seq<Op>, n: nat, k: nat, d: seq<nat>)
    requires 0 < n <= |ops| && TargetsOk(ops) && Lists(ops, n - 1, k, d)
    ensures Lists(ops, n, k, if Encloses(ops, n - 1, k) then d + [n - 1] else d)
  {
    assert Encloses(ops, n - 1, k) ==> k < n - 1;
    hide Encloses, TargetsOk;
    if Encloses(ops, n - 1, k) {
      IncreasingAppend(d, n - 1);
      hide Increasing;
      var e := d + [n - 1];
      forall j | 0 <= j < n && Encloses(ops, j, k) ensures j in e {
        assert j < n - 1 ==> j in d;
      }
    }
  }

  lemma IncreasingAppend(d: seq<nat>, x: nat)
    requires Increasing(d) && forall i :: 0 <= i < |d| ==> d[i] < x
    ensures Increasing(d + [x])
  {
  }

  // ------------------------------------------------------- which loops count

  // The rule written out: a loop runs from the jump target of a Next-like opcode,
  // or of a Goto that is marked or jumps to a Yield-like opcode, up to that
  // opcode.
  lemma EnclosesExactly(ops: seq<Op>, j: nat, k: nat)
    requires j < |ops| && TargetsOk(ops)
    ensures Encloses(ops, j, k) <==>
            var op := ops[j];
            var target := op.p2 + (j - op.addr);
            && 0 <= target <= k < j
            && (op.opcode in {"Next", "Prev", "VPrev", "VNext", "SorterNext", "NextIfOpen", "PrevIfOpen"}
                || (op.opcode == "Goto"
                    && (op.p1 != 0
                        || ops[target].opcode in {"Yield", "SeekLT", "SeekGT", "RowSetRead", "Rewind"})))
  {
    var op := ops[j];
    var target := op.p2 + (j - op.addr);
    NamesListed(op.opcode);
    if 0 <= target <= k < j { NamesListed(ops[target].opcode); }
    if Jumps(op) { assert Target(ops, j) >= 0; }
    hide NEXT, YIELD, GOTO;
  }

  lemma NamesListed(name: string)
    ensures name in NEXT <==>
            name in {"Next", "Prev", "VPrev", "VNext", "SorterNext", "NextIfOpen", "PrevIfOpen"}
    ensures name in YIELD <==> name in {"Yield", "SeekLT", "SeekGT", "RowSetRead", "Rewind"}
    ensures name in GOTO <==> name == "Goto"
  {
  }

  // An unmarked Goto to any other opcode indents nothing.
  lemma OtherGotosIndentNothing(ops: seq<Op>, j: nat, k: nat)
    requires j < |ops| && TargetsOk(ops) && ops[j].opcode == "Goto" && ops[j].p1 == 0
    requires var target := ops[j].p2 + (j - ops[j].addr);
             0 <= target < j ==> ops[target].opcode !in {"Yield", "SeekLT", "SeekGT", "RowSetRead", "Rewind"}
    ensures Enclosing(ops, j + 1, k) == Enclosing(ops, j, k)
  {
    EnclosesExactly(ops, j, k);
    hide Encloses;
  }

  // ----------------------------------------------------------------- nesting

  // Any two loops are disjoint or one lies in the other.
  ghost predicate Nest(ops: seq<Op>)
    requires TargetsOk(ops)
  {
    forall j, j' :: 0 <= j < j' < |ops| && Closes(ops, j) && Closes(ops, j') ==> NestPair(ops, j, j')
  }

  predicate NestPair(ops: seq<Op>, j: nat, j': nat)
    requires j < j' < |ops|
  {
    j <= Target(ops, j') || Target(ops, j') <= Target(ops, j)
  }

  // Loops around opcode k, each lying in the next.
  ghost predicate Tower(ops: seq<Op>, k: nat, js: seq<nat>)
    requires TargetsOk(ops)
  {
    && (forall i :: 0 <= i < |js| ==> js[i] < |ops| && Encloses(ops, js[i], k))
    && (forall i, i' :: 0 <= i < i' < |js| ==> js[i] < js[i'] && Target(ops, js[i']) <= Target(ops, js[i]))
  }

  lemma {:induction false} IncreasingFits(js: seq<nat>, e: seq<nat>)
    requires Increasing(js) && Increasing(e)
    requires forall i :: 0 <= i < |js| ==> js[i] in e
    ensures |js| <= |e|
    decreases |js|
  {
    if js != [] {
      var m := |js| - 1;
      var p :| 0 <= p < |e| && e[p] == js[m];
      forall i | 0 <= i < m ensures js[..m][i] in e[..p] {
        var q :| 0 <= q < |e| && e[q] == js[i];
        assert e[..p][q] == js[i];
      }
      IncreasingFits(js[..m], e[..p]);
    }
  }

  // When loops nest, the loops around an opcode form a tower and no tower is
  // higher: their number is the nesting depth.
  lemma EnclosingIsDepth(ops: seq<Op>, k: nat)
    requires TargetsOk(ops) && Nest(ops)
    ensures Tower(ops, k, Enclosing(ops, |ops|, k))
    ensures forall js :: Tower(ops, k, js) ==> |js| <= |Enclosing(ops, |ops|, k)|
  {
    var e := Enclosing(ops, |ops|, k);
    EnclosingIsAll(ops, |ops|, k);
    assert Lists(ops, |ops|, k, e);
    forall i, i' | 0 <= i < i' < |e| ensures e[i] < e[i'] < |ops| && Target(ops, e[i']) <= Target(ops, e[i]) {
      assert Encloses(ops, e[i], k) && Encloses(ops, e[i'], k) && e[i] < e[i'];
      assert NestPair(ops, e[i], e[i']);
    }
    forall js | Tower(ops, k, js) ensures |js| <= |e| {
      IncreasingFits(js, e);
    }
  }

  // ---------------------------------------------------- explain_data_prepare

  class ShellState {
    var aiIndent: seq<int>   // the allocated entries
    var nIndent: nat

    constructor ()
      ensures aiIndent == [] && nIndent == 0
    {
      aiIndent, nIndent := [], 0;
    }

    // The indenting loop: two more for each opcode from the target up to iOp.
    method Raise(p2op: nat, iOp: nat)
      requires iOp <= |aiIndent|
      modifies this`aiIndent
      ensures |aiIndent| == |old(aiIndent)|
      ensures forall k :: 0 <= k < |aiIndent| ==>
                aiIndent[k] == old(aiIndent)[k] + if p2op <= k < iOp then 2 else 0
    {
      var i := p2op;
      while i < iOp
        invariant p2op <= i && |aiIndent| == |old(aiIndent)|
        invariant forall k :: 0 <= k < |aiIndent| ==>
                    aiIndent[k] == old(aiIndent)[k] + if p2op <= k < i && k < iOp then 2 else 0
      {
        aiIndent := aiIndent[i := aiIndent[i] + 2];
        i := i + 1;
      }
    }

    // One opcode: a new entry, and the loop it closes if it closes one.
    method AddOp(ops: seq<Op>, iOp: nat, abYield: seq<bool>)
      requires TargetsOk(ops) && iOp < |ops| && iOp < |aiIndent| && |abYield| > iOp
      requires forall k :: 0 <= k <= iOp ==> abYield[k] == (ops[k].opcode in YIELD)
      modifies this
      ensures nIndent == iOp + 1 && |aiIndent| == |old(aiIndent)|
      ensures forall k :: 0 <= k <= iOp ==>
                aiIndent[k] == (if k == iOp then 0 else old(aiIndent)[k]) + if Encloses(ops, iOp, k) then 2 else 0
    {
      var op := ops[iOp];
      var p2op := op.p2 + (iOp - op.addr);
      aiIndent := aiIndent[iOp := 0];
      nIndent := iOp + 1;
      if op.opcode in NEXT {
        Raise(p2op, iOp);
      }
      if op.opcode in GOTO && p2op < nIndent && (abYield[p2op] || op.p1 != 0) {
        Raise(p2op, iOp);
      }
    }

    // Every opcode is indented by two for each loop around it.
    method ExplainDataPrepare(ops: seq<Op>)
      requires TargetsOk(ops) && aiIndent == [] && nIndent == 0
      modifies this
      ensures nIndent == |ops| <= |aiIndent|
      ensures forall k :: 0 <= k < |ops| ==> aiIndent[k] == 2 * |Enclosing(ops, |ops|, k)|
    {
      hide TargetsOk, Encloses, Enclosing;
      var nAlloc := 0;
      var abYield: seq<bool> := [];
      var iOp := 0;
      while iOp < |ops|
        invariant 0 <= iOp <= |ops| && nIndent == iOp <= nAlloc == |aiIndent| == |abYield|
        invariant forall k :: 0 <= k < iOp ==> abYield[k] == (ops[k].opcode in YIELD)
        invariant forall k :: 0 <= k < iOp ==> aiIndent[k] == 2 * |Enclosing(ops, iOp, k)|
      {
        if iOp >= nAlloc {
          nAlloc := nAlloc + 100;
          var more, moreYield := new int[100], new bool[100];
          aiIndent := aiIndent + more[..];
          abYield := abYield + moreYield[..];
        }
        abYield := abYield[iOp := ops[iOp].opcode in YIELD];
        AddOp(ops, iOp, abYield);
        forall k | 0 <= k <= iOp ensures aiIndent[k] == 2 * |Enclosing(ops, iOp + 1, k)| {
          EnclosingStep(ops, iOp, k);
        }
        iOp := iOp + 1;
      }
    }
  }

  lemma EnclosingStep(ops: seq<Op>, n: nat, k: nat)
    requires k <= n < |ops| && TargetsOk(ops)
    ensures |Enclosing(ops, n + 1, k)| == (if k == n then 0 else |Enclosing(ops, n, k)|) +
                                          if Encloses(ops, n, k) then 1 else 0
  {
    hide Closes;
    EnclosingIsAll(ops, n, k);
    var e := Enclosing(ops, n, k);
    assert |e| > 0 ==> k < e[0] < n;
  }
}
