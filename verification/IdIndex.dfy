// The lazily built index from instruction ids to table rows.

module IdIndex {

  type Short = n: int | 0 <= n < 0x1_0000

  // The table as the library builds it: at most 65535 rows, the largest id last.
  ghost predicate TableOk(insns: seq<Short>) {
    0 < |insns| < 0x1_0000 && forall i :: 0 <= i < |insns| ==> insns[i] <= insns[|insns| - 1]
  }

  // The last row from 1 on with this id, or 0.
  function LastRow(insns: seq<Short>, n: nat, id: int): nat
    requires n <= |insns|
  {
    if n <= 1 then 0
    else if insns[n - 1] == id then n - 1
    else LastRow(insns, n - 1, id)
  }

  lemma {:induction false} LastRowIsLast(insns: seq<Short>, n: nat, id: int)
    requires n <= |insns|
    ensures var r := LastRow(insns, n, id);
            && (r != 0 ==> 1 <= r < n && insns[r] == id)
            && (forall i :: 1 <= i < n && insns[i] == id ==> 1 <= i <= r)
    decreases n
  {
    if n > 1 { LastRowIsLast(insns, n - 1, id); }
  }

  // What malloc returned, by address: the slots of the index before any store.
  type Memory = nat -> Short

  // What the index holds for an id once the first n rows have been entered.
  function Entry(insns: seq<Short>, n: nat, mem: Memory, id: nat): int
    requires n <= |insns|
  {
    var row := LastRow(insns, n, id);
    if row != 0 then row else mem(id)
  }

  // What insn_find answers.
  function Answer(insns: seq<Short>, mem: Memory, id: nat): int
    requires insns != []
  {
    if id > insns[|insns| - 1] then 0 else Entry(insns, |insns|, mem, id)
  }

  ghost predicate Indexes(cells: seq<Short>, insns: seq<Short>, n: nat, mem: Memory)
    requires n <= |insns|
  {
    forall id :: 0 <= id < |cells| ==> cells[id] == Entry(insns, n, mem, id)
  }

  // make_id2insn: the ids that occur from row 1 on are mapped to their last row,
  // every other slot keeps what malloc returned.
  method MakeId2Insn(insns: seq<Short>, mem: Memory) returns (cache: array<Short>)
    requires TableOk(insns)
    ensures fresh(cache) && cache.Length == 1 + insns[|insns| - 1] as int
    ensures Indexes(cache[..], insns, |insns|, mem)
  {
    var maxId := insns[|insns| - 1];
    cache := new Short[maxId + 1](i requires 0 <= i => mem(i));
    var i: nat := 1;
    while i < |insns|
      invariant 1 <= i <= |insns| && Indexes(cache[..], insns, i, mem)
    {
      cache[insns[i]] := i;
      i := i + 1;
    }
  }

  class Finder {
    const insns: seq<Short>
    const mem: Memory
    var cache: array?<Short>

    ghost predicate Valid()
      reads this, cache
    {
      TableOk(insns) &&
      (cache != null ==>
         cache.Length == 1 + insns[|insns| - 1] as int && Indexes(cache[..], insns, |insns|, mem))
    }

    constructor (insns: seq<Short>, mem: Memory)
      requires TableOk(insns)
      ensures Valid() && cache == null && this.insns == insns && this.mem == mem
    {
      this.insns, this.mem, cache := insns, mem, null;
    }

    // insn_find: the index is built by the first lookup that needs it and only
    // read by the later ones.
    method InsnFind(id: nat) returns (r: Short)
      requires Valid()
      modifies this`cache
      ensures Valid() && r == Answer(insns, mem, id)
      ensures old(cache) != null ==> cache == old(cache) && unchanged(cache)
      ensures old(cache) == null ==> cache == null || fresh(cache)
      ensures cache != old(cache) ==> id <= insns[|insns| - 1]
    {
      if id > insns[|insns| - 1] {
        return 0;
      }
      if cache == null {
        cache := MakeId2Insn(insns, mem);
      }
      r := cache[id];
      assert cache[..][id] == Entry(insns, |insns|, mem, id);
    }

    // Any sequence of lookups sharing one index answers each id as one lookup
    // would.
    method FindAll(ids: seq<nat>) returns (rows: seq<Short>)
      requires Valid()
      modifies this`cache
      ensures Valid() && |rows| == |ids|
      ensures forall k :: 0 <= k < |ids| ==> rows[k] == Answer(insns, mem, ids[k])
    {
      rows := [];
      var i := 0;
      while i < |ids|
        invariant 0 <= i == |rows| <= |ids| && Valid()
        invariant cache == old(cache) || fresh(cache)
        invariant forall k :: 0 <= k < i ==> rows[k] == Answer(insns, mem, ids[k])
      {
        var r := InsnFind(ids[i]);
        rows := rows + [r];
        i := i + 1;
      }
    }
  }

  // An id has a row that the index is built from.
  predicate HasRow(insns: seq<Short>, id: nat) {
    exists i :: 1 <= i < |insns| && insns[i] == id
  }

  // The promise "the row, or 0 if not found" is kept whatever malloc returned
  // exactly for the ids above the largest and the ids that have a row.
  lemma {:induction false} FindsExactly(insns: seq<Short>, id: nat)
    requires TableOk(insns)
    ensures (forall mem: Memory :: Answer(insns, mem, id) == LastRow(insns, |insns|, id))
       <==> (id > insns[|insns| - 1] || HasRow(insns, id))
  {
    LastRowIsLast(insns, |insns|, id);
    if id <= insns[|insns| - 1] && !HasRow(insns, id) {
      var ones: Memory := _ => 1;
      assert Answer(insns, ones, id) == 1;
    }
  }

  // For instance: id 2 is not in this table and below its largest id, and the
  // lookup answers with what malloc returned.
  lemma AbsentIdAnswered()
    ensures TableOk([0, 1, 3]) && !HasRow([0, 1, 3], 2)
    ensures forall mem: Memory :: Answer([0, 1, 3], mem, 2) == mem(2)
  {
    var insns: seq<Short> := [0, 1, 3];
    assert LastRow(insns, 3, 2) == LastRow(insns, 2, 2) == LastRow(insns, 1, 2) == 0;
  }
}
