// The disassembly drivers as they run: the iterator, and cs_disasm with its
// growing array, its detail blocks and its error unwinding, over a heap whose
// allocations may fail at any point.

module Disasm {
  import opened Bytes
  import opened DisasmSpec

  // The heap the drivers allocate from.  A block is freed only while it is live,
  // so no block is freed twice; `grants` says which requests succeed.
  class Heap {
    const grants: nat -> bool
    const moves: nat -> bool    // whether a granted realloc moves the block
    var live: set<nat>
    var next: nat
    var requests: nat

    ghost predicate Valid()
      reads this
    {
      forall b :: b in live ==> b < next
    }

    ghost predicate AllGranted(from: nat)
      reads this
    {
      forall k :: from <= k < requests ==> grants(k)
    }

    constructor (grants: nat -> bool, moves: nat -> bool)
      ensures Valid() && live == {} && this.grants == grants
    {
      this.grants, this.moves := grants, moves;
      live, next, requests := {}, 0, 0;
    }

    method Malloc() returns (p: Option<nat>)
      requires Valid()
      modifies this
      ensures Valid() && requests == old(requests) + 1 && next >= old(next)
      ensures p.Some? <==> grants(old(requests))
      ensures p.None? ==> live == old(live)
      ensures p.Some? ==> p.value == old(next) && live == old(live) + {p.value} && p.value < next
    {
      requests := requests + 1;
      if grants(requests - 1) {
        p := Some(next);
        live := live + {next};
        next := next + 1;
      } else {
        p := None;
      }
    }

    method Realloc(p: nat) returns (q: Option<nat>)
      requires Valid() && p in live
      modifies this
      ensures Valid() && requests == old(requests) + 1 && next >= old(next)
      ensures q.Some? <==> grants(old(requests))
      ensures q.None? ==> live == old(live)
      ensures q.Some? ==> live == old(live) - {p} + {q.value} && (q.value == p || q.value == old(next))
    {
      requests := requests + 1;
      if !grants(requests - 1) {
        q := None;
      } else if moves(requests - 1) {
        q := Some(next);
        live := live - {p} + {next};
        next := next + 1;
      } else {
        q := Some(p);
      }
    }

    method Free(p: Option<nat>)
      requires Valid() && (p.Some? ==> p.value in live)
      modifies this`live
      ensures Valid() && live == if p.Some? then old(live) - {p.value} else old(live)
    {
      if p.Some? { live := live - {p.value}; }
    }
  }

  datatype Err = OK | MEM

  class Handle {
    var cfg: Config
    var errnum: Err

    ghost predicate Valid()
      reads this
    {
      ConfigOk(cfg)
    }

    constructor (arch: Arch, thumb: bool, decode: Decoder)
      requires DecoderOk(decode)
      ensures Valid() && cfg == Config(arch, thumb, decode, false, false, 0, Ascii(".byte")) && errnum == OK
    {
      cfg := Config(arch, thumb, decode, false, false, 0, Ascii(".byte"));
      errnum := OK;
    }

    // cs_option(CS_OPT_SKIPDATA): the default size is installed the first time.
    method SetSkipdata(on: bool)
      requires Valid()
      modifies this`cfg
      ensures Valid() && cfg.skipdata == on
      ensures cfg == old(cfg).(skipdata := on, skipdataSize := cfg.skipdataSize)
      ensures cfg.skipdataSize == if on && old(cfg.skipdataSize) == 0
                                  then DefaultSkip(cfg.arch, cfg.thumb) else old(cfg.skipdataSize)
      ensures on && old(cfg.skipdataSize) == 0 && cfg.arch == ARM ==> cfg.skipdataSize == if cfg.thumb then 2 else 4
    {
      cfg := cfg.(skipdata := on);
      if cfg.skipdata {
        if cfg.skipdataSize == 0 {
          cfg := cfg.(skipdataSize := DefaultSkip(cfg.arch, cfg.thumb));
        }
      }
    }
  }

  // ------------------------------------------------------------ the iterator

  class Cursor {
    var code: Text
    var address: nat

    constructor (code: Text, address: nat)
      ensures this.code == code && this.address == address
    {
      this.code, this.address := code, address;
    }

    // cs_disasm_iter, without a skipdata callback.
    method Iter(h: Handle) returns (r: Option<Insn>)
      requires h.Valid()
      modifies this, h`errnum
      ensures match StepAt(h.cfg, old(code), old(address))
              case None => r == None && code == old(code) && address == old(address)
              case Some(item) =>
                && r == Some(item.insn)
                && code == old(code)[item.step..] && address == Advance(old(address), item.step)
                && Reports(h.cfg, item, old(code), old(address))
      ensures h.errnum == OK
    {
      if StepAt(h.cfg, code, address).Some? { StepReports(h.cfg, code, address); }
      hide Reports, DataOperands;
      h.errnum := OK;
      var d := h.cfg.decode(code, address);
      if d.Some? {
        r := Some(FillInsn(code, address, d.value));
        code, address := code[d.value.step..], Advance(address, d.value.step);
      } else {
        if !h.cfg.skipdata || h.cfg.skipdataSize > |code| {
          return None;
        }
        r := Some(DataInsn(h.cfg, code, address));
        code, address := code[h.cfg.skipdataSize..], Advance(address, h.cfg.skipdataSize);
      }
    }
  }

  // Stepping the iterator until it returns false.
  method IterateAll(h: Handle, code: Text, address: nat) returns (run: seq<Insn>)
    requires h.Valid()
    modifies h`errnum
    ensures run == Insns(Trace(h.cfg, code, address))
  {
    hide Trace, StepAt, Insns, Advance;
    var cursor := new Cursor(code, address);
    ghost var full := Insns(Trace(h.cfg, code, address));
    run := [];
    while true
      invariant h.Valid() && h.cfg == old(h.cfg)
      invariant full == run + Insns(Trace(h.cfg, cursor.code, cursor.address))
      decreases |cursor.code|
    {
      TraceInsns(h.cfg, cursor.code, cursor.address);
      var r := cursor.Iter(h);
      if r.None? { break; }
      ConsAssoc(run, r.value, Insns(Trace(h.cfg, cursor.code, cursor.address)));
      run := run + [r.value];
    }
  }

  // ------------------------------------------------------------ the allocator

  datatype Slot = Slot(insn: Insn, detail: Option<nat>)

  // The instruction array: its block and the entries it has room for.
  datatype Block = Block(id: nat, cells: seq<Slot>)

  function CellInsns(cells: seq<Slot>): (r: seq<Insn>)
    ensures |r| == |cells| && forall i :: 0 <= i < |r| ==> r[i] == cells[i].insn
  {
    seq(|cells|, i requires 0 <= i < |cells| => cells[i].insn)
  }

  ghost function DetailIds(cells: seq<Slot>): set<nat> {
    set i | 0 <= i < |cells| && cells[i].detail.Some? :: cells[i].detail.value
  }

  ghost predicate DistinctDetails(cells: seq<Slot>) {
    forall i, j :: 0 <= i < j < |cells| && cells[i].detail.Some? && cells[j].detail.Some? ==>
      cells[i].detail.value != cells[j].detail.value
  }

  // Live are the blocks of `base`, the array, and one detail block per entry that
  // has one, all different.
  ghost predicate Owns(live: set<nat>, base: set<nat>, id: nat, cells: seq<Slot>) {
    && DistinctDetails(cells)
    && live == base + {id} + DetailIds(cells)
    && id !in base && id !in DetailIds(cells) && DetailIds(cells) !! base
  }

  // Freeing the details of the first n entries, as the unwinding code and
  // cs_free do.
  method FreeDetails(heap: Heap, cells: seq<Slot>, n: nat)
    requires heap.Valid() && n <= |cells| && DistinctDetails(cells[..n]) && DetailIds(cells[..n]) <= heap.live
    modifies heap`live
    ensures heap.Valid() && heap.live == old(heap.live) - DetailIds(cells[..n])
  {
    var i := 0;
    while i < n
      invariant 0 <= i <= n && heap.Valid()
      invariant heap.live == old(heap.live) - DetailIds(cells[..i])
    {
      assert cells[..n][i] == cells[i] && forall k :: 0 <= k < i ==> cells[..n][k] == cells[k];
      assert cells[i].detail.Some? ==> cells[i].detail.value in DetailIds(cells[..n]);
      DetailIdsExtend(cells, i);
      heap.Free(cells[i].detail);
      i := i + 1;
    }
  }

  lemma DetailIdsExtend(cells: seq<Slot>, i: nat)
    requires i < |cells|
    ensures DetailIds(cells[..i + 1]) ==
            DetailIds(cells[..i]) + if cells[i].detail.Some? then {cells[i].detail.value} else {}
  {
    var a, b := cells[..i], cells[..i + 1];
    assert b == a + [cells[i]];
    forall x | x in DetailIds(a) ensures x in DetailIds(b) {
      var k :| 0 <= k < |a| && a[k].detail.Some? && a[k].detail.value == x;
      assert b[k] == a[k];
    }
    assert b[i] == cells[i];
  }

  // cs_free
  method CsFree(heap: Heap, block: Block, count: nat)
    requires heap.Valid() && count <= |block.cells|
    requires DistinctDetails(block.cells[..count]) && DetailIds(block.cells[..count]) <= heap.live
    requires block.id in heap.live && block.id !in DetailIds(block.cells[..count])
    modifies heap`live
    ensures heap.Valid() && heap.live == old(heap.live) - DetailIds(block.cells[..count]) - {block.id}
  {
    FreeDetails(heap, block.cells, count);
    heap.Free(Some(block.id));
  }

  // ---------------------------------------------------------------- cs_disasm

  // One turn of the decode loop up to the point where the entry is in the cache:
  // allocate its detail, decode, fall back to SKIPDATA, or give the detail back.
  method NextSlot(h: Handle, heap: Heap, code: Text, address: nat) returns (slot: Option<Slot>, step: nat)
    requires h.Valid() && heap.Valid()
    modifies heap
    ensures heap.Valid() && heap.requests >= old(heap.requests) && heap.next >= old(heap.next)
    ensures match StepAt(h.cfg, code, address)
            case None => slot == None && heap.live == old(heap.live)
            case Some(item) =>
              && slot.Some? && slot.value.insn == item.insn && step == item.step
              && (slot.value.detail.None? ==> heap.live == old(heap.live))
              && (slot.value.detail.Some? ==>
                    h.cfg.detail && slot.value.detail.value >= old(heap.next) &&
                    heap.live == old(heap.live) + {slot.value.detail.value})
  {
    step := 0;
    var detail := None;
    if h.cfg.detail {
      detail := heap.Malloc();
    }
    var d := h.cfg.decode(code, address);
    if d.Some? {
      slot := Some(Slot(FillInsn(code, address, d.value), detail));
      step := d.value.step;
    } else {
      if h.cfg.detail {
        heap.Free(detail);
        assert heap.live == old(heap.live);
      }
      if !h.cfg.skipdata || h.cfg.skipdataSize > |code| {
        return None, 0;
      }
      slot := Some(Slot(DataInsn(h.cfg, code, address), None));
      step := h.cfg.skipdataSize;
    }
  }

  // The first c cells, followed by what is still to come, are the whole run.
  ghost predicate Ahead(full: seq<Insn>, cells: seq<Slot>, c: nat, more: seq<Insn>) {
    c <= |cells| && full == CellInsns(cells[..c]) + more
  }

  lemma AheadStep(c: Config, full: seq<Insn>, cells: seq<Slot>, n: nat, code: Text, address: nat, slot: Slot)
    requires ConfigOk(c) && StepAt(c, code, address).Some? && slot.insn == StepAt(c, code, address).value.insn
    requires n < |cells| && Ahead(full, cells, n, Insns(Trace(c, code, address)))
    ensures var step := StepAt(c, code, address).value.step;
            Ahead(full, cells[n := slot], n + 1, Insns(Trace(c, code[step..], Advance(address, step))))
  {
    TraceInsns(c, code, address);
    assert cells[n := slot][..n + 1] == cells[..n] + [slot];
    assert CellInsns(cells[..n] + [slot]) == CellInsns(cells[..n]) + [slot.insn];
  }

  lemma OwnsStep(live: set<nat>, live': set<nat>, base: set<nat>, next: nat,
                 id: nat, cells: seq<Slot>, n: nat, slot: Slot)
    requires n < |cells| && Owns(live, base, id, cells[..n])
    requires forall b :: b in live ==> b < next
    requires slot.detail.None? ==> live' == live
    requires slot.detail.Some? ==> slot.detail.value >= next && live' == live + {slot.detail.value}
    ensures Owns(live', base, id, cells[n := slot][..n + 1])
    ensures DetailIds(cells[n := slot][..n + 1]) ==
            DetailIds(cells[..n]) + if slot.detail.Some? then {slot.detail.value} else {}
  {
    var a, b := cells[..n], cells[n := slot][..n + 1];
    assert cells[n := slot][..n] == a;
    DetailIdsExtend(cells[n := slot], n);
    forall i, j | 0 <= i < j < |b| && b[i].detail.Some? && b[j].detail.Some?
      ensures b[i].detail.value != b[j].detail.value
    {
      assert b[i] == a[i] && a[i].detail.value in DetailIds(a);
      if j < n { assert b[j] == a[j]; }
    }
  }

  lemma OwnsMoved(live: set<nat>, base: set<nat>, next: nat, id: nat, id': nat, cells: seq<Slot>)
    requires Owns(live, base, id, cells) && forall b :: b in live ==> b < next
    requires id' == id || id' == next
    ensures Owns(live - {id} + {id'}, base, id', cells)
  {
  }

  // The first c cells hold the first c entries of the run, `more` is what is to
  // come, and the live blocks are those of `base` and those the array owns.
  ghost predicate Filled(cfg: Config, full: seq<Insn>, more: seq<Insn>,
                         live: set<nat>, base: set<nat>, block: Block, c: nat)
  {
    && Ahead(full, block.cells, c, more)
    && Owns(live, base, block.id, block.cells[..c])
    && (!cfg.detail ==> DetailIds(block.cells[..c]) == {})
  }

  // One turn of the decode loop up to the count: the new entry goes to slot c.
  method EnterCache(h: Handle, heap: Heap, code: Text, address: nat, block: Block, c: nat,
                    ghost full: seq<Insn>, ghost base: set<nat>)
    returns (r: Option<Block>, step: nat)
    requires h.Valid() && heap.Valid() && c < |block.cells|
    requires Filled(h.cfg, full, Insns(Trace(h.cfg, code, address)), heap.live, base, block, c)
    modifies heap
    ensures heap.Valid() && heap.requests >= old(heap.requests)
    ensures r.None? ==> full == CellInsns(block.cells[..c]) && heap.live == old(heap.live)
    ensures r.Some? ==> 1 <= step <= |code| && |r.value.cells| == |block.cells| && r.value.id == block.id
    ensures r.Some? ==>
              Filled(h.cfg, full, Insns(Trace(h.cfg, code[step..], Advance(address, step))),
                     heap.live, base, r.value, c + 1)
  {
    var slot;
    slot, step := NextSlot(h, heap, code, address);
    if slot.None? { return None, 0; }
    AheadStep(h.cfg, full, block.cells, c, code, address, slot.value);
    OwnsStep(old(heap.live), heap.live, base, old(heap.next), block.id, block.cells, c, slot.value);
    r := Some(block.(cells := block.cells[c := slot.value]));
  }

  // The unwinding after a failed reallocation: details first, then the array.
  method Unwind(h: Handle, heap: Heap, block: Block, c: nat, ghost base: set<nat>)
    requires heap.Valid() && c <= |block.cells| && Owns(heap.live, base, block.id, block.cells[..c])
    requires !h.cfg.detail ==> DetailIds(block.cells[..c]) == {}
    modifies heap`live
    ensures heap.Valid() && heap.live == base
  {
    if h.cfg.detail {
      FreeDetails(heap, block.cells, c);
    }
    heap.Free(Some(block.id));
  }

  // Reallocating the array to `room` entries, of which the first c are in use;
  // if that is denied, everything is unwound.
  method Resize(h: Handle, heap: Heap, block: Block, room: nat, c: nat, ghost base: set<nat>) returns (r: Option<Block>)
    requires heap.Valid() && c <= |block.cells| && c <= room && Owns(heap.live, base, block.id, block.cells[..c])
    requires !h.cfg.detail ==> DetailIds(block.cells[..c]) == {}
    modifies heap
    ensures heap.Valid() && heap.requests == old(heap.requests) + 1
    ensures r.None? ==> heap.live == base && !heap.grants(old(heap.requests))
    ensures r.Some? ==> |r.value.cells| == room && r.value.cells[..c] == block.cells[..c]
    ensures r.Some? ==> Owns(heap.live, base, r.value.id, block.cells[..c])
  {
    var tmp := heap.Realloc(block.id);
    if tmp.None? {
      Unwind(h, heap, block, c, base);
      return None;
    }
    OwnsMoved(old(heap.live), base, old(heap.next), block.id, tmp.value, block.cells[..c]);
    if room <= |block.cells| {
      r := Some(Block(tmp.value, block.cells[..room]));
    } else {
      var fresh' := new Slot[room - |block.cells|];
      r := Some(Block(tmp.value, block.cells + fresh'[..]));
    }
  }

  lemma LimitReached(full: seq<Insn>, cells: seq<Slot>, c: nat, more: seq<Insn>, count: nat)
    requires Ahead(full, cells, c, more)
    requires (more == [] && (count > 0 ==> c < count)) || c == count > 0
    ensures CellInsns(cells[..c]) == Limit(full, count)
  {
  }

  // The variables of the decode loop that describe the array.
  datatype Cache = Cache(block: Block, c: nat, f: nat, cacheSize: nat, totalSize: nat)

  // The array has room for c - f + cacheSize entries; while f < cacheSize the
  // next free slot is c and lies inside it.
  ghost predicate CacheOk(k: Cache) {
    k.f <= k.cacheSize && k.f <= k.c && |k.block.cells| == k.totalSize == k.c - k.f + k.cacheSize
  }

  // What the decode loop has achieved when it ends without an error.
  ghost predicate Complete(cfg: Config, run: seq<Insn>, live: set<nat>, base: set<nat>, k: Cache) {
    && CacheOk(k)
    && CellInsns(k.block.cells[..k.c]) == run
    && Owns(live, base, k.block.id, k.block.cells[..k.c])
    && (!cfg.detail ==> DetailIds(k.block.cells[..k.c]) == {})
  }

  datatype Turn = Go(cache: Cache, step: nat) | Stop(cache: Cache) | Denied

  // One turn of the decode loop.
  method TakeTurn(h: Handle, heap: Heap, code: Text, address: nat, count: nat, k: Cache,
                  ghost full: seq<Insn>, ghost base: set<nat>)
    returns (turn: Turn)
    requires h.Valid() && heap.Valid() && CacheOk(k) && k.f < k.cacheSize && (count > 0 ==> k.c < count)
    requires Filled(h.cfg, full, Insns(Trace(h.cfg, code, address)), heap.live, base, k.block, k.c)
    modifies heap
    ensures heap.Valid() && heap.requests >= old(heap.requests)
    ensures turn.Denied? ==> heap.live == base && !heap.AllGranted(old(heap.requests))
    ensures turn.Stop? ==> Complete(h.cfg, Limit(full, count), heap.live, base, turn.cache)
    ensures turn.Go? ==>
              && 1 <= turn.step <= |code| && CacheOk(turn.cache) && turn.cache.f < turn.cache.cacheSize
              && (count > 0 ==> turn.cache.c < count)
              && Filled(h.cfg, full, Insns(Trace(h.cfg, code[turn.step..], Advance(address, turn.step))),
                        heap.live, base, turn.cache.block, turn.cache.c)
  {
    hide Trace, StepAt, Insns, CellInsns, Limit, DetailIds, DistinctDetails;
    var Cache(block, c, f, cacheSize, totalSize) := k;
    var entered, step := EnterCache(h, heap, code, address, block, c, full, base);
    if entered.None? {
      LimitReached(full, block.cells, c, [], count);
      return Stop(k);
    }
    block, c, f := entered.value, c + 1, f + 1;
    if count > 0 && c == count {
      LimitReached(full, block.cells, c, Insns(Trace(h.cfg, code[step..], Advance(address, step))), count);
      return Stop(Cache(block, c, f, cacheSize, totalSize));
    }
    if f == cacheSize {
      // full cache: make room for 8/5 as many entries again
      cacheSize := cacheSize * 8 / 5;
      totalSize := totalSize + cacheSize;
      var tmp := Resize(h, heap, block, totalSize, c, base);
      if tmp.None? { return Denied; }
      block, f := tmp.value, 0;
    }
    turn := Go(Cache(block, c, f, cacheSize, totalSize), step);
  }

  // The decode loop, from an array with nothing in it.
  method DecodeLoop(h: Handle, heap: Heap, code: Text, address: nat, count: nat, first: Block, ghost base: set<nat>)
    returns (r: Option<Cache>)
    requires h.Valid() && heap.Valid() && |first.cells| > 0 && Owns(heap.live, base, first.id, [])
    modifies heap
    ensures heap.Valid() && heap.requests >= old(heap.requests)
    ensures r.None? ==> heap.live == base && !heap.AllGranted(old(heap.requests))
    ensures r.Some? ==>
      Complete(h.cfg, Limit(Insns(Trace(h.cfg, code, address)), count), heap.live, base, r.value)
  {
    ghost var full := Insns(Trace(h.cfg, code, address));
    var k := Cache(first, 0, 0, |first.cells|, |first.cells|);
    var buffer, offset := code, address;
    assert first.cells[..0] == [];
    while |buffer| > 0
      invariant heap.Valid() && heap.requests >= old(heap.requests)
      invariant CacheOk(k) && k.f < k.cacheSize && (count > 0 ==> k.c < count)
      invariant Filled(h.cfg, full, Insns(Trace(h.cfg, buffer, offset)), heap.live, base, k.block, k.c)
      decreases |buffer|
    {
      var turn := TakeTurn(h, heap, buffer, offset, count, k, full, base);
      match turn {
        case Denied => return None;
        case Stop(last) => return Some(last);
        case Go(next, step) =>
          k := next;
          buffer, offset := buffer[step..], Advance(offset, step);
      }
    }
    assert Trace(h.cfg, buffer, offset) == [];
    LimitReached(full, k.block.cells, k.c, [], count);
    r := Some(k);
  }

  // cs_disasm, without a skipdata callback.  On every pattern of allocation
  // failures it either succeeds, with an array of exactly c entries holding the
  // entries asked for, or reports CS_ERR_MEM, returns 0 and leaves the heap as it
  // found it.  A denied detail block alone is not an error.
  method CsDisasm(h: Handle, heap: Heap, code: Text, address: nat, count: nat, sysDynMem: bool)
    returns (c: nat, stored: bool, insn: Option<Block>)
    requires h.Valid() && heap.Valid()
    modifies h`errnum, heap
    ensures heap.Valid()
    ensures h.errnum == OK ==>
              && c == |Limit(Insns(Trace(h.cfg, code, address)), count)|
              && (c == 0 <==> insn == None)
              && (c > 0 ==> CellInsns(insn.value.cells) == Limit(Insns(Trace(h.cfg, code, address)), count))
    ensures h.errnum == MEM ==> c == 0 && insn == None && !heap.AllGranted(old(heap.requests))
    ensures c == 0 ==> heap.live == old(heap.live)
    ensures c > 0 ==> Owns(heap.live, old(heap.live), insn.value.id, insn.value.cells)
    ensures stored <==> heap.grants(old(heap.requests))
  {
    hide Trace, StepAt, Insns;
    ghost var base := heap.live;
    h.errnum := OK;
    var cacheSize := if sysDynMem then 32 else 8;
    if sysDynMem && count > 0 && count <= 32 {
      cacheSize := count;
    }
    var total := heap.Malloc();
    if total.None? {
      h.errnum := MEM;
      return 0, false, None;
    }
    stored := true;
    var room := new Slot[cacheSize];
    var r := DecodeLoop(h, heap, code, address, count, Block(total.value, room[..]), base);
    if r.None? {
      h.errnum := MEM;
      return 0, true, None;
    }
    var k := r.value;
    c := k.c;
    if c == 0 {
      heap.Free(Some(k.block.id));
      insn := None;
    } else if k.f != k.cacheSize {
      insn := Resize(h, heap, k.block, k.totalSize - (k.cacheSize - k.f), c, base);
      if insn.None? {
        h.errnum := MEM;
        return 0, true, None;
      }
      assert insn.value.cells[..c] == insn.value.cells;
    } else {
      insn := Some(k.block);
      assert insn.value.cells[..c] == insn.value.cells;
    }
  }

  // Disassembling and then freeing what came back leaves the heap unchanged,
  // whichever allocations fail.
  method DisasmThenFree(h: Handle, heap: Heap, code: Text, address: nat, count: nat, sysDynMem: bool)
    requires h.Valid() && heap.Valid()
    modifies h`errnum, heap
    ensures heap.Valid() && heap.live == old(heap.live)
  {
    var c, stored, insn := CsDisasm(h, heap, code, address, count, sysDynMem);
    if c > 0 {
      var cells := insn.value.cells;
      assert cells[..c] == cells;
      CsFree(heap, insn.value, c);
    }
  }

  // The array driver refines the iterator: unless it reports CS_ERR_MEM it
  // returns what stepping the iterator to its end returns, or the first `count`.
  method DriversAgree(h: Handle, heap: Heap, code: Text, address: nat, count: nat, sysDynMem: bool)
    returns (ok: bool, all: seq<Insn>, stepped: seq<Insn>)
    requires h.Valid() && heap.Valid()
    modifies h`errnum, heap
    ensures ok ==> all == Limit(stepped, count)
    ensures !ok ==> !heap.AllGranted(old(heap.requests))
  {
    var c, stored, insn := CsDisasm(h, heap, code, address, count, sysDynMem);
    ok := h.errnum == OK;
    all := if c == 0 then [] else CellInsns(insn.value.cells);
    stepped := IterateAll(h, code, address);
  }
}
