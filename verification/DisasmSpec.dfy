// What disassembling a buffer means: the entries a handle produces one after the
// other, where each one lies, and how much of the buffer they cover.  The
// per-architecture decoder and printer are one uninterpreted function of the
// remaining bytes and the address.

module DisasmSpec {
  import opened Bytes

  const ADDRESS_SPACE := 0x1_0000_0000_0000_0000
  const BYTES_FIELD := 16   // sizeof(insn->bytes)

  datatype Decoded = Decoded(step: nat, id: nat, mnemonic: Text, opStr: Text)

  type Decoder = (Text, int) -> Option<Decoded>

  datatype Insn = Insn(id: nat, address: nat, size: nat, bytes: Text, mnemonic: Text, opStr: Text)

  datatype Arch = ARM | ARM64 | MIPS | X86 | PPC | SPARC | SYSZ | XCORE

  datatype Config = Config(
    arch: Arch, thumb: bool, decode: Decoder, detail: bool,
    skipdata: bool, skipdataSize: nat, skipMnemonic: Text)

  // skipdata_size()
  function DefaultSkip(arch: Arch, thumb: bool): nat {
    match arch
    case ARM => if thumb then 2 else 4
    case ARM64 | MIPS | PPC | SPARC => 4
    case SYSZ | XCORE => 2
    case X86 => 1
  }

  // A decoder that succeeds consumes at least one byte and no more than it was
  // given; so it fails on an empty buffer.
  ghost predicate DecoderOk(decode: Decoder) {
    forall code, address ::
      decode(code, address).Some? ==>
        1 <= decode(code, address).value.step <= |code| && decode(code, address).value.step < 0x10000
  }

  ghost predicate ConfigOk(c: Config) {
    && DecoderOk(c.decode)
    && c.skipdataSize in {0, DefaultSkip(c.arch, true), DefaultSkip(c.arch, false)}
    && (c.skipdata ==> c.skipdataSize > 0)
  }

  // fill_insn: the stored size is clipped to the bytes field, and the bytes kept
  // are the last ones.
  function FillInsn(code: Text, address: nat, d: Decoded): Insn
    requires d.step <= |code|
  {
    var copy := Min(BYTES_FIELD, d.step);
    Insn(d.id, address, copy, code[d.step - copy..d.step], d.mnemonic, d.opStr)
  }

  function HexDigit(d: nat): Byte
    requires d < 16
  {
    if d < 10 then 48 + d else 87 + d
  }

  function HexByte(b: Byte): Text {
    [48, 120, HexDigit(b / 16), HexDigit(b % 16)]
  }

  // skipdata_opstr
  function DataOperands(bytes: Text): Text {
    if bytes == [] then []
    else if |bytes| == 1 then HexByte(bytes[0])
    else DataOperands(bytes[..|bytes| - 1]) + [44, 32] + HexByte(bytes[|bytes| - 1])
  }

  function DataInsn(c: Config, code: Text, address: nat): Insn
    requires c.skipdataSize <= |code|
  {
    var bytes := code[..c.skipdataSize];
    Insn(0, address, c.skipdataSize, bytes, c.skipMnemonic, DataOperands(bytes))
  }

  datatype Item = Item(insn: Insn, step: nat)

  // The entry at the front of a buffer, and the bytes it consumes.
  function StepAt(c: Config, code: Text, address: nat): (r: Option<Item>)
    requires ConfigOk(c)
    ensures r.Some? ==> 1 <= r.value.step <= |code| && r.value.insn.address == address
  {
    var d := c.decode(code, address);
    if d.Some? then Some(Item(FillInsn(code, address, d.value), d.value.step))
    else if !c.skipdata || c.skipdataSize > |code| then None
    else Some(Item(DataInsn(c, code, address), c.skipdataSize))
  }

  function Advance(address: nat, step: nat): nat {
    (address + step) % ADDRESS_SPACE
  }

  // Everything a buffer disassembles to.
  function Trace(c: Config, code: Text, address: nat): seq<Item>
    requires ConfigOk(c)
    decreases |code|
  {
    match StepAt(c, code, address)
    case None => []
    case Some(item) => [item] + Trace(c, code[item.step..], Advance(address, item.step))
  }

  function Insns(items: seq<Item>): (r: seq<Insn>)
    ensures |r| == |items| && forall i :: 0 <= i < |r| ==> r[i] == items[i].insn
  {
    seq(|items|, i requires 0 <= i < |items| => items[i].insn)
  }

  lemma TraceInsns(c: Config, code: Text, address: nat)
    requires ConfigOk(c)
    ensures match StepAt(c, code, address)
            case None => Insns(Trace(c, code, address)) == []
            case Some(item) =>
              Insns(Trace(c, code, address)) ==
              [item.insn] + Insns(Trace(c, code[item.step..], Advance(address, item.step)))
  {
  }

  // The entries asked for: all of them, or the first `count`.
  function Limit(run: seq<Insn>, count: nat): (r: seq<Insn>)
    ensures r <= run && |r| == if 0 < count < |run| then count else |run|
  {
    if count == 0 || count >= |run| then run else run[..count]
  }

  function StepSum(items: seq<Item>): nat {
    if items == [] then 0 else items[0].step + StepSum(items[1..])
  }

  function SizeSum(items: seq<Item>): nat {
    if items == [] then 0 else items[0].insn.size + SizeSum(items[1..])
  }

  function AllBytes(items: seq<Item>): Text {
    if items == [] then [] else items[0].insn.bytes + AllBytes(items[1..])
  }

  // ------------------------------------------------------------------ tiling

  lemma AdvanceTwice(address: nat, a: nat, b: nat)
    ensures Advance(Advance(address, a), b) == Advance(address, a + b)
  {
  }

  lemma {:induction false} TraceFits(c: Config, code: Text, address: nat)
    requires ConfigOk(c)
    ensures StepSum(Trace(c, code, address)) <= |code|
    decreases |code|
  {
    match StepAt(c, code, address)
    case None =>
    case Some(item) =>
      TraceFits(c, code[item.step..], Advance(address, item.step));
      assert Trace(c, code, address)[1..] == Trace(c, code[item.step..], Advance(address, item.step));
  }

  // Where an entry lies: its address is the start address plus the steps before
  // it, modulo 2^64, and its bytes are the last `size` bytes of its step.
  ghost predicate LiesAt(item: Item, code: Text, address: nat, offset: nat) {
    && 1 <= item.step && offset + item.step <= |code| && item.insn.size <= item.step
    && item.insn.address == Advance(address, offset)
    && item.insn.bytes == code[offset + item.step - item.insn.size..offset + item.step]
  }

  lemma {:induction false} StepLiesAt(c: Config, code: Text, address: nat)
    requires ConfigOk(c) && StepAt(c, code, address).Some? && address < ADDRESS_SPACE
    ensures LiesAt(StepAt(c, code, address).value, code, address, 0)
  {
  }

  lemma LiesAtShift(item: Item, code: Text, address: nat, step: nat, offset: nat)
    requires step <= |code|
    requires LiesAt(item, code[step..], Advance(address, step), offset)
    ensures LiesAt(item, code, address, step + offset)
  {
    var lo, hi := offset + item.step - item.insn.size, offset + item.step;
    assert code[step..][lo..hi] == code[step + lo..step + hi];
    AdvanceTwice(address, step, offset);
  }

  lemma {:induction false} Tiling(c: Config, code: Text, address: nat, i: nat)
    requires ConfigOk(c) && address < ADDRESS_SPACE && i < |Trace(c, code, address)|
    ensures var items := Trace(c, code, address);
            LiesAt(items[i], code, address, StepSum(items[..i]))
    decreases |code|
  {
    var items := Trace(c, code, address);
    var item := StepAt(c, code, address).value;
    var rest := code[item.step..];
    var more := Trace(c, rest, Advance(address, item.step));
    if i == 0 {
      StepLiesAt(c, code, address);
    } else {
      Tiling(c, rest, Advance(address, item.step), i - 1);
      LiesAtShift(items[i], code, address, item.step, StepSum(more[..i - 1]));
      assert items[..i][1..] == more[..i - 1];
    }
  }

  // Disassembly stops only where neither the decoder nor SKIPDATA can go on.
  lemma {:induction false} StopsWhereStuck(c: Config, code: Text, address: nat)
    requires ConfigOk(c) && address < ADDRESS_SPACE
    ensures var n := StepSum(Trace(c, code, address));
            n <= |code| && StepAt(c, code[n..], Advance(address, n)).None?
    decreases |code|
  {
    match StepAt(c, code, address)
    case None =>
      assert code[0..] == code;
    case Some(item) =>
      var rest, address' := code[item.step..], Advance(address, item.step);
      StopsWhereStuck(c, rest, address');
      assert Trace(c, code, address)[1..] == Trace(c, rest, address');
      var n := StepSum(Trace(c, rest, address'));
      assert rest[n..] == code[item.step + n..];
      AdvanceTwice(address, item.step, n);
  }

  // With SKIPDATA on, fewer than skipdata_size bytes stay uncovered; on x86, none.
  lemma {:induction false} SkipdataCovers(c: Config, code: Text, address: nat)
    requires ConfigOk(c) && c.skipdata && address < ADDRESS_SPACE
    ensures var n := StepSum(Trace(c, code, address));
            && n <= |code| < n + c.skipdataSize
            && (c.arch == X86 ==> n == |code|)
  {
    StopsWhereStuck(c, code, address);
  }

  lemma {:induction false} SizesAreClipped(c: Config, code: Text, address: nat, i: nat)
    requires ConfigOk(c) && i < |Trace(c, code, address)|
    ensures var item := Trace(c, code, address)[i];
            item.insn.size == Min(BYTES_FIELD, item.step)
    decreases |code|
  {
    var item := StepAt(c, code, address).value;
    if i > 0 { SizesAreClipped(c, code[item.step..], Advance(address, item.step), i - 1); }
  }

  lemma {:induction false} ClippedSizes(items: seq<Item>)
    requires forall i :: 0 <= i < |items| ==> items[i].insn.size == Min(BYTES_FIELD, items[i].step)
    ensures SizeSum(items) <= StepSum(items)
    ensures SizeSum(items) == StepSum(items) <==> NoneClipped(items)
    decreases |items|
  {
    if items != [] {
      ClippedSizes(items[1..]);
      if SizeSum(items) == StepSum(items) {
        forall i | 0 <= i < |items| ensures items[i].step <= BYTES_FIELD {
          assert i > 0 ==> items[i] == items[1..][i - 1];
        }
      }
    }
  }

  // No instruction is longer than the bytes field.
  ghost predicate NoneClipped(items: seq<Item>) {
    forall i :: 0 <= i < |items| ==> items[i].step <= BYTES_FIELD
  }

  // The stored sizes add up to the bytes consumed exactly when no instruction is
  // longer than the bytes field.
  lemma {:induction false} SizesTile(c: Config, code: Text, address: nat)
    requires ConfigOk(c)
    ensures var items := Trace(c, code, address);
            SizeSum(items) <= StepSum(items) && (SizeSum(items) == StepSum(items) <==> NoneClipped(items))
  {
    var items := Trace(c, code, address);
    forall i | 0 <= i < |items| ensures items[i].insn.size == Min(BYTES_FIELD, items[i].step) {
      SizesAreClipped(c, code, address, i);
    }
    ClippedSizes(items);
  }

  // Exactly then the stored bytes, put together, are the bytes consumed.
  lemma {:induction false} BytesReassemble(c: Config, code: Text, address: nat)
    requires ConfigOk(c)
    ensures var items := Trace(c, code, address);
            && StepSum(items) <= |code|
            && (AllBytes(items) == code[..StepSum(items)] <==> NoneClipped(items))
  {
    TraceFits(c, code, address);
    SizesTile(c, code, address);
    BytesWhole(c, code, address);
    BytesLength(c, code, address);
  }

  lemma {:induction false} BytesLength(c: Config, code: Text, address: nat)
    requires ConfigOk(c)
    ensures |AllBytes(Trace(c, code, address))| == SizeSum(Trace(c, code, address))
    decreases |code|
  {
    match StepAt(c, code, address)
    case None =>
    case Some(item) =>
      var more := Trace(c, code[item.step..], Advance(address, item.step));
      BytesLength(c, code[item.step..], Advance(address, item.step));
      assert ([item] + more)[1..] == more;
  }

  lemma {:induction false} BytesWhole(c: Config, code: Text, address: nat)
    requires ConfigOk(c)
    ensures var items := Trace(c, code, address);
            && StepSum(items) <= |code|
            && (SizeSum(items) == StepSum(items) ==> AllBytes(items) == code[..StepSum(items)])
    decreases |code|
  {
    TraceFits(c, code, address);
    match StepAt(c, code, address)
    case None =>
    case Some(item) =>
      var rest, address' := code[item.step..], Advance(address, item.step);
      BytesWhole(c, rest, address');
      SizesTile(c, rest, address');
      BytesPrepend(item, code, Trace(c, rest, address'));
  }

  lemma BytesPrepend(item: Item, code: Text, more: seq<Item>)
    requires 1 <= item.step <= |code| && item.insn.size <= item.step
    requires item.insn.bytes == code[item.step - item.insn.size..item.step]
    requires StepSum(more) <= |code| - item.step && SizeSum(more) <= StepSum(more)
    requires SizeSum(more) == StepSum(more) ==> AllBytes(more) == code[item.step..][..StepSum(more)]
    ensures var items := [item] + more;
            SizeSum(items) == StepSum(items) ==> AllBytes(items) == code[..StepSum(items)]
  {
    assert ([item] + more)[1..] == more;
    SplitPrefix(code, item.step, StepSum(more));
  }

  lemma SplitPrefix(code: Text, n: nat, m: nat)
    requires n + m <= |code|
    ensures code[0..n] + code[n..][..m] == code[..n + m]
  {
  }

  // A decoder of instructions of at most `longest` bytes; the x86 decoder rejects
  // instructions of more than 15.
  ghost predicate DecodesAtMost(decode: Decoder, longest: nat) {
    forall code, address :: decode(code, address).Some? ==> decode(code, address).value.step <= longest
  }

  lemma {:induction false} ShortSteps(c: Config, code: Text, address: nat, i: nat)
    requires ConfigOk(c) && DecodesAtMost(c.decode, BYTES_FIELD) && i < |Trace(c, code, address)|
    ensures Trace(c, code, address)[i].step <= BYTES_FIELD
    decreases |code|
  {
    var item := StepAt(c, code, address).value;
    if i > 0 { ShortSteps(c, code[item.step..], Advance(address, item.step), i - 1); }
  }

  // So on x86 with SKIPDATA no byte of the buffer is lost: the bytes of the
  // entries, put together, are the whole buffer.
  lemma {:induction false} X86LosesNothing(c: Config, code: Text, address: nat)
    requires ConfigOk(c) && c.arch == X86 && c.skipdata && address < ADDRESS_SPACE
    requires DecodesAtMost(c.decode, 15)
    ensures AllBytes(Trace(c, code, address)) == code
  {
    var items := Trace(c, code, address);
    assert DecodesAtMost(c.decode, BYTES_FIELD);
    forall i | 0 <= i < |items| ensures items[i].step <= BYTES_FIELD {
      ShortSteps(c, code, address, i);
    }
    SkipdataCovers(c, code, address);
    BytesReassemble(c, code, address);
    assert code[..|code|] == code;
  }

  // ------------------------------------------------- what the entries say

  function HexValue(c: Byte): Option<nat> {
    if 48 <= c <= 57 then Some(c - 48)
    else if 97 <= c <= 102 then Some(c - 87)
    else None
  }

  // Reads bytes written as 0x1f, with a comma and a space between two of them.
  function ParseBytes(s: Text): Option<Text>
    decreases |s|
  {
    if |s| < 4 || s[..2] != [48, 120] || HexValue(s[2]).None? || HexValue(s[3]).None? then None
    else
      var b := HexValue(s[2]).value * 16 + HexValue(s[3]).value;
      if |s| == 4 then Some([b])
      else if |s| < 6 || s[4..6] != [44, 32] then None
      else
        var more := ParseBytes(s[6..]);
        if more.None? then None else Some([b] + more.value)
  }

  lemma {:induction false} OperandsFront(bytes: Text)
    requires |bytes| >= 2
    ensures DataOperands(bytes) == HexByte(bytes[0]) + [44, 32] + DataOperands(bytes[1..])
    decreases |bytes|
  {
    hide HexByte;
    var n := |bytes| - 1;
    var init, rest := bytes[..n], bytes[1..];
    if n == 1 {
      assert init == [bytes[0]] && rest == [bytes[1]];
    } else {
      OperandsFront(init);
      assert init[1..] == rest[..n - 1] && rest[n - 1] == bytes[n];
    }
  }

  lemma ParseByte(b: Byte, more: Text)
    ensures ParseBytes(HexByte(b)) == Some([b])
    ensures ParseBytes(HexByte(b) + [44, 32] + more) ==
            if ParseBytes(more).None? then None else Some([b] + ParseBytes(more).value)
  {
    assert HexValue(HexDigit(b / 16)) == Some(b / 16) && HexValue(HexDigit(b % 16)) == Some(b % 16);
    var s := HexByte(b) + [44, 32] + more;
    assert HexByte(b)[..2] == [48, 120] && s[..2] == [48, 120] && s[4..6] == [44, 32] && s[6..] == more;
  }

  // The operands of a data entry read back to its bytes.
  lemma {:induction false} OperandsReadBack(bytes: Text)
    requires bytes != []
    ensures ParseBytes(DataOperands(bytes)) == Some(bytes)
    decreases |bytes|
  {
    hide HexByte, ParseBytes;
    if |bytes| == 1 {
      ParseByte(bytes[0], []);
      assert bytes == [bytes[0]];
    } else {
      OperandsFront(bytes);
      OperandsReadBack(bytes[1..]);
      ParseByte(bytes[0], DataOperands(bytes[1..]));
      assert [bytes[0]] + bytes[1..] == bytes;
    }
  }

  // What the entry for the front of a buffer says: the decoder's instruction, or
  // data where the decoder fails and SKIPDATA is on.
  ghost predicate Reports(c: Config, item: Item, code: Text, address: nat) {
    && item.insn.address == address && 1 <= item.step <= |code|
    && match c.decode(code, address)
       case Some(d) =>
         && item.step == d.step && item.insn.id == d.id
         && item.insn.mnemonic == d.mnemonic && item.insn.opStr == d.opStr
         && item.insn.size == (if d.step < 16 then d.step else 16)
         && item.insn.bytes == code[d.step - item.insn.size..d.step]
       case None =>
         && c.skipdata && item.step == c.skipdataSize == item.insn.size && item.insn.id == 0
         && item.insn.mnemonic == c.skipMnemonic
         && item.insn.bytes == code[..item.step]
         && ParseBytes(item.insn.opStr) == Some(code[..item.step])
  }

  lemma StepReports(c: Config, code: Text, address: nat)
    requires ConfigOk(c) && StepAt(c, code, address).Some?
    ensures Reports(c, StepAt(c, code, address).value, code, address)
  {
    hide ParseBytes, DataOperands;
    if c.decode(code, address).None? { OperandsReadBack(code[..c.skipdataSize]); }
  }

  // Every entry says what stands at its place in the buffer, at the address that
  // place has.
  lemma {:induction false} EntriesReport(c: Config, code: Text, address: nat, i: nat)
    requires ConfigOk(c) && address < ADDRESS_SPACE && i < |Trace(c, code, address)|
    ensures var items := Trace(c, code, address);
            var n := StepSum(items[..i]);
            n <= |code| && Reports(c, items[i], code[n..], (address + n) % 0x1_0000_0000_0000_0000)
    decreases |code|
  {
    hide Reports;
    var items := Trace(c, code, address);
    var item := StepAt(c, code, address).value;
    var rest, address' := code[item.step..], Advance(address, item.step);
    var more := Trace(c, rest, address');
    if i == 0 {
      StepReports(c, code, address);
      assert code[0..] == code && items[..0] == [];
    } else {
      EntriesReport(c, rest, address', i - 1);
      assert items[..i][1..] == more[..i - 1];
      var n := StepSum(more[..i - 1]);
      assert rest[n..] == code[item.step + n..];
      AdvanceTwice(address, item.step, n);
    }
  }

  // After the last entry the decoder fails, and SKIPDATA is off or wants more
  // bytes than are left.
  lemma TraceEnds(c: Config, code: Text, address: nat)
    requires ConfigOk(c) && address < ADDRESS_SPACE
    ensures var n := StepSum(Trace(c, code, address));
            && n <= |code|
            && c.decode(code[n..], (address + n) % 0x1_0000_0000_0000_0000).None?
            && (!c.skipdata || |code| - n < c.skipdataSize)
  {
    StopsWhereStuck(c, code, address);
  }

  // SKIPDATA skips one byte on x86, two on SystemZ and XCore, four on ARM64, MIPS,
  // PowerPC and SPARC, and two or four on ARM; so that many bytes less one is the
  // most that can stay uncovered.
  lemma UncoveredBytes(c: Config, code: Text, address: nat)
    requires ConfigOk(c) && c.skipdata && address < ADDRESS_SPACE
    ensures var n := StepSum(Trace(c, code, address));
            && n <= |code|
            && (c.arch == X86 ==> n == |code|)
            && (c.arch == SYSZ || c.arch == XCORE ==> |code| - n <= 1)
            && (c.arch in {ARM, ARM64, MIPS, PPC, SPARC} ==> |code| - n <= 3)
  {
    SkipdataCovers(c, code, address);
  }

  // The alignment of instructions.
  function Alignment(arch: Arch): nat {
    match arch
    case X86 => 1
    case ARM | SYSZ | XCORE => 2
    case ARM64 | MIPS | PPC | SPARC => 4
  }

  // The decoder consumes whole units.
  ghost predicate DecodesUnits(decode: Decoder, unit: nat)
    requires unit > 0
  {
    forall code, address ::
      decode(code, address).Some? ==> decode(code, address).value.step % unit == 0
  }

  lemma AlignedSum(a: nat, b: nat, unit: nat)
    requires unit in {1, 2, 4} && a % unit == 0 && b % unit == 0
    ensures (a + b) % unit == 0
  {
  }

  // Skipping data never takes the disassembly off the alignment.
  lemma {:induction false} EntriesAligned(c: Config, code: Text, address: nat, i: nat)
    requires ConfigOk(c) && i <= |Trace(c, code, address)| && DecodesUnits(c.decode, Alignment(c.arch))
    ensures StepSum(Trace(c, code, address)[..i]) % Alignment(c.arch) == 0
    decreases |code|
  {
    var items := Trace(c, code, address);
    if i > 0 {
      var item := StepAt(c, code, address).value;
      var more := Trace(c, code[item.step..], Advance(address, item.step));
      EntriesAligned(c, code[item.step..], Advance(address, item.step), i - 1);
      assert items[..i][1..] == more[..i - 1];
      assert item.step % Alignment(c.arch) == 0;
      AlignedSum(item.step, StepSum(more[..i - 1]), Alignment(c.arch));
    }
  }
}
