/** The expected states the single-instruction tests build, as functions of
    the state before the instruction, and what each of them promises. */
module Expectations {
  import opened Domain
  import opened Bits
  import opened Flags
  import opened NodeIds
  import opened AbstractState
  import opened Oracle

  // ---------------------------------------------------------------------
  // Vocabulary for the effects

  /** The status-flag registers `xor`, `or` and `and` write. */
  const LogicFlags: set<Location> :=
    {Register("af"), Register("pf"), Register("sf"), Register("zf"), Register("of"), Register("cf")}

  /** The status-flag registers `inc` and `dec` write. */
  const ArithFlags: set<Location> :=
    {Register("af"), Register("pf"), Register("sf"), Register("zf"), Register("of")}

  /** t is m with the locations in w written (added or replaced) and every
      other location kept. */
  ghost predicate OnlyWrites(m: Mapping, t: Mapping, w: set<Location>) {
    t.Keys == m.Keys + w && forall l :: l in m && l !in w ==> t[l] == m[l]
  }

  /** t's node id is the one after s's, spelled as `str` spells it. */
  ghost predicate NextNode(s: Snapshot, t: Snapshot) {
    ParseDecimal(s.nodeId).Some? && ParseDecimal(t.nodeId) == Some(ParseDecimal(s.nodeId).value + 1)
    && CanonicalPositive(t.nodeId)
  }

  /** No general-purpose register is a status flag. */
  lemma GeneralIsNotFlag(reg: string)
    requires reg in GeneralRegisters
    ensures Register(reg) !in LogicFlags && reg !in StatusFlags
  {
  }

  // ---------------------------------------------------------------------
  // The expected states

  /** test_xor_reg_self: `xor reg,reg` (two bytes). */
  function XorRegSelf(s: Snapshot, reg: string): Result<Snapshot> {
    var e :- Prepare(s);
    var m1 := WithReg(e.mapping, reg, 0, 0);
    var m2 := WithFlag(m1, "sf", 0);
    var m3 := WithFlag(m2, "of", 0);
    var m4 := WithFlag(m3, "cf", 0);
    var m5 := WithFlagUndefined(m4, "af");
    var m6 := WithFlag(m5, "zf", 1);
    var m7 := WithFlag(m6, "pf", 1);
    Ok(Snapshot(e.nodeId, e.address + 2, m7))
  }

  /** test_inc (delta 1) and test_dec (delta -1): one byte; the register's
      first cell moves by delta, then af, pf, sf and zf are calculated from
      the old and new values and of is cleared. */
  function IncDec(s: Snapshot, reg: string, delta: int): Result<Snapshot> {
    var e :- Prepare(s);
    var c :- FirstCell(e.mapping, Register(reg));
    var n := AddValue(c, delta);
    var m1 := SetFirst(e.mapping, Register(reg), n);
    var m2 := WithReg(m1, "af", AfOf(delta, c.value, n.value), 0);
    var m3 := WithReg(m2, "pf", PfSpec(n.value), 0);
    var m4 := WithReg(m3, "sf", SfOf(n.value), 0);
    var m5 := WithReg(m4, "zf", ZfOf(n.value), 0);
    var m6 := WithFlag(m5, "of", 0);
    Ok(Snapshot(e.nodeId, e.address + 1, m6))
  }

  /** test_push: one byte; esp's first cell moves down by 4 and the stack
      slot at the new esp value receives the pushed register's list as it
      was before the instruction. */
  function Push(s: Snapshot, reg: string): Result<Snapshot> {
    var e :- Prepare(s);
    var c :- FirstCell(e.mapping, Register("esp"));
    var n := AddValue(c, -4);
    var m1 := SetFirst(e.mapping, Register("esp"), n);
    var pushed :- Lookup(s.mapping, Register(reg));
    Ok(Snapshot(e.nodeId, e.address + 1, m1[Memory(S, n.value) := pushed]))
  }

  /** test_pop: one byte; esp's first cell moves up by 4 and the register
      receives the list stored at the stack slot of the old esp value. */
  function Pop(s: Snapshot, reg: string): Result<Snapshot> {
    var e :- Prepare(s);
    var c :- FirstCell(e.mapping, Register("esp"));
    var m1 := SetFirst(e.mapping, Register("esp"), AddValue(c, 4));
    var popped :- Lookup(s.mapping, Memory(S, c.value));
    Ok(Snapshot(e.nodeId, e.address + 1, m1[Register(reg) := popped]))
  }

  /** test_or_reg_ff: `or reg,0xffffffff` (three bytes). */
  function OrRegFf(s: Snapshot, reg: string): Result<Snapshot> {
    var e :- Prepare(s);
    var m1 := WithReg(e.mapping, reg, 0xffff_ffff, 0);
    var m2 := WithFlagUndefined(m1, "af");
    var m3 := WithReg(m2, "pf", PfSpec(0xffff_ffff), 0);
    var m4 := WithReg(m3, "sf", SfOf(0xffff_ffff), 0);
    var m5 := WithReg(m4, "zf", ZfOf(0xffff_ffff), 0);
    var m6 := WithFlag(m5, "of", 0);
    var m7 := WithFlag(m6, "cf", 0);
    Ok(Snapshot(e.nodeId, e.address + 3, m7))
  }

  /** test_and_esp: `and esp,0xfffffff0`; the address is not advanced. */
  function AndEsp(s: Snapshot): Result<Snapshot> {
    var e :- Prepare(s);
    var c :- FirstCell(e.mapping, Register("esp"));
    var esp := And(c.value, 0xffff_fff0);
    var m1 := SetFirst(e.mapping, Register("esp"), c.(value := esp));
    var m2 := WithFlagUndefined(m1, "af");
    var m3 := WithFlag(m2, "of", 0);
    var m4 := WithFlag(m3, "cf", 0);
    var m5 := WithReg(m4, "zf", ZfOf(esp), 0);
    var m6 := WithReg(m5, "sf", SfOf(esp), 0);
    var m7 := WithReg(m6, "pf", PfSpec(esp), 0);
    Ok(Snapshot(e.nodeId, e.address, m7))
  }

  /** The low byte of a cell's value, value top, taint and taint top. */
  function LowByte(c: Cell): Cell {
    c.(value := And(c.value, 0xff), vtop := And(c.vtop, 0xff),
       taint := And(c.taint, 0xff), ttop := And(c.ttop, 0xff))
  }

  /** test_movzx: `movzx edx,dl`; the expected address is the one the
      analyzer reached (observed). */
  function Movzx(s: Snapshot, observed: int): Result<Snapshot> {
    var e :- Prepare(s);
    var c :- FirstCell(e.mapping, Register("edx"));
    Ok(Snapshot(e.nodeId, observed, SetFirst(e.mapping, Register("edx"), LowByte(c))))
  }

  /** test_movzx_byte: `mov eax,0x100; movzx eax,byte [eax]`; eax's first
      cell takes the low byte of the first cell stored at global address
      0x100, keeping its own region, width and bottoms. */
  function ByteLoad(s: Snapshot, observed: int): Result<Snapshot> {
    var e :- Prepare(s);
    var v :- FirstCell(s.mapping, Memory(G, 0x100));
    var c :- FirstCell(e.mapping, Register("eax"));
    var b := LowByte(v);
    var n := c.(value := b.value, vtop := b.vtop, taint := b.taint, ttop := b.ttop);
    Ok(Snapshot(e.nodeId, observed, SetFirst(e.mapping, Register("eax"), n)))
  }

  /** test_movzx_byte_taintptr and test_mov_byte_taintptr: a byte loaded
      through eax, whose pointer to global address 1 is tainted; the loaded
      byte is fully tainted (taint 0xff, no taint top). */
  function ByteLoadTaintPtr(s: Snapshot, observed: int): Result<Snapshot> {
    var e :- Prepare(s);
    var v :- FirstCell(s.mapping, Memory(G, 1));
    var c :- FirstCell(e.mapping, Register("eax"));
    var n := c.(value := And(v.value, 0xff), vtop := And(v.vtop, 0xff), taint := 0xff, ttop := 0);
    Ok(Snapshot(e.nodeId, observed, SetFirst(e.mapping, Register("eax"), n)))
  }

  /** test_mov_reg_ebpm6: `mov reg,[ebp-0x6]` (three bytes); the register
      receives what dereferencing ebp's first cell minus 6 loads. The code
      stores None when the pointer is bottom, which no state can hold. */
  function MovRegEbpm6(s: Snapshot, reg: string): Result<Snapshot> {
    var e :- Prepare(s);
    var b :- FirstCell(s.mapping, Register("ebp"));
    var loaded :- Dereference(s.mapping, AddValue(b, -6));
    match loaded
    case None => Err(NoneEntry(Register(reg)))
    case Some(cells) => Ok(Snapshot(e.nodeId, e.address + 3, e.mapping[Register(reg) := cells]))
  }

  /** test_mov_ebp_reg: `mov ebp,[reg]` (two bytes); None when the pointer
      is bottom, where the analysis is expected to have no successor. */
  function MovEbpReg(s: Snapshot, reg: string): Result<Option<Snapshot>> {
    var e :- Prepare(s);
    var p :- FirstCell(s.mapping, Register(reg));
    var loaded :- Dereference(s.mapping, p);
    match loaded
    case None => Ok(None)
    case Some(cells) => Ok(Some(Snapshot(e.nodeId, e.address + 2, e.mapping[Register("ebp") := cells])))
  }
}
