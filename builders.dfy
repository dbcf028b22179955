/** The test bodies' construction of an expected state, step by step as the
    tests do it: copy the state before the instruction, then update the
    copy in place through the oracle's writers. Each builder is proved to
    produce the expected state its specification function describes; the
    state before the instruction is never modified. */
module Builders {
  import opened Domain
  import opened Bits
  import opened Flags
  import opened AbstractState
  import opened Oracle
  import opened Expectations

  method ExpectXorRegSelf(before: State, reg: string) returns (r: Result<State>)
    ensures Realizes(r, XorRegSelf(before.Snap(), reg))
    ensures r.Ok? ==> fresh(r.value)
  {
    var expected :- PrepareExpectedState(before);
    expected.address := expected.address + 2;
    SetReg(expected, reg, 0);
    ClearFlag(expected, "sf");
    ClearFlag(expected, "of");
    ClearFlag(expected, "cf");
    UndefBitFlag(expected, "af");
    SetFlag(expected, "zf");
    SetFlag(expected, "pf");
    return Ok(expected);
  }

  /** test_inc with delta 1, test_dec with delta -1. */
  method ExpectIncDec(before: State, reg: string, delta: int) returns (r: Result<State>)
    ensures Realizes(r, IncDec(before.Snap(), reg, delta))
    ensures r.Ok? ==> fresh(r.value)
  {
    var expected :- PrepareExpectedState(before);
    expected.address := expected.address + 1;
    var c :- FirstCell(expected.mapping, Register(reg));
    expected.mapping := SetFirst(expected.mapping, Register(reg), AddValue(c, delta));
    var regvalue := before.mapping[Register(reg)][0].value;
    var newregvalue := expected.mapping[Register(reg)][0].value;
    CalcAf(expected, regvalue, newregvalue, delta);
    CalcPf(expected, newregvalue);
    CalcSf(expected, newregvalue);
    CalcZf(expected, newregvalue);
    ClearFlag(expected, "of");
    return Ok(expected);
  }

  method ExpectPush(before: State, reg: string) returns (r: Result<State>)
    ensures Realizes(r, Push(before.Snap(), reg))
    ensures r.Ok? ==> fresh(r.value)
  {
    var expected :- PrepareExpectedState(before);
    expected.address := expected.address + 1;
    var esp :- FirstCell(expected.mapping, Register("esp"));
    expected.mapping := SetFirst(expected.mapping, Register("esp"), AddValue(esp, -4));
    var slot := Memory(S, expected.mapping[Register("esp")][0].value);
    var pushed :- Lookup(before.mapping, Register(reg));
    expected.mapping := expected.mapping[slot := pushed];
    return Ok(expected);
  }

  method ExpectPop(before: State, reg: string) returns (r: Result<State>)
    ensures Realizes(r, Pop(before.Snap(), reg))
    ensures r.Ok? ==> fresh(r.value)
  {
    var expected :- PrepareExpectedState(before);
    expected.address := expected.address + 1;
    var esp :- FirstCell(expected.mapping, Register("esp"));
    expected.mapping := SetFirst(expected.mapping, Register("esp"), AddValue(esp, 4));
    var slot := Memory(S, before.mapping[Register("esp")][0].value);
    var popped :- Lookup(before.mapping, slot);
    expected.mapping := expected.mapping[Register(reg) := popped];
    return Ok(expected);
  }

  method ExpectOrRegFf(before: State, reg: string) returns (r: Result<State>)
    ensures Realizes(r, OrRegFf(before.Snap(), reg))
    ensures r.Ok? ==> fresh(r.value)
  {
    var expected :- PrepareExpectedState(before);
    expected.address := expected.address + 3;
    SetReg(expected, reg, 0xffff_ffff);
    UndefBitFlag(expected, "af");
    CalcPf(expected, 0xffff_ffff);
    CalcSf(expected, 0xffff_ffff);
    CalcZf(expected, 0xffff_ffff);
    ClearFlag(expected, "of");
    ClearFlag(expected, "cf");
    return Ok(expected);
  }

  method ExpectAndEsp(before: State) returns (r: Result<State>)
    ensures Realizes(r, AndEsp(before.Snap()))
    ensures r.Ok? ==> fresh(r.value)
  {
    var expected :- PrepareExpectedState(before);
    var c :- FirstCell(expected.mapping, Register("esp"));
    expected.mapping := SetFirst(expected.mapping, Register("esp"), c.(value := And(c.value, 0xffff_fff0)));
    var esp := expected.mapping[Register("esp")][0].value;
    UndefBitFlag(expected, "af");
    ClearFlag(expected, "of");
    ClearFlag(expected, "cf");
    CalcZf(expected, esp);
    CalcSf(expected, esp);
    CalcPf(expected, esp);
    return Ok(expected);
  }

  /** test_movzx; observed is the address of the state the analyzer
      reached. */
  method ExpectMovzx(before: State, observed: int) returns (r: Result<State>)
    ensures Realizes(r, Movzx(before.Snap(), observed))
    ensures r.Ok? ==> fresh(r.value)
  {
    var expected :- PrepareExpectedState(before);
    expected.address := observed;
    var c :- FirstCell(expected.mapping, Register("edx"));
    c := c.(value := And(c.value, 0xff));
    c := c.(vtop := And(c.vtop, 0xff));
    c := c.(taint := And(c.taint, 0xff));
    c := c.(ttop := And(c.ttop, 0xff));
    expected.mapping := SetFirst(expected.mapping, Register("edx"), c);
    return Ok(expected);
  }

  method ExpectByteLoad(before: State, observed: int) returns (r: Result<State>)
    ensures Realizes(r, ByteLoad(before.Snap(), observed))
    ensures r.Ok? ==> fresh(r.value)
  {
    var expected :- PrepareExpectedState(before);
    expected.address := observed;
    var v :- FirstCell(before.mapping, Memory(G, 0x100));
    var c :- FirstCell(expected.mapping, Register("eax"));
    c := c.(value := And(v.value, 0xff));
    c := c.(vtop := And(v.vtop, 0xff));
    c := c.(taint := And(v.taint, 0xff));
    c := c.(ttop := And(v.ttop, 0xff));
    expected.mapping := SetFirst(expected.mapping, Register("eax"), c);
    return Ok(expected);
  }

  /** test_movzx_byte_taintptr and test_mov_byte_taintptr. */
  method ExpectByteLoadTaintPtr(before: State, observed: int) returns (r: Result<State>)
    ensures Realizes(r, ByteLoadTaintPtr(before.Snap(), observed))
    ensures r.Ok? ==> fresh(r.value)
  {
    var expected :- PrepareExpectedState(before);
    expected.address := observed;
    var v :- FirstCell(before.mapping, Memory(G, 1));
    var c :- FirstCell(expected.mapping, Register("eax"));
    c := c.(value := And(v.value, 0xff));
    c := c.(vtop := And(v.vtop, 0xff));
    c := c.(taint := 0xff);
    c := c.(ttop := 0);
    expected.mapping := SetFirst(expected.mapping, Register("eax"), c);
    return Ok(expected);
  }

  method ExpectMovRegEbpm6(before: State, reg: string) returns (r: Result<State>)
    ensures Realizes(r, MovRegEbpm6(before.Snap(), reg))
    ensures r.Ok? ==> fresh(r.value)
  {
    var expected :- PrepareExpectedState(before);
    expected.address := expected.address + 3;
    var ebp :- FirstCell(before.mapping, Register("ebp"));
    var loaded :- DereferenceData(before, AddValue(ebp, -6));
    if loaded.None? {
      return Err(NoneEntry(Register(reg)));
    }
    expected.mapping := expected.mapping[Register(reg) := loaded.value];
    return Ok(expected);
  }

  /** test_mov_ebp_reg: Ok(None) where the analysis must have no successor
      state. */
  method ExpectMovEbpReg(before: State, reg: string) returns (r: Result<Option<State>>)
    ensures RealizesStep(r, MovEbpReg(before.Snap(), reg))
    ensures r.Ok? && r.value.Some? ==> fresh(r.value.value)
  {
    var expected :- PrepareExpectedState(before);
    expected.address := expected.address + 2;
    var p :- FirstCell(before.mapping, Register(reg));
    var newvalue :- DereferenceData(before, p);
    if newvalue.None? {
      return Ok(None);
    }
    expected.mapping := expected.mapping[Register("ebp") := newvalue.value];
    return Ok(Some(expected));
  }
}
