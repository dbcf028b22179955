/** What the expected states promise, proved for every state before the
    instruction. */
module Properties {
  import opened Domain
  import opened Bits
  import opened Flags
  import opened NodeIds
  import opened AbstractState
  import opened Oracle
  import opened Expectations

  // ---------------------------------------------------------------------
  // The flags of the two constant results

  /** 0 has no set bit: its parity is even. */
  lemma ParityOfZero()
    ensures PfSpec(0) == 1
  {
    forall i: nat | i < 8 ensures Bit(0, i) == 0 {
      BitOfZero(i);
    }
    CountBits8(0);
  }

  /** 0xffffffff has eight set bits in its low byte: its parity is even. */
  lemma ParityOfAllOnes()
    ensures PfSpec(0xffff_ffff) == 1
  {
    Pow2Values();
    forall i: nat | i < 8 ensures Bit(0xffff_ffff, i) == 1 {
      BitOfRange(0, 32, i);
    }
    CountBits8(0xffff_ffff);
  }

  // ---------------------------------------------------------------------
  // xor reg,reg

  /** `xor reg,reg` zeroes the register, sets zf and pf, clears sf, of and
      cf, leaves af undefined, and writes nothing else. */
  lemma XorRegSelfEffect(s: Snapshot, reg: string)
    requires reg in GeneralRegisters
    ensures XorRegSelf(s, reg).Ok? <==> ParseDecimal(s.nodeId).Some?
    ensures XorRegSelf(s, reg).Err? ==> XorRegSelf(s, reg).error == BadNodeId(s.nodeId)
    ensures XorRegSelf(s, reg).Ok? ==>
              var t := XorRegSelf(s, reg).value;
              NextNode(s, t) && t.address == s.address + 2
              && OnlyWrites(s.mapping, t.mapping, {Register(reg)} + LogicFlags)
              && t.mapping[Register(reg)] == [RegCell(reg, 0, 0)]
              && t.mapping[Register("zf")] == [FlagCell("zf", 1)]
              && t.mapping[Register("pf")] == [FlagCell("pf", 1)]
              && t.mapping[Register("sf")] == [FlagCell("sf", 0)]
              && t.mapping[Register("of")] == [FlagCell("of", 0)]
              && t.mapping[Register("cf")] == [FlagCell("cf", 0)]
              && t.mapping[Register("af")] == [UndefinedFlagCell("af")]
  {
    if ParseDecimal(s.nodeId).Some? {
      var t := XorRegSelf(s, reg).value;
      XorRegSelfWrites(s, reg);
      GeneralIsNotFlag(reg);
      assert t.mapping[Register(reg)] == [RegCell(reg, 0, 0)];
    }
  }

  lemma XorRegSelfWrites(s: Snapshot, reg: string)
    requires XorRegSelf(s, reg).Ok?
    ensures var t := XorRegSelf(s, reg).value;
            OnlyWrites(s.mapping, t.mapping, {Register(reg)} + LogicFlags)
  {
    var e := Prepare(s).value;
    var m := e.mapping;
    var m1 := WithReg(m, reg, 0, 0);
    var m2 := WithFlag(m1, "sf", 0);
    var m3 := WithFlag(m2, "of", 0);
    var m4 := WithFlag(m3, "cf", 0);
    var m5 := WithFlagUndefined(m4, "af");
    var m6 := WithFlag(m5, "zf", 1);
    var m7 := WithFlag(m6, "pf", 1);
    var t := XorRegSelf(s, reg).value;
    assert t.mapping == m7;
    forall l | l in m && l !in {Register(reg)} + LogicFlags
      ensures t.mapping[l] == m[l]
    {
    }
  }

  /** The flags `xor reg,reg` expects are the ones the calculators give
      for its result 0. */
  lemma XorRegSelfFlagsAgreeWithCalculators(s: Snapshot, reg: string)
    requires reg in GeneralRegisters && XorRegSelf(s, reg).Ok?
    ensures var t := XorRegSelf(s, reg).value;
            t.mapping[Register("zf")] == [RegCell("zf", ZfOf(0), 0)]
            && t.mapping[Register("pf")] == [RegCell("pf", PfSpec(0), 0)]
            && t.mapping[Register("sf")] == [RegCell("sf", SfOf(0), 0)]
  {
    ParityOfZero();
    SfIsSign(0);
  }

  // ---------------------------------------------------------------------
  // inc reg and dec reg

  /** `inc` (delta 1) and `dec` (delta -1) move the register's first cell
      by delta modulo 2^32, keeping its other fields and the rest of its
      list; af is 0, pf, sf and zf describe the new value and of is 0;
      nothing else is written. A missing register or an empty list is the
      test's KeyError or IndexError. */
  lemma IncDecEffect(s: Snapshot, reg: string, delta: int)
    requires reg in GeneralRegisters
    ensures IncDec(s, reg, delta).Ok? <==>
              ParseDecimal(s.nodeId).Some? && Register(reg) in s.mapping && |s.mapping[Register(reg)]| > 0
    ensures IncDec(s, reg, delta).Err? ==>
              IncDec(s, reg, delta).error ==
                if ParseDecimal(s.nodeId).None? then BadNodeId(s.nodeId)
                else if Register(reg) !in s.mapping then MissingLocation(Register(reg))
                else EmptyEntry(Register(reg))
    ensures IncDec(s, reg, delta).Ok? ==>
              var t := IncDec(s, reg, delta).value;
              var before := s.mapping[Register(reg)];
              var v := (before[0].value + delta) % Modulus32;
              NextNode(s, t) && t.address == s.address + 1
              && OnlyWrites(s.mapping, t.mapping, {Register(reg)} + ArithFlags)
              && t.mapping[Register(reg)] == [before[0].(value := v)] + before[1..]
              && t.mapping[Register("af")] == [RegCell("af", 0, 0)]
              && t.mapping[Register("pf")] == [RegCell("pf", PfSpec(v), 0)]
              && t.mapping[Register("sf")] == [RegCell("sf", Bit(v, 31), 0)]
              && t.mapping[Register("zf")] == [RegCell("zf", if v == 0 then 1 else 0, 0)]
              && t.mapping[Register("of")] == [FlagCell("of", 0)]
  {
    if IncDec(s, reg, delta).Ok? {
      var c := s.mapping[Register(reg)][0];
      AfAlwaysZero(delta, c.value, AddValue(c, delta).value);
      IncDecWrites(s, reg, delta);
      GeneralIsNotFlag(reg);
    }
  }

  lemma IncDecWrites(s: Snapshot, reg: string, delta: int)
    requires IncDec(s, reg, delta).Ok?
    ensures var t := IncDec(s, reg, delta).value;
            OnlyWrites(s.mapping, t.mapping, {Register(reg)} + ArithFlags)
  {
    var e := Prepare(s).value;
    var m := e.mapping;
    var c := m[Register(reg)][0];
    var n := AddValue(c, delta);
    var m1 := SetFirst(m, Register(reg), n);
    var m2 := WithReg(m1, "af", AfOf(delta, c.value, n.value), 0);
    var m3 := WithReg(m2, "pf", PfSpec(n.value), 0);
    var m4 := WithReg(m3, "sf", SfOf(n.value), 0);
    var m5 := WithReg(m4, "zf", ZfOf(n.value), 0);
    var m6 := WithFlag(m5, "of", 0);
    var t := IncDec(s, reg, delta).value;
    assert t.mapping == m6;
    forall l | l in m && l !in {Register(reg)} + ArithFlags
      ensures t.mapping[l] == m[l]
    {
    }
  }

  /** For a 32-bit register, zf is set exactly when `inc` wraps 0xffffffff
      round to 0, or `dec` brings 1 down to 0. */
  lemma IncDecZeroFlag(s: Snapshot, reg: string, delta: int)
    requires reg in GeneralRegisters && (delta == 1 || delta == -1)
    requires IncDec(s, reg, delta).Ok? && 0 <= s.mapping[Register(reg)][0].value < Modulus32
    ensures IncDec(s, reg, delta).value.mapping[Register("zf")][0].value == 1 <==>
              s.mapping[Register(reg)][0].value == (if delta == 1 then 0xffff_ffff else 1)
  {
    var v := (s.mapping[Register(reg)][0].value + delta) % Modulus32;
    assert IncDec(s, reg, delta).value.mapping[Register("zf")][0].value == if v == 0 then 1 else 0 by {
      IncDecEffect(s, reg, delta);
    }
    StepWrapsToZero(s.mapping[Register(reg)][0].value, delta);
  }

  /** A 32-bit value moved by one step reaches 0 modulo 2^32 only from
      0xffffffff upwards or from 1 downwards. */
  lemma StepWrapsToZero(x: int, delta: int)
    requires 0 <= x < Modulus32 && (delta == 1 || delta == -1)
    ensures (x + delta) % Modulus32 == 0 <==> x == (if delta == 1 then 0xffff_ffff else 1)
  {
    if x + delta == Modulus32 {
      DivModUnique(x + delta, Modulus32, 1, 0);
    } else if x + delta == -1 {
      DivModUnique(x + delta, Modulus32, -1, Modulus32 - 1);
    } else {
      DivModUnique(x + delta, Modulus32, 0, x + delta);
    }
  }

  /** sf after `inc` or `dec` is the sign of the new value read as a
      signed 32-bit integer. */
  lemma IncDecSignFlag(s: Snapshot, reg: string, delta: int)
    requires reg in GeneralRegisters && IncDec(s, reg, delta).Ok?
    ensures var v := (s.mapping[Register(reg)][0].value + delta) % Modulus32;
            IncDec(s, reg, delta).value.mapping[Register("sf")][0].value == 1 <==> v >= 0x8000_0000
  {
    IncDecEffect(s, reg, delta);
    var v := (s.mapping[Register(reg)][0].value + delta) % Modulus32;
    SfIsSign(v);
  }

  /** `inc` then `dec` (or `dec` then `inc`) gives a 32-bit register back
      unchanged, two nodes and two bytes further on; only status flags
      differ from the state before. */
  lemma IncDecRoundTrip(s: Snapshot, reg: string, delta: int)
    requires reg in GeneralRegisters && (delta == 1 || delta == -1)
    requires IncDec(s, reg, delta).Ok? && 0 <= s.mapping[Register(reg)][0].value < Modulus32
    ensures IncDec(IncDec(s, reg, delta).value, reg, -delta).Ok?
    ensures var u := IncDec(IncDec(s, reg, delta).value, reg, -delta).value;
            u.address == s.address + 2
            && ParseDecimal(u.nodeId) == Some(ParseDecimal(s.nodeId).value + 2)
            && u.mapping.Keys == s.mapping.Keys + ArithFlags
            && forall l :: l in s.mapping && l !in ArithFlags ==> u.mapping[l] == s.mapping[l]
  {
    var t := IncDec(s, reg, delta).value;
    IncDecEffect(s, reg, delta);
    IncDecEffect(t, reg, -delta);
    var u := IncDec(t, reg, -delta).value;
    var before := s.mapping[Register(reg)];
    AddValueUndo(before[0], delta);
    assert t.mapping[Register(reg)] == [AddValue(before[0], delta)] + before[1..];
    assert u.mapping[Register(reg)] == before;
    WritesUndone(s.mapping, t.mapping, u.mapping, Register(reg), ArithFlags);
  }

  /** Two rounds of writes to k and w that leave k as it was write only w. */
  lemma WritesUndone(a: Mapping, b: Mapping, c: Mapping, k: Location, w: set<Location>)
    requires k in a && OnlyWrites(a, b, {k} + w) && OnlyWrites(b, c, {k} + w) && c[k] == a[k]
    ensures c.Keys == a.Keys + w
    ensures forall l :: l in a && l !in w ==> c[l] == a[l]
  {
  }

  // ---------------------------------------------------------------------
  // push reg and pop reg

  /** `push` moves esp's first cell down by 4 modulo 2^32 and stores the
      pushed register's list, as it was before, at the stack slot of the
      new esp value; nothing else is written. The lookups fail in the
      test's order: esp, its first cell, then the pushed register. */
  lemma PushEffect(s: Snapshot, reg: string)
    ensures Push(s, reg).Ok? <==>
              ParseDecimal(s.nodeId).Some? && Register("esp") in s.mapping
              && |s.mapping[Register("esp")]| > 0 && Register(reg) in s.mapping
    ensures Push(s, reg).Err? ==>
              Push(s, reg).error ==
                if ParseDecimal(s.nodeId).None? then BadNodeId(s.nodeId)
                else if Register("esp") !in s.mapping then MissingLocation(Register("esp"))
                else if |s.mapping[Register("esp")]| == 0 then EmptyEntry(Register("esp"))
                else MissingLocation(Register(reg))
    ensures Push(s, reg).Ok? ==>
              var t := Push(s, reg).value;
              var esp := s.mapping[Register("esp")];
              var sp := (esp[0].value - 4) % Modulus32;
              NextNode(s, t) && t.address == s.address + 1
              && OnlyWrites(s.mapping, t.mapping, {Register("esp"), Memory(S, sp)})
              && t.mapping[Register("esp")] == [esp[0].(value := sp)] + esp[1..]
              && t.mapping[Memory(S, sp)] == s.mapping[Register(reg)]
  {
    if Push(s, reg).Ok? {
      var t := Push(s, reg).value;
      var esp := s.mapping[Register("esp")];
      var sp := (esp[0].value - 4) % Modulus32;
      forall l | l in s.mapping && l !in {Register("esp"), Memory(S, sp)}
        ensures t.mapping[l] == s.mapping[l]
      {
      }
    }
  }

  /** `pop` moves esp's first cell up by 4 modulo 2^32 and gives the
      register the list stored at the stack slot of the old esp value;
      nothing else is written (when the register is esp itself, the popped
      list replaces the moved one). */
  lemma PopEffect(s: Snapshot, reg: string)
    ensures Pop(s, reg).Ok? <==>
              ParseDecimal(s.nodeId).Some? && Register("esp") in s.mapping
              && |s.mapping[Register("esp")]| > 0
              && Memory(S, s.mapping[Register("esp")][0].value) in s.mapping
    ensures Pop(s, reg).Err? ==>
              Pop(s, reg).error ==
                if ParseDecimal(s.nodeId).None? then BadNodeId(s.nodeId)
                else if Register("esp") !in s.mapping then MissingLocation(Register("esp"))
                else if |s.mapping[Register("esp")]| == 0 then EmptyEntry(Register("esp"))
                else MissingLocation(Memory(S, s.mapping[Register("esp")][0].value))
    ensures Pop(s, reg).Ok? ==>
              var t := Pop(s, reg).value;
              var esp := s.mapping[Register("esp")];
              NextNode(s, t) && t.address == s.address + 1
              && OnlyWrites(s.mapping, t.mapping, {Register("esp"), Register(reg)})
              && t.mapping[Register(reg)] == s.mapping[Memory(S, esp[0].value)]
              && (reg != "esp" ==>
                    t.mapping[Register("esp")] == [esp[0].(value := (esp[0].value + 4) % Modulus32)] + esp[1..])
  {
    if Pop(s, reg).Ok? {
      var t := Pop(s, reg).value;
      forall l | l in s.mapping && l !in {Register("esp"), Register(reg)}
        ensures t.mapping[l] == s.mapping[l]
      {
      }
    }
  }

  /** Pushing a register and popping it again restores esp and the
      register (for a 32-bit esp); what remains is the pushed list in the
      stack slot below esp. */
  lemma PushPopRoundTrip(s: Snapshot, reg: string)
    requires Push(s, reg).Ok? && 0 <= s.mapping[Register("esp")][0].value < Modulus32
    ensures Pop(Push(s, reg).value, reg).Ok?
    ensures var u := Pop(Push(s, reg).value, reg).value;
            var slot := Memory(S, (s.mapping[Register("esp")][0].value - 4) % Modulus32);
            u.address == s.address + 2
            && ParseDecimal(u.nodeId) == Some(ParseDecimal(s.nodeId).value + 2)
            && u.mapping == s.mapping[slot := s.mapping[Register(reg)]]
  {
    var t := Push(s, reg).value;
    var esp := s.mapping[Register("esp")];
    var slot := Memory(S, (esp[0].value - 4) % Modulus32);
    PushFacts(s, reg);
    PopAfterPush(s, reg);
    var u := Pop(t, reg).value;
    PushPopFrame(s.mapping, t.mapping, u.mapping, slot, reg);
  }

  /** What PushPopRoundTrip needs of the push. */
  lemma PushFacts(s: Snapshot, reg: string)
    requires Push(s, reg).Ok?
    ensures var t := Push(s, reg).value;
            var esp := s.mapping[Register("esp")];
            var slot := Memory(S, (esp[0].value - 4) % Modulus32);
            t.address == s.address + 1 && ParseDecimal(t.nodeId) == Some(ParseDecimal(s.nodeId).value + 1)
            && OnlyWrites(s.mapping, t.mapping, {Register("esp"), slot})
            && t.mapping[slot] == s.mapping[Register(reg)]
            && t.mapping[Register("esp")] == [AddValue(esp[0], -4)] + esp[1..]
  {
    PushEffect(s, reg);
  }

  /** What PushPopRoundTrip needs of the pop that follows the push. */
  lemma PopAfterPush(s: Snapshot, reg: string)
    requires Push(s, reg).Ok? && 0 <= s.mapping[Register("esp")][0].value < Modulus32
    ensures Pop(Push(s, reg).value, reg).Ok?
    ensures var t := Push(s, reg).value;
            var u := Pop(t, reg).value;
            u.address == t.address + 1 && ParseDecimal(u.nodeId) == Some(ParseDecimal(t.nodeId).value + 1)
            && OnlyWrites(t.mapping, u.mapping, {Register("esp"), Register(reg)})
            && u.mapping[Register(reg)] == s.mapping[Register(reg)]
            && u.mapping[Register("esp")] == s.mapping[Register("esp")]
  {
    var esp := s.mapping[Register("esp")];
    PushFacts(s, reg);
    AddValueUndo(esp[0], -4);
    PopEffect(Push(s, reg).value, reg);
  }

  lemma PushPopFrame(a: Mapping, b: Mapping, c: Mapping, slot: Location, reg: string)
    requires Register(reg) in a && Register("esp") in a && slot.Memory?
    requires OnlyWrites(a, b, {Register("esp"), slot}) && b[slot] == a[Register(reg)]
    requires OnlyWrites(b, c, {Register("esp"), Register(reg)})
    requires c[Register(reg)] == a[Register(reg)] && c[Register("esp")] == a[Register("esp")]
    ensures c == a[slot := a[Register(reg)]]
  {
    var d := a[slot := a[Register(reg)]];
    assert c.Keys == d.Keys;
    forall l | l in c ensures c[l] == d[l] {
    }
  }

  // ---------------------------------------------------------------------
  // or reg,0xffffffff and and esp,0xfffffff0

  /** `or reg,0xffffffff` sets the register to 0xffffffff; zf is 0, sf and
      pf are 1, of and cf are 0 and af is undefined; nothing else is
      written. */
  lemma OrRegFfEffect(s: Snapshot, reg: string)
    requires reg in GeneralRegisters
    ensures OrRegFf(s, reg).Ok? <==> ParseDecimal(s.nodeId).Some?
    ensures OrRegFf(s, reg).Err? ==> OrRegFf(s, reg).error == BadNodeId(s.nodeId)
    ensures OrRegFf(s, reg).Ok? ==>
              var t := OrRegFf(s, reg).value;
              NextNode(s, t) && t.address == s.address + 3
              && OnlyWrites(s.mapping, t.mapping, {Register(reg)} + LogicFlags)
              && t.mapping[Register(reg)] == [RegCell(reg, 0xffff_ffff, 0)]
              && t.mapping[Register("zf")] == [RegCell("zf", 0, 0)]
              && t.mapping[Register("sf")] == [RegCell("sf", 1, 0)]
              && t.mapping[Register("pf")] == [RegCell("pf", 1, 0)]
              && t.mapping[Register("of")] == [FlagCell("of", 0)]
              && t.mapping[Register("cf")] == [FlagCell("cf", 0)]
              && t.mapping[Register("af")] == [UndefinedFlagCell("af")]
  {
    if OrRegFf(s, reg).Ok? {
      ParityOfAllOnes();
      SfIsSign(0xffff_ffff);
      OrRegFfWrites(s, reg);
      GeneralIsNotFlag(reg);
    }
  }

  lemma OrRegFfWrites(s: Snapshot, reg: string)
    requires OrRegFf(s, reg).Ok?
    ensures OnlyWrites(s.mapping, OrRegFf(s, reg).value.mapping, {Register(reg)} + LogicFlags)
  {
    var m := Prepare(s).value.mapping;
    var m1 := WithReg(m, reg, 0xffff_ffff, 0);
    var m2 := WithFlagUndefined(m1, "af");
    var m3 := WithReg(m2, "pf", PfSpec(0xffff_ffff), 0);
    var m4 := WithReg(m3, "sf", SfOf(0xffff_ffff), 0);
    var m5 := WithReg(m4, "zf", ZfOf(0xffff_ffff), 0);
    var m6 := WithFlag(m5, "of", 0);
    var m7 := WithFlag(m6, "cf", 0);
    var t := OrRegFf(s, reg).value;
    assert t.mapping == m7;
    forall l | l in m && l !in {Register(reg)} + LogicFlags
      ensures t.mapping[l] == m[l]
    {
    }
  }

  /** `and esp,0xfffffff0` keeps bits 4 .. 31 of esp's first cell and
      clears bits 0 .. 3, keeping its other fields and the rest of its
      list; zf, sf and pf describe the new value, of and cf are 0 and af is
      undefined; nothing else is written and the address stays. */
  lemma AndEspEffect(s: Snapshot)
    ensures AndEsp(s).Ok? <==>
              ParseDecimal(s.nodeId).Some? && Register("esp") in s.mapping && |s.mapping[Register("esp")]| > 0
    ensures AndEsp(s).Err? ==>
              AndEsp(s).error ==
                if ParseDecimal(s.nodeId).None? then BadNodeId(s.nodeId)
                else if Register("esp") !in s.mapping then MissingLocation(Register("esp"))
                else EmptyEntry(Register("esp"))
    ensures AndEsp(s).Ok? ==>
              var t := AndEsp(s).value;
              var esp := s.mapping[Register("esp")];
              var a := And(esp[0].value, 0xffff_fff0);
              NextNode(s, t) && t.address == s.address
              && OnlyWrites(s.mapping, t.mapping, {Register("esp")} + LogicFlags)
              && t.mapping[Register("esp")] == [esp[0].(value := a)] + esp[1..]
              && (forall i: nat :: Bit(a, i) == if 4 <= i < 32 then Bit(esp[0].value, i) else 0)
              && t.mapping[Register("zf")] == [RegCell("zf", if a == 0 then 1 else 0, 0)]
              && t.mapping[Register("sf")] == [RegCell("sf", Bit(a, 31), 0)]
              && t.mapping[Register("pf")] == [RegCell("pf", PfSpec(a), 0)]
              && t.mapping[Register("of")] == [FlagCell("of", 0)]
              && t.mapping[Register("cf")] == [FlagCell("cf", 0)]
              && t.mapping[Register("af")] == [UndefinedFlagCell("af")]
  {
    if AndEsp(s).Ok? {
      var v := s.mapping[Register("esp")][0].value;
      Pow2Values();
      forall i: nat ensures Bit(And(v, 0xffff_fff0), i) == if 4 <= i < 32 then Bit(v, i) else 0 {
        BitOfAnd(v, 0xffff_fff0, i);
        BitOfRange(4, 32, i);
      }
      AndEspWrites(s);
    }
  }

  lemma AndEspWrites(s: Snapshot)
    requires AndEsp(s).Ok?
    ensures OnlyWrites(s.mapping, AndEsp(s).value.mapping, {Register("esp")} + LogicFlags)
  {
    var m: Mapping := Prepare(s).value.mapping;
    var c: Cell := m[Register("esp")][0];
    var esp := And(c.value, 0xffff_fff0);
    var m1 := SetFirst(m, Register("esp"), c.(value := esp));
    var m2 := WithFlagUndefined(m1, "af");
    var m3 := WithFlag(m2, "of", 0);
    var m4 := WithFlag(m3, "cf", 0);
    var m5 := WithReg(m4, "zf", ZfOf(esp), 0);
    var m6 := WithReg(m5, "sf", SfOf(esp), 0);
    var m7 := WithReg(m6, "pf", PfSpec(esp), 0);
    var t := AndEsp(s).value;
    assert t.mapping == m7;
    forall l | l in m && l !in {Register("esp")} + LogicFlags
      ensures t.mapping[l] == m[l]
    {
    }
  }

  /** For a 32-bit esp, `and esp,0xfffffff0` rounds esp down to a multiple
      of 16, so zf is set exactly when esp was below 16 and sf keeps esp's
      sign. */
  lemma AndEspAligns(s: Snapshot)
    requires AndEsp(s).Ok? && 0 <= s.mapping[Register("esp")][0].value < Modulus32
    ensures var v := s.mapping[Register("esp")][0].value;
            var t := AndEsp(s).value;
            var a := t.mapping[Register("esp")][0].value;
            a == v - v % 16 && a % 16 == 0 && a <= v < a + 16
            && (t.mapping[Register("zf")][0].value == 1 <==> v < 16)
            && (t.mapping[Register("sf")][0].value == 1 <==> v >= 0x8000_0000)
  {
    var v := s.mapping[Register("esp")][0].value;
    AndEspEffect(s);
    AlignDown16(v);
    SfIsSign(v - v % 16);
  }

  lemma AlignDown16(v: int)
    requires 0 <= v < Modulus32
    ensures var a := And(v, 0xffff_fff0);
            a == v - v % 16 && a % 16 == 0 && a <= v < a + 16 && 0 <= a < Modulus32
            && (a == 0 <==> v < 16) && (a >= 0x8000_0000 <==> v >= 0x8000_0000)
  {
    Pow2Values();
    AndHighMask(v, 32, 4);
    var a := v - v % 16;
    DivModUnique(a, 16, v / 16, 0);
    if v >= 0x8000_0000 {
      assert v / 16 >= 0x800_0000;
    }
  }

  // ---------------------------------------------------------------------
  // Byte loads

  /** Masking with 0xff keeps each field modulo 256 (Python's `&` on a
      negative number included). */
  lemma LowByteIsModulo(c: Cell)
    ensures LowByte(c) == c.(value := c.value % 256, vtop := c.vtop % 256,
                             taint := c.taint % 256, ttop := c.ttop % 256)
  {
    Pow2Values();
    AndLowMask(c.value, 8);
    AndLowMask(c.vtop, 8);
    AndLowMask(c.taint, 8);
    AndLowMask(c.ttop, 8);
  }

  /** `movzx edx,dl` reduces the value, value top, taint and taint top of
      edx's first cell modulo 256 and keeps everything else; the expected
      address is the observed one. */
  lemma MovzxEffect(s: Snapshot, observed: int)
    ensures Movzx(s, observed).Ok? <==>
              ParseDecimal(s.nodeId).Some? && Register("edx") in s.mapping && |s.mapping[Register("edx")]| > 0
    ensures Movzx(s, observed).Err? ==>
              Movzx(s, observed).error ==
                if ParseDecimal(s.nodeId).None? then BadNodeId(s.nodeId)
                else if Register("edx") !in s.mapping then MissingLocation(Register("edx"))
                else EmptyEntry(Register("edx"))
    ensures Movzx(s, observed).Ok? ==>
              var t := Movzx(s, observed).value;
              var edx := s.mapping[Register("edx")];
              var c := edx[0];
              NextNode(s, t) && t.address == observed
              && OnlyWrites(s.mapping, t.mapping, {Register("edx")})
              && t.mapping[Register("edx")] ==
                   [c.(value := c.value % 256, vtop := c.vtop % 256,
                       taint := c.taint % 256, ttop := c.ttop % 256)] + edx[1..]
  {
    if Movzx(s, observed).Ok? {
      LowByteIsModulo(s.mapping[Register("edx")][0]);
      var t := Movzx(s, observed).value;
      forall l | l in s.mapping && l !in {Register("edx")}
        ensures t.mapping[l] == s.mapping[l]
      {
      }
    }
  }

  /** A second `movzx edx,dl` changes no location: the low byte is
      already all there is. */
  lemma MovzxIdempotent(s: Snapshot, observed: int)
    requires Movzx(s, observed).Ok?
    ensures Movzx(Movzx(s, observed).value, observed).Ok?
    ensures Movzx(Movzx(s, observed).value, observed).value.mapping == Movzx(s, observed).value.mapping
  {
    var t := Movzx(s, observed).value;
    MovzxEffect(s, observed);
    MovzxEffect(t, observed);
    var c := s.mapping[Register("edx")][0];
    AndIdempotent(c.value, 0xff);
    AndIdempotent(c.vtop, 0xff);
    AndIdempotent(c.taint, 0xff);
    AndIdempotent(c.ttop, 0xff);
    assert t.mapping[Register("edx")][0] == LowByte(c);
    assert LowByte(LowByte(c)) == LowByte(c);
    var u := Movzx(t, observed).value;
    assert u.mapping[Register("edx")] == t.mapping[Register("edx")];
    assert u.mapping.Keys == t.mapping.Keys;
  }

  /** `mov eax,0x100; movzx eax,byte [eax]` gives eax's first cell the
      value, value top, taint and taint top of the cell at global address
      0x100 modulo 256, keeping eax's region, width and bottoms; the cell
      at 0x100 is read before eax, as in the test. */
  lemma ByteLoadEffect(s: Snapshot, observed: int)
    ensures ByteLoad(s, observed).Ok? <==>
              ParseDecimal(s.nodeId).Some? && Memory(G, 0x100) in s.mapping && |s.mapping[Memory(G, 0x100)]| > 0
              && Register("eax") in s.mapping && |s.mapping[Register("eax")]| > 0
    ensures ByteLoad(s, observed).Err? ==>
              ByteLoad(s, observed).error ==
                if ParseDecimal(s.nodeId).None? then BadNodeId(s.nodeId)
                else if Memory(G, 0x100) !in s.mapping then MissingLocation(Memory(G, 0x100))
                else if |s.mapping[Memory(G, 0x100)]| == 0 then EmptyEntry(Memory(G, 0x100))
                else if Register("eax") !in s.mapping then MissingLocation(Register("eax"))
                else EmptyEntry(Register("eax"))
    ensures ByteLoad(s, observed).Ok? ==>
              var t := ByteLoad(s, observed).value;
              var eax := s.mapping[Register("eax")];
              var v := s.mapping[Memory(G, 0x100)][0];
              NextNode(s, t) && t.address == observed
              && OnlyWrites(s.mapping, t.mapping, {Register("eax")})
              && t.mapping[Register("eax")] ==
                   [eax[0].(value := v.value % 256, vtop := v.vtop % 256,
                            taint := v.taint % 256, ttop := v.ttop % 256)] + eax[1..]
  {
    if ByteLoad(s, observed).Ok? {
      LowByteIsModulo(s.mapping[Memory(G, 0x100)][0]);
      var t := ByteLoad(s, observed).value;
      forall l | l in s.mapping && l !in {Register("eax")}
        ensures t.mapping[l] == s.mapping[l]
      {
      }
    }
  }

  /** A byte loaded through a tainted pointer to global address 1 takes
      the value and value top of the cell there modulo 256, taint 0xff and
      no taint top, into eax's first cell. */
  lemma ByteLoadTaintPtrEffect(s: Snapshot, observed: int)
    ensures ByteLoadTaintPtr(s, observed).Ok? <==>
              ParseDecimal(s.nodeId).Some? && Memory(G, 1) in s.mapping && |s.mapping[Memory(G, 1)]| > 0
              && Register("eax") in s.mapping && |s.mapping[Register("eax")]| > 0
    ensures ByteLoadTaintPtr(s, observed).Err? ==>
              ByteLoadTaintPtr(s, observed).error ==
                if ParseDecimal(s.nodeId).None? then BadNodeId(s.nodeId)
                else if Memory(G, 1) !in s.mapping then MissingLocation(Memory(G, 1))
                else if |s.mapping[Memory(G, 1)]| == 0 then EmptyEntry(Memory(G, 1))
                else if Register("eax") !in s.mapping then MissingLocation(Register("eax"))
                else EmptyEntry(Register("eax"))
    ensures ByteLoadTaintPtr(s, observed).Ok? ==>
              var t := ByteLoadTaintPtr(s, observed).value;
              var eax := s.mapping[Register("eax")];
              var v := s.mapping[Memory(G, 1)][0];
              NextNode(s, t) && t.address == observed
              && OnlyWrites(s.mapping, t.mapping, {Register("eax")})
              && t.mapping[Register("eax")] ==
                   [eax[0].(value := v.value % 256, vtop := v.vtop % 256, taint := 0xff, ttop := 0)] + eax[1..]
  {
    if ByteLoadTaintPtr(s, observed).Ok? {
      var v := s.mapping[Memory(G, 1)][0];
      LowByteIsModulo(v);
      assert And(v.value, 0xff) == v.value % 256 && And(v.vtop, 0xff) == v.vtop % 256;
      var t := ByteLoadTaintPtr(s, observed).value;
      forall l | l in s.mapping && l !in {Register("eax")}
        ensures t.mapping[l] == s.mapping[l]
      {
      }
    }
  }

  /** When eax holds a concrete, tainted pointer to global address 1, the
      expected byte is the low byte of what the dereference policy loads
      there, with the taint that policy forces. */
  lemma ByteLoadTaintPtrAgreesWithDereference(s: Snapshot, observed: int)
    requires ByteLoadTaintPtr(s, observed).Ok?
    requires var p := s.mapping[Register("eax")][0];
             p.vbot == 0 && p.vtop == 0 && p.region == G && p.value == 1 && p.taint != 0
    ensures var p := s.mapping[Register("eax")][0];
            var c := ByteLoadTaintPtr(s, observed).value.mapping[Register("eax")][0];
            Dereference(s.mapping, p).Ok? && Dereference(s.mapping, p).value.Some?
            && var loaded := Dereference(s.mapping, p).value.value;
               |loaded| > 0 && c.taint == loaded[0].taint
               && c.value == loaded[0].value % 256 && c.vtop == loaded[0].vtop % 256
  {
    ByteLoadTaintPtrEffect(s, observed);
  }

  // ---------------------------------------------------------------------
  // Loads through a pointer register

  /** `mov reg,[ebp-0x6]` gives the register exactly the cells the
      dereference policy loads through ebp's first cell minus 6, and
      writes nothing else; the load fails with the None entry exactly when
      that pointer is bottom. */
  lemma MovRegEbpm6Effect(s: Snapshot, reg: string)
    ensures var ok := ParseDecimal(s.nodeId).Some? && Register("ebp") in s.mapping
                      && |s.mapping[Register("ebp")]| > 0;
            ok ==> var ptr := AddValue(s.mapping[Register("ebp")][0], -6);
                   (MovRegEbpm6(s, reg) == Err(NoneEntry(Register(reg))) <==> ptr.vbot != 0)
                   && (MovRegEbpm6(s, reg).Err? && ptr.vbot == 0 ==>
                         MovRegEbpm6(s, reg).error == MissingLocation(Memory(ptr.region, ptr.value)))
    ensures MovRegEbpm6(s, reg).Ok? ==>
              var t := MovRegEbpm6(s, reg).value;
              var ptr := AddValue(s.mapping[Register("ebp")][0], -6);
              NextNode(s, t) && t.address == s.address + 3
              && OnlyWrites(s.mapping, t.mapping, {Register(reg)})
              && Dereference(s.mapping, ptr) == Ok(Some(t.mapping[Register(reg)]))
  {
    if MovRegEbpm6(s, reg).Ok? {
      var t := MovRegEbpm6(s, reg).value;
      forall l | l in s.mapping && l !in {Register(reg)}
        ensures t.mapping[l] == s.mapping[l]
      {
      }
    }
  }

  /** `mov ebp,[reg]` expects no successor exactly when the register's
      first cell is a bottom pointer. */
  lemma MovEbpRegNoSuccessor(s: Snapshot, reg: string)
    ensures MovEbpReg(s, reg) == Ok(None) <==>
              ParseDecimal(s.nodeId).Some? && Register(reg) in s.mapping
              && |s.mapping[Register(reg)]| > 0 && s.mapping[Register(reg)][0].vbot != 0
  {
  }

  /** Otherwise ebp receives exactly the cells the dereference policy
      loads through the register's first cell, and nothing else is
      written. */
  lemma MovEbpRegEffect(s: Snapshot, reg: string)
    ensures MovEbpReg(s, reg).Err? ==>
              MovEbpReg(s, reg).error ==
                if ParseDecimal(s.nodeId).None? then BadNodeId(s.nodeId)
                else if Register(reg) !in s.mapping then MissingLocation(Register(reg))
                else if |s.mapping[Register(reg)]| == 0 then EmptyEntry(Register(reg))
                else MissingLocation(Memory(s.mapping[Register(reg)][0].region, s.mapping[Register(reg)][0].value))
    ensures MovEbpReg(s, reg).Ok? && MovEbpReg(s, reg).value.Some? ==>
              var t := MovEbpReg(s, reg).value.value;
              NextNode(s, t) && t.address == s.address + 2
              && OnlyWrites(s.mapping, t.mapping, {Register("ebp")})
              && Dereference(s.mapping, s.mapping[Register(reg)][0]) == Ok(Some(t.mapping[Register("ebp")]))
  {
    if MovEbpReg(s, reg).Ok? && MovEbpReg(s, reg).value.Some? {
      var t := MovEbpReg(s, reg).value.value;
      forall l | l in s.mapping && l !in {Register("ebp")}
        ensures t.mapping[l] == s.mapping[l]
      {
      }
    }
  }

  /** A top pointer in the register makes ebp one fully unknown cell. */
  lemma MovEbpRegUnknownAddress(s: Snapshot, reg: string)
    requires ParseDecimal(s.nodeId).Some? && Register(reg) in s.mapping && |s.mapping[Register(reg)]| > 0
    requires var p := s.mapping[Register(reg)][0]; p.vbot == 0 && p.vtop != 0
    ensures MovEbpReg(s, reg).Ok? && MovEbpReg(s, reg).value.Some?
    ensures var p := s.mapping[Register(reg)][0];
            MovEbpReg(s, reg).value.value.mapping[Register("ebp")]
              == [p.(value := 0, vbot := 0, vtop := 0xffff_ffff)]
  {
  }
}
