/** The oracle's helpers: the state writers (setReg, clearFlag, setFlag,
    undefBitFlag, taintFlag), the flag calculators that write through
    setReg, the pointer-dereference policy and the preparation of an
    expected successor state. */
module Oracle {
  import opened Domain
  import opened Bits
  import opened Flags
  import opened NodeIds
  import opened AbstractState

  // ---------------------------------------------------------------------
  // The cells the writers store

  /** setReg's cell: region 's' for esp and 'g' for every other register. */
  function RegCell(name: string, val: int, taint: int): Cell {
    Cell(if name == "esp" then S else G, val, RegLen(name), 0, 0, taint, 0, 0)
  }

  /** clearFlag's and setFlag's cell: an untainted 'g' value. */
  function FlagCell(name: string, bit: int): Cell {
    PlainCell(G, bit, RegLen(name))
  }

  /** undefBitFlag's cell: value 0 with vtop 1 in region 't'. */
  function UndefinedFlagCell(name: string): Cell {
    Cell(T, 0, RegLen(name), 1, 0, 0, 0, 0)
  }

  // ---------------------------------------------------------------------
  // What each writer does to the mapping

  /** setReg's update of the mapping. */
  function WithReg(m: Mapping, name: string, val: int, taint: int): Mapping {
    m[Register(name) := [RegCell(name, val, taint)]]
  }

  /** clearFlag's (bit 0) and setFlag's (bit 1) update of the mapping. */
  function WithFlag(m: Mapping, name: string, bit: int): Mapping {
    m[Register(name) := [FlagCell(name, bit)]]
  }

  /** undefBitFlag's update of the mapping. */
  function WithFlagUndefined(m: Mapping, name: string): Mapping {
    m[Register(name) := [UndefinedFlagCell(name)]]
  }

  /** setReg: the register holds exactly one cell with the given value and
      taint, of the register's width, with no top or bottom, in region 's'
      exactly when the register is esp and 'g' otherwise; no other location
      changes. */
  lemma WithRegWrites(m: Mapping, name: string, val: int, taint: int)
    ensures var r := WithReg(m, name, val, taint);
            r.Keys == m.Keys + {Register(name)}
            && (forall l :: l in m && l != Register(name) ==> r[l] == m[l])
            && |r[Register(name)]| == 1
            && r[Register(name)][0].value == val && r[Register(name)][0].taint == taint
            && r[Register(name)][0].length == RegLen(name)
            && (r[Register(name)][0].region == S <==> name == "esp")
            && (r[Register(name)][0].region != S ==> r[Register(name)][0].region == G)
            && r[Register(name)][0].vtop == 0 && r[Register(name)][0].vbot == 0
            && r[Register(name)][0].ttop == 0 && r[Register(name)][0].tbot == 0
  {
  }

  /** clearFlag and setFlag: the flag holds one untainted 'g' cell with
      that bit; no other location changes. */
  lemma WithFlagWrites(m: Mapping, name: string, bit: int)
    ensures var r := WithFlag(m, name, bit);
            r.Keys == m.Keys + {Register(name)}
            && (forall l :: l in m && l != Register(name) ==> r[l] == m[l])
            && r[Register(name)] == [Cell(G, bit, RegLen(name), 0, 0, 0, 0, 0)]
  {
  }

  /** undefBitFlag: the flag holds one cell of value 0 whose single bit is
      top, in region 't'; no other location changes. */
  lemma WithFlagUndefinedWrites(m: Mapping, name: string)
    ensures var r := WithFlagUndefined(m, name);
            r.Keys == m.Keys + {Register(name)}
            && (forall l :: l in m && l != Register(name) ==> r[l] == m[l])
            && r[Register(name)] == [Cell(T, 0, RegLen(name), 1, 0, 0, 0, 0)]
  {
  }

  /** taintFlag: the first cell of the flag gets taint 1 and no taint top
      or taint bottom; its value fields, the rest of its list and every
      other location are kept. A missing flag or an empty list is the
      KeyError or IndexError of the Python code. */
  function WithFlagTainted(m: Mapping, name: string): (r: Result<Mapping>)
    ensures r.Ok? <==> Register(name) in m && |m[Register(name)]| > 0
    ensures r.Err? ==> r.error == if Register(name) in m then EmptyEntry(Register(name))
                                 else MissingLocation(Register(name))
    ensures r.Ok? ==> r.value.Keys == m.Keys
    ensures r.Ok? ==> forall l :: l in m && l != Register(name) ==> r.value[l] == m[l]
    ensures r.Ok? ==> var old_ := m[Register(name)]; var new_ := r.value[Register(name)];
                      |new_| == |old_| && new_[1..] == old_[1..]
                      && new_[0] == old_[0].(taint := 1, ttop := 0, tbot := 0)
  {
    var cells :- Lookup(m, Register(name));
    var p :- First(cells, Register(name));
    Ok(m[Register(name) := cells[0 := p.(taint := 1, ttop := 0, tbot := 0)]])
  }

  /** clearFlag and setFlag write the same cell as setReg with that bit and
      no taint, for every register other than esp. */
  lemma FlagIsUntaintedReg(m: Mapping, name: string, bit: int)
    requires name != "esp"
    ensures WithFlag(m, name, bit) == WithReg(m, name, bit, 0)
  {
  }

  // ---------------------------------------------------------------------
  // The writers, updating the state in place

  method SetReg(st: State, name: string, val: int, taint: int := 0)
    modifies st
    ensures st.mapping == WithReg(old(st.mapping), name, val, taint)
    ensures st.nodeId == old(st.nodeId) && st.address == old(st.address)
  {
    var region := if name == "esp" then S else G;
    st.mapping := st.mapping[Register(name) := [Cell(region, val, RegLen(name), 0, 0, taint, 0, 0)]];
  }

  method ClearFlag(st: State, name: string)
    modifies st
    ensures st.mapping == WithFlag(old(st.mapping), name, 0)
    ensures st.nodeId == old(st.nodeId) && st.address == old(st.address)
  {
    st.mapping := st.mapping[Register(name) := [PlainCell(G, 0, RegLen(name))]];
  }

  method SetFlag(st: State, name: string)
    modifies st
    ensures st.mapping == WithFlag(old(st.mapping), name, 1)
    ensures st.nodeId == old(st.nodeId) && st.address == old(st.address)
  {
    st.mapping := st.mapping[Register(name) := [PlainCell(G, 1, RegLen(name))]];
  }

  method UndefBitFlag(st: State, name: string)
    modifies st
    ensures st.mapping == WithFlagUndefined(old(st.mapping), name)
    ensures st.nodeId == old(st.nodeId) && st.address == old(st.address)
  {
    st.mapping := st.mapping[Register(name) := [Cell(T, 0, RegLen(name), 1, 0, 0, 0, 0)]];
  }

  method TaintFlag(st: State, name: string) returns (r: Result<()>)
    modifies st
    ensures WithFlagTainted(old(st.mapping), name).Ok? ==> r.Ok? && st.mapping == WithFlagTainted(old(st.mapping), name).value
    ensures WithFlagTainted(old(st.mapping), name).Err? ==> r == Err(WithFlagTainted(old(st.mapping), name).error) && st.mapping == old(st.mapping)
    ensures st.nodeId == old(st.nodeId) && st.address == old(st.address)
  {
    var cells :- Lookup(st.mapping, Register(name));
    var p :- First(cells, Register(name));
    p := p.(taint := 1);
    p := p.(ttop := 0, tbot := 0);
    st.mapping := st.mapping[Register(name) := cells[0 := p]];
    r := Ok(());
  }

  // ---------------------------------------------------------------------
  // The flag calculators, writing through setReg

  method CalcAf(st: State, op1: int, op2: int, val: int)
    modifies st
    ensures st.mapping == WithReg(old(st.mapping), "af", AfOf(val, op1, op2), 0)
    ensures st.nodeId == old(st.nodeId) && st.address == old(st.address)
  {
    var af := Shr(And(Xor(Xor(val, op1), op2), 0x4), 3);
    SetReg(st, "af", af);
  }

  method CalcZf(st: State, val: int)
    modifies st
    ensures st.mapping == WithReg(old(st.mapping), "zf", ZfOf(val), 0)
    ensures st.nodeId == old(st.nodeId) && st.address == old(st.address)
  {
    var zf := if val == 0 then 1 else 0;
    SetReg(st, "zf", zf);
  }

  method CalcSf(st: State, val: int)
    modifies st
    ensures st.mapping == WithReg(old(st.mapping), "sf", SfOf(val), 0)
    ensures st.nodeId == old(st.nodeId) && st.address == old(st.address)
  {
    var sf := if And(val, 0x8000_0000) != 0 then 1 else 0;
    SetReg(st, "sf", sf);
  }

  method CalcPf(st: State, val: int)
    modifies st
    ensures st.mapping == WithReg(old(st.mapping), "pf", PfSpec(val), 0)
    ensures st.nodeId == old(st.nodeId) && st.address == old(st.address)
  {
    var pf := ParityFlag(val);
    SetReg(st, "pf", pf);
  }

  // ---------------------------------------------------------------------
  // Pointer dereference

  /** The key a concrete pointer is looked up under: its region and value;
      the pointer's taint fields are cleared first and take no part. */
  function KeyOf(ptr: Cell): Location {
    Memory(ptr.region, ptr.value)
  }

  /** The pointer with its taint, taint top and taint bottom cleared. */
  function Untainted(ptr: Cell): Cell {
    ptr.(tbot := 0, ttop := 0, taint := 0)
  }

  /** What a pointer with unknown address bits loads: a copy of the pointer
      with value 0, no bottom and vtop 0xffffffff. */
  function UnknownTarget(ptr: Cell): Cell {
    ptr.(value := 0, vbot := 0, vtop := 0xffff_ffff)
  }

  /** Every cell with its taint replaced by 0xff. */
  function ForceTaint(cells: seq<Cell>): (r: seq<Cell>)
    ensures |r| == |cells|
    ensures forall i :: 0 <= i < |cells| ==> r[i] == cells[i].(taint := 0xff)
  {
    seq(|cells|, i requires 0 <= i < |cells| => cells[i].(taint := 0xff))
  }

  /** dereference_data, with the unknown-address result as a one-cell list:
      None for a bottom pointer; the unknown target for a pointer with top
      bits; otherwise the cells stored at the pointer's location, with
      taint forced to 0xff when the pointer carries taint or taint top. */
  function Dereference(m: Mapping, ptr: Cell): Result<Option<seq<Cell>>> {
    if ptr.vbot != 0 then Ok(None)
    else if ptr.vtop != 0 then Ok(Some([UnknownTarget(ptr)]))
    else
      var key := KeyOf(Untainted(ptr));
      if key !in m then Err(MissingLocation(key))
      else if ptr.ttop != 0 || ptr.taint != 0 then Ok(Some(ForceTaint(m[key])))
      else Ok(Some(m[key]))
  }

  /** The load is unreachable (no cells at all) exactly when the pointer
      is bottom. */
  lemma DereferenceUnreachable(m: Mapping, ptr: Cell)
    ensures Dereference(m, ptr) == Ok(None) <==> ptr.vbot != 0
  {
  }

  /** A pointer with unknown address bits loads one fully unknown cell: the
      pointer's region, width and taint fields, value 0, vtop 0xffffffff,
      no bottom. */
  lemma DereferenceUnknownAddress(m: Mapping, ptr: Cell)
    requires ptr.vbot == 0 && ptr.vtop != 0
    ensures Dereference(m, ptr).Ok? && Dereference(m, ptr).value.Some?
    ensures var cells := Dereference(m, ptr).value.value;
            |cells| == 1 && cells[0].value == 0 && cells[0].vtop == 0xffff_ffff && cells[0].vbot == 0
            && cells[0].region == ptr.region && cells[0].length == ptr.length
            && cells[0].taint == ptr.taint && cells[0].ttop == ptr.ttop && cells[0].tbot == ptr.tbot
  {
  }

  /** A concrete pointer loads the cells stored at its region and value,
      whatever its taint (a KeyError when none are stored); each loaded
      cell equals the stored one except its taint, which is the stored
      taint for an untainted pointer and 0xff otherwise. */
  lemma DereferenceConcrete(m: Mapping, ptr: Cell)
    requires ptr.vbot == 0 && ptr.vtop == 0
    ensures Dereference(m, ptr).Err? <==> Memory(ptr.region, ptr.value) !in m
    ensures Dereference(m, ptr).Err? ==> Dereference(m, ptr).error == MissingLocation(Memory(ptr.region, ptr.value))
    ensures Dereference(m, ptr).Ok? ==>
              var stored := m[Memory(ptr.region, ptr.value)];
              Dereference(m, ptr).value.Some? &&
              var cells := Dereference(m, ptr).value.value;
              |cells| == |stored| &&
              forall i :: 0 <= i < |cells| ==>
                cells[i].(taint := 0) == stored[i].(taint := 0) &&
                cells[i].taint == (if ptr.taint == 0 && ptr.ttop == 0 then stored[i].taint else 0xff)
  {
    if Dereference(m, ptr).Ok? {
      var stored := m[Memory(ptr.region, ptr.value)];
      var cells := Dereference(m, ptr).value.value;
      forall i | 0 <= i < |cells|
        ensures cells[i].(taint := 0) == stored[i].(taint := 0)
      {
      }
    }
  }

  /** A tainted pointer loads what its untainted copy loads, with every
      taint forced to 0xff: the pointer's taint never changes where the
      load reads. */
  lemma DereferenceTaintedPointer(m: Mapping, ptr: Cell)
    requires ptr.vbot == 0 && ptr.vtop == 0 && (ptr.taint != 0 || ptr.ttop != 0)
    ensures Dereference(m, ptr).Err? <==> Dereference(m, Untainted(ptr)).Err?
    ensures Dereference(m, ptr).Ok? ==>
              Dereference(m, Untainted(ptr)).value.Some? &&
              Dereference(m, ptr).value == Some(ForceTaint(Dereference(m, Untainted(ptr)).value.value))
  {
  }

  /** dereference_data in its corrected form (see DereferenceAsWritten for
      the code as written, whose unknown-address branch returns a bare
      cell): the deep copy of the stored list, then a loop setting each
      copy's taint to 0xff when the pointer is tainted. The input state and
      the pointer are left alone. */
  method DereferenceData(st: State, ptr: Cell) returns (r: Result<Option<seq<Cell>>>)
    ensures r == Dereference(st.mapping, ptr)
  {
    if ptr.vbot != 0 {
      return Ok(None);
    } else if ptr.vtop != 0 {
      var newptr := ptr;
      newptr := newptr.(value := 0);
      newptr := newptr.(vbot := 0);
      newptr := newptr.(vtop := 0xffff_ffff);
      return Ok(Some([newptr]));
    }
    var newptr := ptr;
    newptr := newptr.(tbot := 0);
    newptr := newptr.(ttop := 0);
    newptr := newptr.(taint := 0);
    var key := Memory(newptr.region, newptr.value);
    if key !in st.mapping {
      return Err(MissingLocation(key));
    }
    var res := st.mapping[key];
    if ptr.ttop != 0 || ptr.taint != 0 {
      var i := 0;
      while i < |res|
        invariant 0 <= i <= |res| == |st.mapping[key]|
        invariant forall j :: 0 <= j < i ==> res[j] == st.mapping[key][j].(taint := 0xff)
        invariant forall j :: i <= j < |res| ==> res[j] == st.mapping[key][j]
      {
        res := res[i := res[i].(taint := 0xff)];
        i := i + 1;
      }
      assert res == ForceTaint(st.mapping[key]);
    }
    assert key == KeyOf(Untainted(ptr));
    return Ok(Some(res));
  }

  // ---------------------------------------------------------------------
  // dereference_data as written returns three different kinds of value

  /** What the Python function returns: None, a single value object (the
      unknown-address branch), or a list of them (the concrete branch). */
  datatype Returned = NoneValue | BareCell(cell: Cell) | CellList(cells: seq<Cell>)

  function DereferenceAsWritten(m: Mapping, ptr: Cell): Result<Returned> {
    if ptr.vbot != 0 then Ok(NoneValue)
    else if ptr.vtop != 0 then Ok(BareCell(UnknownTarget(ptr)))
    else
      var key := KeyOf(Untainted(ptr));
      if key !in m then Err(MissingLocation(key))
      else if ptr.ttop != 0 || ptr.taint != 0 then Ok(CellList(ForceTaint(m[key])))
      else Ok(CellList(m[key]))
  }

  /** As written, an unknown-address pointer yields a bare cell, while a
      concrete one yields a list: the builders store either one as a
      register's entry, where every other entry is a list of cells. */
  lemma AsWrittenUnknownAddressIsNotAList(m: Mapping, ptr: Cell)
    requires ptr.vbot == 0 && ptr.vtop != 0
    ensures DereferenceAsWritten(m, ptr).Ok?
    ensures !DereferenceAsWritten(m, ptr).value.CellList?
    ensures DereferenceAsWritten(m, ptr).value == BareCell(UnknownTarget(ptr))
    ensures DereferenceAsWritten(m, ptr.(vtop := 0)).Ok? ==> DereferenceAsWritten(m, ptr.(vtop := 0)).value.CellList?
  {
  }

  /** The corrected dereference differs from the code as written only by
      wrapping the unknown-address cell in a one-element list. */
  lemma DereferenceCorrectsOnlyUnknownAddress(m: Mapping, ptr: Cell)
    ensures DereferenceAsWritten(m, ptr).Err? <==> Dereference(m, ptr).Err?
    ensures DereferenceAsWritten(m, ptr).Ok? ==>
              match DereferenceAsWritten(m, ptr).value
              case NoneValue => Dereference(m, ptr).value == None
              case BareCell(c) => Dereference(m, ptr).value == Some([c])
              case CellList(cells) => Dereference(m, ptr).value == Some(cells)
  {
  }

  // ---------------------------------------------------------------------
  // The expected successor state

  /** prepareExpectedState: the same address and mapping, with the node id
      advanced by one (`str(int(node_id) + 1)`); a node id that is not a
      decimal number is the ValueError of `int()`. */
  function Prepare(s: Snapshot): (r: Result<Snapshot>)
    ensures r.Ok? <==> ParseDecimal(s.nodeId).Some?
    ensures r.Err? ==> r.error == BadNodeId(s.nodeId)
    ensures r.Ok? ==> r.value.mapping == s.mapping && r.value.address == s.address
    ensures r.Ok? ==> ParseDecimal(r.value.nodeId) == Some(ParseDecimal(s.nodeId).value + 1)
    ensures r.Ok? ==> CanonicalPositive(r.value.nodeId)
  {
    match NextNodeId(s.nodeId)
    case None => Err(BadNodeId(s.nodeId))
    case Some(id) => Ok(s.(nodeId := id))
  }

  /** prepareExpectedState on the state object: a deep copy with the next
      node id. The input state is not modified. */
  method PrepareExpectedState(st: State) returns (r: Result<State>)
    ensures Realizes(r, Prepare(st.Snap()))
    ensures r.Ok? ==> fresh(r.value)
  {
    var newstate := new State(st.nodeId, st.address, st.mapping);
    var n := ParseDecimal(newstate.nodeId);
    if n.None? {
      return Err(BadNodeId(newstate.nodeId));
    }
    newstate.nodeId := DecimalString(n.value + 1);
    r := Ok(newstate);
  }
}
