/** The abstract values the test oracle manipulates: the analyzer's value
    objects (one abstract cell of a location), the keys of a state's mapping,
    and the error outcomes of the oracle's lookups. */
module Domain {

  datatype Option<T> = None | Some(value: T)

  /** The region tag of a cell: 'g' (global), 's' (stack) and 't', the tag
      the oracle gives an undefined flag. */
  datatype Region = G | S | T

  /** A key of a state's mapping: a register by name (tag 'reg'), or a
      memory location by region tag and address. */
  datatype Location = Register(name: string) | Memory(region: Region, address: int)

  /** One abstract value: the value bits, the per-bit top mask `vtop`, the
      bottom marker `vbot`, the taint bits, the taint-top mask `ttop` and the
      taint-bottom marker `tbot`, with the width `length` in bits. Fields are
      unbounded integers, as in the Python objects. */
  datatype Cell = Cell(region: Region, value: int, length: nat,
                       vtop: int, vbot: int, taint: int, ttop: int, tbot: int)

  /** What a state maps each location to: an ordered list of cells. */
  type Mapping = map<Location, seq<Cell>>

  /** The exceptions the oracle's Python code can raise: a missing key
      (KeyError), an empty cell list indexed at 0 (IndexError), a node id
      that `int()` rejects (ValueError), and the None that the
      `mov reg,[ebp-0x6]` builder stores when the load is unreachable. */
  datatype Error =
    | MissingLocation(loc: Location)
    | EmptyEntry(loc: Location)
    | BadNodeId(id: string)
    | NoneEntry(loc: Location)

  datatype Result<T> = Ok(value: T) | Err(error: Error) {
    predicate IsFailure() {
      Err?
    }

    function PropagateFailure<U>(): Result<U>
      requires Err?
    {
      Err(error)
    }

    function Extract(): T
      requires Ok?
    {
      value
    }
  }

  /** A fresh cell with no top, bottom or taint: `cfa.Value(region, value, length)`. */
  function PlainCell(region: Region, value: int, length: nat): Cell {
    Cell(region, value, length, 0, 0, 0, 0, 0)
  }

  /** The status flags the oracle writes. */
  const StatusFlags: set<string> := {"cf", "pf", "af", "zf", "sf", "of"}

  /** The eight general-purpose registers the instruction tests range over. */
  const GeneralRegisters: set<string> := {"eax", "ecx", "edx", "ebx", "esp", "ebp", "esi", "edi"}

  /** The width of a register: one bit for a status flag, 32 bits otherwise. */
  function RegLen(name: string): (n: nat)
    ensures name in StatusFlags ==> n == 1
    ensures name in GeneralRegisters ==> n == 32
  {
    if name in StatusFlags then 1 else 32
  }

  const Modulus32: int := 0x1_0000_0000

  /** The cell arithmetic `cell + k` / `cell - k`: the value moves by k
      modulo 2^32; every other field is kept. */
  function AddValue(c: Cell, k: int): (r: Cell)
    ensures 0 <= r.value < Modulus32
    ensures r.value % Modulus32 == (c.value + k) % Modulus32
    ensures r == c.(value := r.value)
  {
    c.(value := (c.value + k) % Modulus32)
  }

  /** Moving a 32-bit value by k and back by -k gives the cell back. */
  lemma AddValueUndo(c: Cell, k: int)
    requires 0 <= c.value < Modulus32
    ensures AddValue(AddValue(c, k), -k) == c
  {
    var v := c.value + k;
    var q := v / Modulus32;
    assert AddValue(c, k).value == v - Modulus32 * q;
    assert AddValue(c, k).value - k == c.value - Modulus32 * q;
  }

  /** `my_state[loc]`: the cell list stored at loc, or KeyError. */
  function Lookup(m: Mapping, loc: Location): (r: Result<seq<Cell>>)
    ensures r.Ok? <==> loc in m
    ensures r.Ok? ==> r.value == m[loc]
    ensures r.Err? ==> r.error == MissingLocation(loc)
  {
    if loc in m then Ok(m[loc]) else Err(MissingLocation(loc))
  }

  /** `cells[0]`, or IndexError on an empty list. */
  function First(cells: seq<Cell>, loc: Location): (r: Result<Cell>)
    ensures r.Ok? <==> |cells| > 0
    ensures r.Ok? ==> r.value == cells[0]
    ensures r.Err? ==> r.error == EmptyEntry(loc)
  {
    if |cells| > 0 then Ok(cells[0]) else Err(EmptyEntry(loc))
  }
  /** `my_state[loc][0]`: KeyError when loc is missing, IndexError when its
      list is empty. */
  function FirstCell(m: Mapping, loc: Location): (r: Result<Cell>)
    ensures r.Ok? <==> loc in m && |m[loc]| > 0
    ensures r.Ok? ==> r.value == m[loc][0]
    ensures r.Err? ==> r.error == if loc in m then EmptyEntry(loc) else MissingLocation(loc)
  {
    var cells :- Lookup(m, loc);
    First(cells, loc)
  }

  /** `my_state[loc][0] = c`: the first cell of loc replaced, the rest of
      its list and every other location kept. */
  function SetFirst(m: Mapping, loc: Location, c: Cell): (r: Mapping)
    requires loc in m && |m[loc]| > 0
    ensures r.Keys == m.Keys
    ensures r[loc] == [c] + m[loc][1..]
    ensures forall l :: l in m && l != loc ==> r[l] == m[l]
  {
    m[loc := m[loc][0 := c]]
  }
}
