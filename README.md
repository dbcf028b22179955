# bincat single-instruction test oracle, in Dafny

bincat's single-instruction tests run the analyzer on one x86 instruction.
Then they compare the state the analyzer reached with an *expected state*
that the test builds itself. This project models how those expected
states are built, in `ocaml/test/test_instructions.py`:

- **Abstract state.** A state has a node id (a decimal string), an
  instruction address and a mapping. The mapping sends each location to a
  list of abstract cells. A location is a register or a memory address in
  region `g`, `s` or `t`. A cell has `value`, `vtop`, `vbot`, `taint`, `ttop`,
  `tbot`, a region tag and a width (`domain.dfy`, `state.dfy`). The state is
  a class updated in place, as the tests do. `Snapshot` is the value of its
  fields at one moment.
- **Python's integer bit operators.** `&`, `^` and `>>` work on unbounded
  two's-complement integers, negative operands included (`bits.dfy`).
- **Flag calculators.** `calc_zf`, `calc_sf`, `calc_af` and `calc_pf`
  (`flags.dfy`). `calc_pf` is a method with the source's xor-fold, proved
  against a reference parity definition.
- **State writers.** `setReg`, `clearFlag`, `setFlag`, `undefBitFlag` and
  `taintFlag` are methods that update the state. Each is proved against a
  function on the mapping (`oracle.dfy`).
- **Pointer dereference.** `dereference_data` picks bottom, top or a
  concrete pointer, and forces taint when the pointer is tainted. It is a
  method with the source's taint loop, proved against the `Dereference`
  function (`oracle.dfy`).
- **Expected successor.** `prepareExpectedState` copies the state and bumps
  the node id (`oracle.dfy`).
- **Expected-state builders.** These are the bodies of `test_xor_reg_self`,
  `test_inc`, `test_dec`, `test_push`, `test_pop`, `test_or_reg_ff`,
  `test_and_esp`, `test_movzx`, `test_movzx_byte`, the two `*_taintptr`
  tests, `test_mov_reg_ebpm6` and `test_mov_ebp_reg`.
  - Each is a function of the state before the instruction
    (`expectations.dfy`).
  - Each is also an imperative builder that copies that state and updates
    the copy in place, proved to produce that function's result
    (`builders.dfy`).
  - What each expected state promises is proved in `properties.dfy`: the
    locations written, the values and flags stored, the error cases, and
    round trips.

The tests' Python exceptions become `Err` values of a `Result` type:

| exception | `Err` value |
|---|---|
| `KeyError` on a missing location | `MissingLocation` |
| `IndexError` on an empty cell list | `EmptyEntry` |
| `ValueError` from `int()` on the node id | `BadNodeId` |
| `test_mov_reg_ebpm6` storing `None` as a register's entry | `NoneEntry` |

## Model

| member | source | states |
|---|---|---|
| Domain.RegLen | ocaml/test/test_instructions.py:88 | a status flag is 1 bit wide and a general-purpose register 32 bits (`cfa.reg_len`) |
| Domain.AddValue | ocaml/test/test_instructions.py:249 | `cell + k` moves the value by k modulo 2^32 and keeps every other field |
| Domain.AddValueUndo | ocaml/test/test_instructions.py:306 | moving a 32-bit cell by k and then by -k gives the cell back |
| Domain.Lookup | ocaml/test/test_instructions.py:141 | `my_state[loc]` gives the stored list, or KeyError exactly when loc is missing |
| Domain.First | ocaml/test/test_instructions.py:141 | `cells[0]` gives the first cell, or IndexError exactly when the list is empty |
| Domain.FirstCell | ocaml/test/test_instructions.py:249 | `my_state[loc][0]` succeeds exactly when loc holds a non-empty list; otherwise KeyError or IndexError |
| Domain.SetFirst | ocaml/test/test_instructions.py:458 | an in-place update of a first cell changes that cell only, and keeps the rest of its list and every other location |
| NodeIds.DecimalString | ocaml/test/test_instructions.py:182 | `str(n)` is a non-empty string of digits with no leading zero |
| NodeIds.ParseDecimalString | ocaml/test/test_instructions.py:182 | reading back what `str(n)` wrote gives n |
| NodeIds.NextNodeId | ocaml/test/test_instructions.py:182 | `str(int(id) + 1)` exists exactly when the id is decimal; it parses to the id's number plus one and is spelled as `str` spells it: digits only, no leading zero |
| Flags.ZfOf | ocaml/test/test_instructions.py:115-117 | zf is 1 exactly when the value is 0, and 0 otherwise |
| Flags.SfOf | ocaml/test/test_instructions.py:120-122 | `val & 0x80000000 != 0` tests bit 31 of the value |
| Flags.SfIsSign | ocaml/test/test_instructions.py:120-122 | for a 32-bit value, sf is 1 exactly when the value is at least 0x80000000 (negative as a signed 32-bit number) |
| Flags.AfAlwaysZero | ocaml/test/test_instructions.py:110-112 | `((val ^ op1 ^ op2) & 0x4) >> 3` is 0 for every operand |
| Flags.AfSymmetric | ocaml/test/test_instructions.py:110-112 | calc_af does not depend on the order of its three operands |
| Flags.ParityFlag | ocaml/test/test_instructions.py:125-132 | the mask, three xor-folds and final test of calc_pf give 1 exactly when the low byte has an even number of set bits |
| Flags.LowByteKept | ocaml/test/test_instructions.py:126 | `val &= 0xff` keeps the set bits of the low byte |
| Flags.PfIgnoresHighBits | ocaml/test/test_instructions.py:125-132 | bits above bit 7 never change pf |
| Bits.BitOfAnd | ocaml/test/test_instructions.py:111 | bit i of `x & y` is set exactly when bit i is set in both, for negative operands too |
| Bits.BitOfXor | ocaml/test/test_instructions.py:127-129 | bit i of `x ^ y` is set exactly when x and y differ at bit i |
| Bits.BitOfShr | ocaml/test/test_instructions.py:127-129 | bit i of `x >> k` is bit i + k of x |
| Bits.AndLowMask | ocaml/test/test_instructions.py:481-484 | `x & 0xff` (in general `x & (2^n - 1)`) is x modulo 256, negative x included |
| Bits.AndHighMask | ocaml/test/test_instructions.py:458 | for 0 <= x < 2^32, `x & 0xfffffff0` is x rounded down to a multiple of 16 |
| Oracle.WithRegWrites | ocaml/test/test_instructions.py:146-152 | setReg leaves one cell with the given value and taint, of the register's width, with no top or bottom, in region `s` exactly for esp and `g` otherwise; no other location changes |
| Oracle.WithFlagWrites | ocaml/test/test_instructions.py:83-98 | clearFlag and setFlag leave one untainted `g` cell holding 0 or 1; no other location changes |
| Oracle.WithFlagUndefinedWrites | ocaml/test/test_instructions.py:101-107 | undefBitFlag leaves one cell with value 0 and vtop 1 in region `t`; no other location changes |
| Oracle.FlagIsUntaintedReg | ocaml/test/test_instructions.py:83-98 | for every register other than esp, clearFlag and setFlag store exactly what setReg stores with taint 0 |
| Oracle.WithFlagTainted | ocaml/test/test_instructions.py:135-143 | taintFlag sets taint 1 and clears ttop and tbot of the first cell only; value fields, the rest of the list and other locations are kept; KeyError exactly when the flag is missing, IndexError when its list is empty |
| Oracle.SetReg | ocaml/test/test_instructions.py:146-152 | the in-place update leaves the mapping WithReg describes; node id and address are unchanged |
| Oracle.ClearFlag | ocaml/test/test_instructions.py:83-89 | the in-place update leaves the mapping WithFlag describes with bit 0; node id and address are unchanged |
| Oracle.SetFlag | ocaml/test/test_instructions.py:92-98 | the in-place update leaves the mapping WithFlag describes with bit 1; node id and address are unchanged |
| Oracle.UndefBitFlag | ocaml/test/test_instructions.py:101-107 | the in-place update leaves the mapping WithFlagUndefined describes |
| Oracle.TaintFlag | ocaml/test/test_instructions.py:135-143 | the in-place update of the first cell leaves the mapping WithFlagTainted describes; on KeyError or IndexError the state is unchanged |
| Oracle.CalcAf | ocaml/test/test_instructions.py:110-112 | stores AfOf(val, op1, op2) in af through setReg |
| Oracle.CalcZf | ocaml/test/test_instructions.py:115-117 | stores ZfOf(val) in zf through setReg |
| Oracle.CalcSf | ocaml/test/test_instructions.py:120-122 | stores SfOf(val) (bit 31) in sf through setReg |
| Oracle.CalcPf | ocaml/test/test_instructions.py:125-132 | stores the even-parity bit of the low byte in pf through setReg |
| Oracle.ForceTaint | ocaml/test/test_instructions.py:174-176 | every loaded cell gets taint 0xff and keeps every other field |
| Oracle.DereferenceUnreachable | ocaml/test/test_instructions.py:157-159 | the load gives None exactly when the pointer's vbot is non-zero |
| Oracle.DereferenceUnknownAddress | ocaml/test/test_instructions.py:160-166 | a pointer with top bits loads one cell: the pointer with value 0, vbot 0, vtop 0xffffffff, and region, width and taint fields kept |
| Oracle.DereferenceConcrete | ocaml/test/test_instructions.py:167-177 | a concrete pointer loads the list at its region and value (KeyError exactly when none is stored); cells are returned unchanged when the pointer is untainted, and with taint 0xff otherwise |
| Oracle.DereferenceTaintedPointer | ocaml/test/test_instructions.py:167-173 | a tainted pointer reads the same location as its untainted copy, with taint forced to 0xff |
| Oracle.DereferenceData | ocaml/test/test_instructions.py:155-177 | the copy-then-loop implementation returns exactly Dereference of the state and pointer, and modifies neither |
| Oracle.AsWrittenUnknownAddressIsNotAList | ocaml/test/test_instructions.py:160-166 | as written, a top pointer yields a bare cell, while a concrete pointer yields a list |
| Oracle.DereferenceCorrectsOnlyUnknownAddress | ocaml/test/test_instructions.py:155-177 | the corrected dereference agrees with the code as written except that it wraps the top-pointer cell in a one-element list |
| Oracle.Prepare | ocaml/test/test_instructions.py:180-183 | the expected successor has the same address and mapping and the next node id, spelled with digits only and no leading zero; ValueError exactly when the id is not decimal |
| Oracle.PrepareExpectedState | ocaml/test/test_instructions.py:180-183 | the copy is a fresh state holding what Prepare predicts; the input state is not modified |
| AbstractState.State.constructor | ocaml/test/test_instructions.py:181 | the deep copy holds the given node id, address and mapping |
| Properties.ParityOfZero | ocaml/test/test_instructions.py:230 | 0 has even parity, so pf is 1 |
| Properties.ParityOfAllOnes | ocaml/test/test_instructions.py:379 | 0xffffffff has eight set bits in its low byte, so pf is 1 |
| Properties.XorRegSelfEffect | ocaml/test/test_instructions.py:221-230 | `xor reg,reg` zeroes the register, sets zf and pf, clears sf, of and cf, leaves af undefined, advances 2 bytes and one node, and writes nothing else |
| Properties.XorRegSelfWrites | ocaml/test/test_instructions.py:224-230 | only the register and the six status flags are written |
| Properties.XorRegSelfFlagsAgreeWithCalculators | ocaml/test/test_instructions.py:225-230 | the zf, pf and sf that xor-self hard-codes are what calc_zf, calc_pf and calc_sf give for the result 0 |
| Properties.IncDecEffect | ocaml/test/test_instructions.py:246-286 | inc (dec) moves the register's first cell up (down) by 1 modulo 2^32 and keeps its other fields; af 0; pf, sf, zf of the new value; of 0; nothing else written; ValueError, KeyError or IndexError exactly when the node id, the register or its first cell is missing |
| Properties.IncDecWrites | ocaml/test/test_instructions.py:249-256 | only the register and af, pf, sf, zf, of are written |
| Properties.IncDecZeroFlag | ocaml/test/test_instructions.py:255 | for a 32-bit register, zf is set exactly when inc wraps 0xffffffff to 0, or dec takes 1 to 0 |
| Properties.StepWrapsToZero | ocaml/test/test_instructions.py:249 | a 32-bit value moved by ±1 reaches 0 modulo 2^32 only from 0xffffffff upwards or from 1 downwards |
| Properties.IncDecSignFlag | ocaml/test/test_instructions.py:254 | sf after inc or dec is the sign of the new 32-bit value |
| Properties.IncDecRoundTrip | ocaml/test/test_instructions.py:246-286 | inc then dec (or dec then inc) gives a 32-bit register back; only status flags differ; two nodes and two bytes further on |
| Properties.PushEffect | ocaml/test/test_instructions.py:304-309 | push moves esp's first cell down by 4 and stores the register's list from before at the stack slot of the new esp; nothing else is written; failures in the test's lookup order |
| Properties.PopEffect | ocaml/test/test_instructions.py:326-331 | pop moves esp up by 4 and gives the register the list at the stack slot of the old esp; nothing else is written |
| Properties.PushPopRoundTrip | ocaml/test/test_instructions.py:304-331 | push then pop of the same register restores esp and the register; the pushed list stays in the slot below esp |
| Properties.OrRegFfEffect | ocaml/test/test_instructions.py:375-383 | `or reg,0xffffffff` stores 0xffffffff; zf 0, sf 1, pf 1, of and cf 0, af undefined; nothing else written |
| Properties.OrRegFfWrites | ocaml/test/test_instructions.py:377-383 | only the register and the six status flags are written |
| Properties.AndEspEffect | ocaml/test/test_instructions.py:457-465 | `and esp,0xfffffff0` keeps bits 4..31 of esp's value and clears bits 0..3; zf, sf, pf of the new value; of, cf 0; af undefined; the address does not move |
| Properties.AndEspWrites | ocaml/test/test_instructions.py:458-465 | only esp and the six status flags are written |
| Properties.AndEspAligns | ocaml/test/test_instructions.py:458-464 | a 32-bit esp is rounded down to a multiple of 16; zf is set exactly when esp was below 16; sf keeps esp's sign |
| Properties.AlignDown16 | ocaml/test/test_instructions.py:458 | the masked value is v - v % 16, within 16 below v, zero exactly when v < 16, and on the same side of 0x80000000 as v |
| Properties.LowByteIsModulo | ocaml/test/test_instructions.py:481-484 | masking the four fields with 0xff reduces each modulo 256 |
| Properties.MovzxEffect | ocaml/test/test_instructions.py:478-484 | movzx edx,dl reduces value, vtop, taint and ttop of edx's first cell modulo 256, keeps the rest, and takes the observed address |
| Properties.MovzxIdempotent | ocaml/test/test_instructions.py:481-484 | applying the movzx expectation twice changes nothing more |
| Properties.ByteLoadEffect | ocaml/test/test_instructions.py:499-508 | eax's first cell takes the four fields of the cell at global 0x100 modulo 256 and keeps its own region, width and bottoms; the cell at 0x100 is looked up first |
| Properties.ByteLoadTaintPtrEffect | ocaml/test/test_instructions.py:521-550 | for `movzx eax,byte [eax]` and `mov al,byte [eax]`, eax's first cell takes value and vtop of the cell at global 1 modulo 256, taint 0xff, ttop 0 |
| Properties.ByteLoadTaintPtrAgreesWithDereference | ocaml/test/test_instructions.py:524-529 | when eax is a tainted concrete pointer to global 1, the expected byte's taint and value are those dereference_data loads |
| Properties.MovRegEbpm6Effect | ocaml/test/test_instructions.py:400-404 | the register gets exactly what dereference_data loads through ebp's first cell minus 6; nothing else is written; the None entry appears exactly for a bottom pointer |
| Properties.MovEbpRegNoSuccessor | ocaml/test/test_instructions.py:423-430 | no successor is expected exactly when the register's first cell is a bottom pointer |
| Properties.MovEbpRegEffect | ocaml/test/test_instructions.py:423-433 | otherwise ebp gets exactly the loaded cells and nothing else is written; the errors are the lookups' |
| Properties.MovEbpRegUnknownAddress | ocaml/test/test_instructions.py:425-432 | a top pointer in the register makes ebp a single fully-unknown copy of the pointer |
| Builders.ExpectXorRegSelf | ocaml/test/test_instructions.py:221-230 | the in-place construction yields exactly XorRegSelf of the state before, in a fresh state |
| Builders.ExpectIncDec | ocaml/test/test_instructions.py:246-256 | the in-place construction of test_inc and test_dec yields exactly IncDec, in a fresh state |
| Builders.ExpectPush | ocaml/test/test_instructions.py:304-309 | the in-place construction yields exactly Push |
| Builders.ExpectPop | ocaml/test/test_instructions.py:326-331 | the in-place construction yields exactly Pop |
| Builders.ExpectOrRegFf | ocaml/test/test_instructions.py:375-383 | the in-place construction yields exactly OrRegFf |
| Builders.ExpectAndEsp | ocaml/test/test_instructions.py:457-465 | the in-place construction yields exactly AndEsp |
| Builders.ExpectMovzx | ocaml/test/test_instructions.py:478-484 | the in-place construction yields exactly Movzx |
| Builders.ExpectByteLoad | ocaml/test/test_instructions.py:499-508 | the in-place construction yields exactly ByteLoad |
| Builders.ExpectByteLoadTaintPtr | ocaml/test/test_instructions.py:521-529 | the in-place construction yields exactly ByteLoadTaintPtr |
| Builders.ExpectMovRegEbpm6 | ocaml/test/test_instructions.py:400-404 | the construction through DereferenceData yields exactly MovRegEbpm6 |
| Builders.ExpectMovEbpReg | ocaml/test/test_instructions.py:423-432 | the construction through DereferenceData yields exactly MovEbpReg, None where no successor is expected |

## Left out

- The `analyzer` and `initialState` fixtures (`ocaml/test/test_instructions.py:14-53`) are left out. They write files, change directories and run the analyzer as another process.
- `assertEqualStates` (`ocaml/test/test_instructions.py:186-208`) is left out. It runs `ndisasm` as a subprocess for message text, and compares states with `cfa.State.__eq__` and `diff`, which pybincat defines and which is not part of this model. States compare here by structural equality of `Snapshot`.
- `getNextState` and `assertNoNextState` (`ocaml/test/test_instructions.py:61-80`) navigate the analyzer's CFA graph, which is not part of this model. `MovEbpReg` returns `None` where the test expects no successor.
- The pytest parametrisation and the opcode bytes are test inputs only. Builders take the register name as a parameter. Builders that run the instruction at an address the test reads back (`stateAfter.address`) take that address as a parameter `observed`.
- `test_sub` is marked as expected to fail, and `test_nop` builds no expected state. Both are left out.
- pybincat's `Value` arithmetic (`+= 1`, `-= 4`, `- 6`) is not part of this model. `Domain.AddValue`: modelled as `value := (value + k) mod 2^32` with every other field kept. It does not propagate top or taint bits.
- `Domain.RegLen`: modelled as 1 for the six status flags and 32 for every other register name, standing in for pybincat's `reg_len`.
- The mapping's key is modelled as region plus name or address. pybincat's `Value` hashing and equality, including whether the key's width matters, is not part of this model.
- Cells are values here, so the tests' aliasing is not modelled. For example, `test_push` stores the very list object of the state before.
- `NodeIds.NextNodeId`: accepts only plain decimal digits. Python's `int()` also accepts a sign and surrounding whitespace, which this model reports as `BadNodeId`.
- `Expectations.ByteLoad` predicts the node id after the state before, as `test_movzx_byte` does, although two instructions run. Whether node ids take part in state equality is in pybincat, which is not part of this model.
- `Expectations.MovRegEbpm6`: where the code stores `None` as the register's entry, the model gives `Err(NoneEntry)` instead, because a mapping here holds only cell lists.

## Findings

| source | as written | input that shows it | evidently intended | confidence | as-written member | corrected member |
|---|---|---|---|---|---|---|
| ocaml/test/test_instructions.py:160-166 | for a pointer with top bits, `dereference_data` returns the copied pointer itself, a single `Value`. Its other branch returns a list of values, and its callers store the result as a register's whole entry (lines 402-404, 432) | a pointer with `vbot = 0` and `vtop = 0xffffffff` | return `[newptr]`, a one-cell list like the concrete branch | medium, not executed | Oracle.AsWrittenUnknownAddressIsNotAList | Oracle.DereferenceCorrectsOnlyUnknownAddress |
