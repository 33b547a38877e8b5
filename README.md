# eMARS simulator core in Dafny

This project models `src/sim.rs` of eMARS, a partial Redcode simulator after the ICWS'94 draft standard. It is a model of the code as written, not of a complete MARS. It covers four parts:

- `negative_mod`: normalises a signed integer into `[0, modulus)`.
- `translate_instruction`: turns a parsed instruction into a core cell, with its field values normalised modulo the core size.
- The placement part of `init`: builds a core of `coresize` default cells and writes warrior A and then warrior B into it. It returns the core and the two initial processes.
- `step`: executes the instruction under the first process. It applies pre-decrements, kills the process on `DAT` and copies one cell on `MOV`. Every other opcode does nothing.

Modules:

- `Wrappers` holds `Option` and `Result`.
- `LoadFile` holds the parser's types: opcodes, modifiers, address modes, and parsed instructions whose values are literals or labels.
- `Modular` holds `negative_mod`.
- `Sim` holds the records `Process`, `Field` and `Instruction`, and `translate_instruction`.
- `SimInit` holds `init`'s placement.
- `SimStep` holds `step`.

Types: Rust `usize` is `nat` and `isize` is `int`. A Vec that the code builds or takes by value is a `seq`. The loop of `negative_mod` is a `while` loop in `NegativeMod`. The two placement loops of `init` are a `for` loop in `PlaceWarrior`, which `Init` calls once per warrior. These methods are proved against the specification functions `NegMod` and `Placed`/`InitialCore`, and lemmas state what those functions mean. `Step` states its new core and process list directly in its postconditions.

Panics that a caller must avoid become preconditions:

- a label left in a parsed instruction;
- an empty process list;
- an index outside the core;
- a pre-decrement of a zero value;
- a zero-size core with a non-empty warrior A;
- a zero modulus: `negative_mod` divides by zero, or loops forever on a negative `n`.

Usize underflow counts as a panic, as in a debug build. The three panics in `init`'s offset bounds (src/sim.rs:107-109) are modelled as an error result (`LoadError`), because they depend only on the sizes and the origin.

Input and output are parameters. Reading the warrior files, parsing them and the warning `println!`s stay outside the model, so `Init` takes the two parsed programs. The random offset is also a parameter. When the offset range exists, `Init` requires the offset to lie in it.

Where the code departs from the ICWS'94 draft and from a standard MARS loader, the model follows the code:

- Warrior A's instruction `i` is placed at `(i − origin_A) mod coresize`, not at `i`.
- Warrior B's instruction `i` is placed at `(i − origin_B + offset) mod coresize`, not at `offset + i`.
- Team 1 starts at `offset`, not at `offset + origin_B`. In the code, `offset` is where B's entry instruction lands.
- Pre-decrement targets the absolute cell `core[value]`, not `pointer + value`.
- Pre-decrements are applied to the working copy of the core after the result was cloned from it. They reach the result only through the cell that `MOV` copies.
- `MOV` indices are not reduced modulo the core size.
- `MOV` copies the whole cell whatever the modifier.
- `#` resolves to offset 0.
- A pre-decrement of 0 panics instead of wrapping to `coresize − 1`.
- There is no post-increment, no pointer advance and no queue rotation.
- `JMN` has no branch at all, so it does nothing, like the empty branches.

## Model

| member | source | states |
|---|---|---|
| `Modular.NegMod` | src/sim.rs:57-63 | The loop of `negative_mod` as recursion. For a positive modulus the result lies in `[0, modulus)`. |
| `Modular.NegativeMod` | src/sim.rs:57-63 | The `while` loop returns `NegMod(n, modulus)`. The result is in range and congruent to `n`. For `n ≥ 0` the loop never runs and the result is `n % modulus`. Otherwise the loop runs just enough times to make the value non-negative. |
| `Modular.NegModIsRemainder` | src/sim.rs:57-63 | The result is the Euclidean remainder `n % modulus`, for negative `n` too. |
| `Modular.NegModCongruent` | src/sim.rs:57-63 | `n − negative_mod(n)` is a multiple of the modulus. |
| `Modular.NegModIdempotent` | src/sim.rs:57-63 | Normalising twice gives the same value as normalising once. |
| `Modular.NegModEqual` | src/sim.rs:57-63 | Two integers normalise to the same value if and only if they are congruent modulo the modulus. |
| `Modular.NegModInRange` | src/sim.rs:57-63 | A value already in `[0, modulus)` is returned unchanged. |
| `Sim.Translate` | src/sim.rs:29-55 | Opcode, modifier and both address modes are kept. Each field value lies in `[0, coresize)` and is congruent to its literal. A label is excluded by the precondition, since it panics. |
| `Sim.TranslateKeepsInRange` | src/sim.rs:29-55 | Literals already in `[0, coresize)` are carried over exactly. |
| `Sim.TranslateEqual` | src/sim.rs:29-55 | Parsed instructions with equal opcode, modifier and modes become the same cell if and only if their literals are pairwise congruent. |
| `SimInit.PlacementRange` | src/sim.rs:107-109 | The offset range exists if and only if `origin_A ≤ len_A` and `len_A + 2·(coresize/80) < coresize`. An origin past A's end fails with the lower-bound underflow. A range that exists is non-empty and ends at or before `coresize − origin_A`. |
| `SimInit.OffsetSeparated` | src/sim.rs:107-109 | An offset in the range is at least `coresize/80` past the end of A's image. It is more than `coresize/80` before A's first cell. |
| `SimInit.Slot` | src/sim.rs:99-100 | The cell an instruction lands in (`negative_mod` of its signed index) lies inside the core. |
| `SimInit.Placed` | src/sim.rs:98-102 | The core after `n` iterations of a placement loop keeps exactly `coresize` cells. |
| `SimInit.PlacedMiss` | src/sim.rs:98-102 | A cell that no placed instruction lands in keeps its previous content. |
| `SimInit.PlacedLastWins` | src/sim.rs:111-115 | Instruction `i` stays in its cell, translated, unless a later instruction of the same loop lands in that cell. |
| `SimInit.PlacedNormalised` | src/sim.rs:98-102 | Placing instructions keeps every field value of a normalised core below `coresize`. |
| `SimInit.SlotsDistinct` | src/sim.rs:99-100 | Two indices fewer than `coresize` apart land in different cells. |
| `SimInit.NoSelfCollision` | src/sim.rs:98-102 | A warrior no longer than the core never overwrites its own instructions. |
| `SimInit.EmptyCore` | src/sim.rs:92 | The starting core has exactly `coresize` cells, each equal to `default_instruction`. |
| `SimInit.InitialCore` | src/sim.rs:92-115 | The default-filled core followed by both placement loops has exactly `coresize` cells. |
| `SimInit.InitialCoreDefault` | src/sim.rs:92-115 | A cell that neither warrior lands in holds `default_instruction`. |
| `SimInit.InitialCoreB` | src/sim.rs:111-115 | B's instruction `i` is in its cell, translated, unless a later B instruction lands there. B is written last, so it wins every collision with A. |
| `SimInit.InitialCoreA` | src/sim.rs:98-102 | A's instruction `i` survives in its cell unless a later A instruction or any B instruction lands there. |
| `SimInit.InitialCoreNormalised` | src/sim.rs:92-115 | With a normalised default cell, every field value of the initial core is below `coresize`. |
| `SimInit.PlaceWarrior` | src/sim.rs:98-102 | The `for` loop writes instruction `i`, translated, to cell `negative_mod(i + shift)` in index order. It returns `Placed` of all the instructions. |
| `LoadFile.OriginOf` | src/sim.rs:94 | The origin a warrior declares, or 0 when it declares none. |
| `SimInit.StartProcesses` | src/sim.rs:103-118 | The process list `init` returns: two processes, team 0 at `origin_A` first and team 1 at `offset` second. |
| `SimInit.Init` | src/sim.rs:65-119 | Fails exactly when the offset range cannot be formed, with that error. On success, the core equals `InitialCore` (its cells are described by the three lemmas above) and has `coresize` cells. The processes are exactly `StartProcesses`, both inside the core. With a normalised default, every field value is below `coresize`. |
| `SimInit.TeamZeroMissesEntry` | src/sim.rs:98-103 | Counterexample for the code as written. With an 80-cell core, A = `NOP`/`MOV` with origin 1, B = `DAT` and offset 2, team 0 starts on the default cell and not on A's entry `MOV`. |
| `SimInit.EntryProcessesStartAtEntry` | src/sim.rs:103-116 | With team 0 at cell 0, each team starts on its own warrior's entry instruction. This needs the origins inside their warriors, warriors no longer than the core, and no B instruction at cell 0. |
| `SimStep.PreDecremented` | src/sim.rs:127-139 | For `{` the A value of cell `core[value]` drops by exactly one, for `<` its B value does. Nothing else in that cell or in any other cell changes. Other modes change nothing. A zero value or a missing cell is excluded. |
| `SimStep.Decremented` | src/sim.rs:127-139 | The working copy after field A's and then field B's pre-decrement. It keeps the core's length, changes no cell other than the two targets, and changes nothing when neither field pre-decrements. |
| `SimStep.Offset` | src/sim.rs:158-188 | The offset an operand of `MOV` designates. `#` gives 0 and `$` gives the field's value. An indirect mode gives at least the value, and less than the value plus the core size when the core is normalised. |
| `SimStep.DecrementedNormalised` | src/sim.rs:127-139 | Pre-decrements keep a normalised core normalised. |
| `SimStep.DecrementedTwice` | src/sim.rs:128-139 | When both fields pre-decrement the same value of the same cell, it drops by two: field A's decrement first, then field B's on the result. |
| `SimStep.OffsetReadsOnlyPointerCell` | src/sim.rs:158-188 | Address resolution reads only the pointer cell `value + pointer` (nothing for `#` and `$`): memories that agree on that cell give the same offset. |
| `SimStep.Step` | src/sim.rs:121-225 | The core keeps its length. `DAT` removes exactly the first process and keeps the rest in order. Any other opcode keeps the process list. Only `MOV` changes the core, and only at `dest + pointer`, which receives the pre-decremented cell at `source + pointer`. Offsets: 0 for `#`, the value for `$`, the value plus the pointer cell's A or B value for the indirect families. The normalisation and pointer invariants are preserved. |

## Findings

| source | as written | input that shows it | evidently intended | confidence | as-written member | corrected member |
|---|---|---|---|---|---|---|
| src/sim.rs:98-103 | A's instruction `i` goes to `i − origin_A`, so its entry instruction is at cell 0, but team 0 starts at `origin_A`. | core 80, A = `NOP $0,$0` / `MOV.I $0,$1` with origin 1, B = `DAT #0,#0`, offset 2: team 0 starts at cell 1, which holds the default cell. | Team 0 starts at cell 0, just as team 1 starts at `offset`, where B's entry lands. | not executed | `SimInit.TeamZeroMissesEntry` | `SimInit.EntryProcessesStartAtEntry` |

`Init` keeps line 103's `origin_A` so that it matches the source line for line. `EntryProcesses` is the corrected start list, and `EntryProcessesStartAtEntry` proves that it starts each team on its warrior's entry instruction.

## Left out

- File reading, parsing and the warning output of `init` (src/sim.rs:68-90): these are I/O and a foreign parser. `Init` takes the parsed programs.
- The random choice of the offset (src/sim.rs:105, 109): this is randomness. It is a parameter constrained to the range.
- Fixed-width overflow: `isize` overflow in `negative_mod` and in the signed indices, `usize` overflow in `MOV`'s index sums, and `i32` literals cast to `isize` are all unbounded integers here. With a normalised core the sums stay below three times the core size.
- Release-build wrap-around of `usize` underflow: the model treats underflow as a panic, as a debug build does.
- The opcodes `LDP`/`STP`: they are reserved opcodes that the code comments out. Like every opcode other than `DAT` and `MOV`, they would do nothing in `step`.
- Semantics for `ADD` … `NOP`, post-increment, pointer advance, team queues, turns and step limits: the code has none of these, so the model has none.
- `src/gui.rs` and `src/main.rs`: egui rendering with floating-point layout, and argument handling. They are not part of this model.
