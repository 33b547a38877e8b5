/**
 * `step`: executes the instruction under the first process. Pre-decrements
 * are applied to the working copy `core` of the cells after `new_core` has
 * been cloned from it, so they reach the result only through the cell that
 * `MOV` copies. `DAT` removes the first process; `MOV` copies one whole
 * cell; every other opcode leaves core and processes as they were.
 */
module SimStep {
  import opened LoadFile
  import opened Sim

  /** The pre-decrement named by field `f` is possible: its target exists and is non-zero. */
  predicate CanDecrement(core: seq<Sim.Instruction>, f: Sim.Field)
  {
    match f.mode
    case PreDecIndirectA => f.value < |core| && core[f.value].fieldA.value > 0
    case PreDecIndirectB => f.value < |core| && core[f.value].fieldB.value > 0
    case _ => true
  }

  /** `x` and `y` agree everywhere except possibly on the value of field A. */
  predicate SameButValueA(x: Sim.Instruction, y: Sim.Instruction)
  {
    x.opcode == y.opcode && x.modifier == y.modifier &&
    x.fieldA.mode == y.fieldA.mode && x.fieldB == y.fieldB
  }

  /** `x` and `y` agree everywhere except possibly on the value of field B. */
  predicate SameButValueB(x: Sim.Instruction, y: Sim.Instruction)
  {
    x.opcode == y.opcode && x.modifier == y.modifier &&
    x.fieldA == y.fieldA && x.fieldB.mode == y.fieldB.mode
  }

  /**
   * The pre-decrement of one field: for `{` the A value of the absolute
   * cell `core[f.value]` drops by one, for `<` its B value does; nothing
   * else changes, and other modes change nothing.
   */
  function PreDecremented(core: seq<Sim.Instruction>, f: Sim.Field): (r: seq<Sim.Instruction>)
    requires CanDecrement(core, f)
    ensures |r| == |core|
    ensures forall k :: 0 <= k < |core| && k != f.value ==> r[k] == core[k]
    ensures !f.mode.PreDecIndirectA? && !f.mode.PreDecIndirectB? ==> r == core
    ensures f.mode.PreDecIndirectA? ==>
      SameButValueA(r[f.value], core[f.value]) && r[f.value].fieldA.value + 1 == core[f.value].fieldA.value
    ensures f.mode.PreDecIndirectB? ==>
      SameButValueB(r[f.value], core[f.value]) && r[f.value].fieldB.value + 1 == core[f.value].fieldB.value
  {
    match f.mode
    case PreDecIndirectA =>
      var c := core[f.value];
      core[f.value := c.(fieldA := c.fieldA.(value := c.fieldA.value - 1))]
    case PreDecIndirectB =>
      var c := core[f.value];
      core[f.value := c.(fieldB := c.fieldB.(value := c.fieldB.value - 1))]
    case _ => core
  }

  /** Both pre-decrements of `instr` can be applied, field A's first. */
  predicate CanDecrementBoth(core: seq<Sim.Instruction>, instr: Sim.Instruction)
  {
    CanDecrement(core, instr.fieldA) && CanDecrement(PreDecremented(core, instr.fieldA), instr.fieldB)
  }

  /** The working copy of the cells after field A's, then field B's, pre-decrement. */
  function Decremented(core: seq<Sim.Instruction>, instr: Sim.Instruction): (r: seq<Sim.Instruction>)
    requires CanDecrementBoth(core, instr)
    ensures |r| == |core|
    ensures forall k :: 0 <= k < |core| && k != instr.fieldA.value && k != instr.fieldB.value ==> r[k] == core[k]
    ensures (!instr.fieldA.mode.PreDecIndirectA? && !instr.fieldA.mode.PreDecIndirectB? &&
             !instr.fieldB.mode.PreDecIndirectA? && !instr.fieldB.mode.PreDecIndirectB?) ==> r == core
  {
    PreDecremented(PreDecremented(core, instr.fieldA), instr.fieldB)
  }

  /** The mode reads a pointer cell (every mode but `#` and `$`). */
  predicate Indirect(mode: AddressMode)
  {
    !mode.Immediate? && !mode.Direct?
  }

  /** The pointer cell `value + pointer` that an indirect field reads exists. */
  predicate Resolves(mem: seq<Sim.Instruction>, f: Sim.Field, pointer: nat)
  {
    Indirect(f.mode) ==> f.value + pointer < |mem|
  }

  /**
   * The offset, relative to the executing cell, that a field of `MOV`
   * designates: 0 for `#`, the value for `$`, and the value plus the A (or B)
   * value of the pointer cell for the A (or B) indirect family. The
   * pointer cell is read from the pre-decremented working copy.
   */
  function Offset(mem: seq<Sim.Instruction>, f: Sim.Field, pointer: nat): (r: nat)
    requires Resolves(mem, f, pointer)
    ensures f.mode.Immediate? ==> r == 0
    ensures !f.mode.Immediate? ==> r >= f.value
    ensures !Indirect(f.mode) ==> r <= f.value
    ensures Indirect(f.mode) && CoreNormalised(mem) ==> r < f.value + |mem|
  {
    match f.mode
    case Immediate => 0
    case Direct => f.value
    case IndirectA | PostIncIndirectA | PreDecIndirectA => mem[f.value + pointer].fieldA.value + f.value
    case IndirectB | PostIncIndirectB | PreDecIndirectB => mem[f.value + pointer].fieldB.value + f.value
  }

  /**
   * Resolution reads nothing but the pointer cell: two memories that agree
   * on cell `f.value + pointer` (or any two memories, for `#` and `$`) give
   * the same offset.
   */
  lemma OffsetReadsOnlyPointerCell(mem: seq<Sim.Instruction>, mem': seq<Sim.Instruction>, f: Sim.Field, pointer: nat)
    requires Resolves(mem, f, pointer) && Resolves(mem', f, pointer)
    requires Indirect(f.mode) ==> mem[f.value + pointer] == mem'[f.value + pointer]
    ensures Offset(mem, f, pointer) == Offset(mem', f, pointer)
  {
  }

  /** `step` does not panic: every index it uses exists and no decrement starts at zero. */
  predicate Steppable(core: seq<Sim.Instruction>, processes: seq<Process>)
  {
    |processes| > 0 && processes[0].pointer < |core| &&
    var instr := core[processes[0].pointer];
    CanDecrementBoth(core, instr) &&
    (instr.opcode == Mov ==>
      var mem, p := Decremented(core, instr), processes[0].pointer;
      Resolves(mem, instr.fieldA, p) && Resolves(mem, instr.fieldB, p) &&
      Offset(mem, instr.fieldA, p) + p < |mem| && Offset(mem, instr.fieldB, p) + p < |mem|)
  }

  /** The cell `MOV` reads from. */
  function MovSource(core: seq<Sim.Instruction>, processes: seq<Process>): nat
    requires Steppable(core, processes)
    requires core[processes[0].pointer].opcode == Mov
  {
    var instr, p := core[processes[0].pointer], processes[0].pointer;
    Offset(Decremented(core, instr), instr.fieldA, p) + p
  }

  /** The cell `MOV` writes to. */
  function MovDest(core: seq<Sim.Instruction>, processes: seq<Process>): nat
    requires Steppable(core, processes)
    requires core[processes[0].pointer].opcode == Mov
  {
    var instr, p := core[processes[0].pointer], processes[0].pointer;
    Offset(Decremented(core, instr), instr.fieldB, p) + p
  }

  /**
   * `step`. The core keeps its length. `DAT` removes exactly the first
   * process; any other opcode keeps the process list. Only `MOV` changes the
   * core, and then only its destination cell, which receives the
   * pre-decremented source cell. A core whose values are normalised stays
   * normalised, and processes inside the core stay inside it.
   */
  method Step(core: seq<Sim.Instruction>, processes: seq<Process>)
    returns (newCore: seq<Sim.Instruction>, newProcesses: seq<Process>)
    requires Steppable(core, processes)
    ensures |newCore| == |core|
    ensures core[processes[0].pointer].opcode.Dat? ==> newProcesses == processes[1..]
    ensures !core[processes[0].pointer].opcode.Dat? ==> newProcesses == processes
    ensures !core[processes[0].pointer].opcode.Mov? ==> newCore == core
    ensures core[processes[0].pointer].opcode.Mov? ==>
      newCore[MovDest(core, processes)] ==
        Decremented(core, core[processes[0].pointer])[MovSource(core, processes)]
    ensures core[processes[0].pointer].opcode.Mov? ==>
      forall k :: 0 <= k < |core| && k != MovDest(core, processes) ==> newCore[k] == core[k]
    ensures CoreNormalised(core) ==> CoreNormalised(newCore)
    ensures PointersInCore(processes, |core|) ==> PointersInCore(newProcesses, |core|)
  {
    var mem := core;
    newProcesses := processes;
    var process := newProcesses[0];
    var instruction := mem[process.pointer];
    newCore := mem;

    // pre-decrements of field A, then field B, on the working copy only
    mem := PreDecremented(mem, instruction.fieldA);
    mem := PreDecremented(mem, instruction.fieldB);

    if instruction.opcode == Dat {
      newProcesses := newProcesses[1..];
    } else if instruction.opcode == Mov {
      var source := Offset(mem, instruction.fieldA, process.pointer);
      var dest := Offset(mem, instruction.fieldB, process.pointer);
      newCore := newCore[dest + process.pointer := mem[source + process.pointer]];
      if CoreNormalised(core) {
        DecrementedNormalised(core, instruction);
        assert Normalised(mem[source + process.pointer], |core|);
      }
    }
    // ADD, SUB, MUL, DIV, MOD, JMP, JMZ, JMN, DJN, SPL, CMP/SEQ, SNE, SLT and NOP do nothing
  }

  /** Pre-decrements only lower values, so a normalised core stays normalised. */
  lemma DecrementedNormalised(core: seq<Sim.Instruction>, instr: Sim.Instruction)
    requires CanDecrementBoth(core, instr) && CoreNormalised(core)
    ensures CoreNormalised(Decremented(core, instr))
  {
    var once := PreDecremented(core, instr.fieldA);
    assert CoreNormalised(once);
  }

  /**
   * When both fields pre-decrement the same value of the same cell (`{`
   * twice, or `<` twice), that value drops by two, the A field's decrement
   * being applied first.
   */
  lemma DecrementedTwice(core: seq<Sim.Instruction>, instr: Sim.Instruction)
    requires CanDecrementBoth(core, instr)
    requires instr.fieldA.value == instr.fieldB.value
    requires instr.fieldA.mode == instr.fieldB.mode
    requires instr.fieldA.mode.PreDecIndirectA? || instr.fieldA.mode.PreDecIndirectB?
    ensures instr.fieldA.mode.PreDecIndirectA? ==>
      Decremented(core, instr)[instr.fieldA.value].fieldA.value + 2 == core[instr.fieldA.value].fieldA.value
    ensures instr.fieldA.mode.PreDecIndirectB? ==>
      Decremented(core, instr)[instr.fieldA.value].fieldB.value + 2 == core[instr.fieldA.value].fieldB.value
  {
  }
}
