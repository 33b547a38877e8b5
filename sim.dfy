/**
 * The simulator's own records (`Process`, `Field`, `Instruction`) and the
 * translation of a parsed instruction into a core cell.
 */
module Sim {
  import LoadFile
  import opened Modular

  /** `u8` team identifiers. */
  type Team = t: nat | t < 256

  /** A process: its team and the index of the cell it executes. */
  datatype Process = Process(team: Team, pointer: nat)

  /** A field whose value has been normalised into the core's address space. */
  datatype Field = Field(mode: LoadFile.AddressMode, value: nat)

  /** One core cell. */
  datatype Instruction = Instruction(
    opcode: LoadFile.Opcode,
    modifier: LoadFile.Modifier,
    fieldA: Field,
    fieldB: Field)

  /** Both field values of a cell lie in `[0, coresize)`. */
  predicate Normalised(c: Instruction, coresize: nat)
  {
    c.fieldA.value < coresize && c.fieldB.value < coresize
  }

  /** Every cell of the core is normalised against the core's length. */
  predicate CoreNormalised(core: seq<Instruction>)
  {
    forall k :: 0 <= k < |core| ==> Normalised(core[k], |core|)
  }

  /** Every process points inside the core. */
  predicate PointersInCore(processes: seq<Process>, coresize: nat)
  {
    forall k :: 0 <= k < |processes| ==> processes[k].pointer < coresize
  }

  /**
   * `translate_instruction`: opcode, modifier and address modes are kept, and
   * each literal becomes the value in `[0, coresize)` congruent to it.
   * A label (which panics in the source) is excluded by the precondition.
   */
  function Translate(p: LoadFile.Instruction, coresize: nat): (r: Instruction)
    requires coresize > 0 && LoadFile.Resolved(p)
    ensures r.opcode == p.opcode && r.modifier == p.modifier
    ensures r.fieldA.mode == p.fieldA.mode && r.fieldB.mode == p.fieldB.mode
    ensures Normalised(r, coresize)
    ensures (p.fieldA.value.n - r.fieldA.value) % coresize == 0
    ensures (p.fieldB.value.n - r.fieldB.value) % coresize == 0
  {
    NegModCongruent(p.fieldA.value.n, coresize);
    NegModCongruent(p.fieldB.value.n, coresize);
    Instruction(
      p.opcode,
      p.modifier,
      Field(p.fieldA.mode, NegMod(p.fieldA.value.n, coresize)),
      Field(p.fieldB.mode, NegMod(p.fieldB.value.n, coresize)))
  }

  /** Literals already in `[0, coresize)` are carried over unchanged. */
  lemma TranslateKeepsInRange(p: LoadFile.Instruction, coresize: nat)
    requires coresize > 0 && LoadFile.Resolved(p)
    requires 0 <= p.fieldA.value.n < coresize && 0 <= p.fieldB.value.n < coresize
    ensures Translate(p, coresize).fieldA.value == p.fieldA.value.n
    ensures Translate(p, coresize).fieldB.value == p.fieldB.value.n
  {
    NegModInRange(p.fieldA.value.n, coresize);
    NegModInRange(p.fieldB.value.n, coresize);
  }

  /**
   * Two parsed instructions with the same opcode, modifier and modes translate
   * to the same cell exactly when their literals are pairwise congruent.
   */
  lemma TranslateEqual(p: LoadFile.Instruction, q: LoadFile.Instruction, coresize: nat)
    requires coresize > 0 && LoadFile.Resolved(p) && LoadFile.Resolved(q)
    requires p.opcode == q.opcode && p.modifier == q.modifier
    requires p.fieldA.mode == q.fieldA.mode && p.fieldB.mode == q.fieldB.mode
    ensures Translate(p, coresize) == Translate(q, coresize) <==>
      (p.fieldA.value.n - q.fieldA.value.n) % coresize == 0 &&
      (p.fieldB.value.n - q.fieldB.value.n) % coresize == 0
  {
    NegModEqual(p.fieldA.value.n, q.fieldA.value.n, coresize);
    NegModEqual(p.fieldB.value.n, q.fieldB.value.n, coresize);
  }
}
