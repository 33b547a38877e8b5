/**
 * The shapes that the external parser (the `corewars_core::load_file` types)
 * hands to the simulator: opcodes, modifiers, address modes, and parsed
 * instructions whose field values are still signed literals or labels.
 */
module LoadFile {
  import opened Wrappers

  /** ICWS'94 opcodes (the reserved p-space opcodes are not modelled). */
  datatype Opcode =
    | Dat | Mov | Add | Sub | Mul | Div | Mod
    | Jmp | Jmz | Jmn | Djn | Spl | Cmp | Seq | Sne | Slt | Nop

  /** Instruction modifiers. */
  datatype Modifier = A | B | AB | BA | F | X | I

  /** Address modes `# $ * @ { < } >`. */
  datatype AddressMode =
    | Immediate          // #
    | Direct             // $
    | IndirectA          // *
    | IndirectB          // @
    | PreDecIndirectA    // {
    | PreDecIndirectB    // <
    | PostIncIndirectA   // }
    | PostIncIndirectB   // >

  /** A parsed field value: a signed literal, or a label the parser left unresolved. */
  datatype Value = Literal(n: int) | Label(name: string)

  datatype Field = Field(mode: AddressMode, value: Value)

  datatype Instruction = Instruction(opcode: Opcode, modifier: Modifier, fieldA: Field, fieldB: Field)

  /** A parsed warrior: its instructions and its optional entry offset (`ORG`). */
  datatype Program = Program(instructions: seq<Instruction>, origin: Option<nat>)

  /** Both field values are literals. */
  predicate Resolved(p: Instruction)
  {
    p.fieldA.value.Literal? && p.fieldB.value.Literal?
  }

  predicate AllResolved(ps: seq<Instruction>)
  {
    forall i :: 0 <= i < |ps| ==> Resolved(ps[i])
  }

  /** The entry offset, `0` when the warrior declares none. */
  function OriginOf(p: Program): (r: nat)
    ensures p.origin == Some(r) || (p.origin.None? && r == 0)
  {
    match p.origin
    case Some(n) => n
    case None => 0
  }
}
