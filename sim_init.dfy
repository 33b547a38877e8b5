/**
 * The placement part of `init`: a core of `coresize` default cells, warrior A
 * written at `i - origin_A`, warrior B at `i - origin_B + offset` (all modulo
 * `coresize`), and the two initial processes. Reading the files, parsing and
 * the random choice of `offset` happen outside the model; `offset` is a
 * parameter that lies in the range the source would draw it from.
 */
module SimInit {
  import opened Wrappers
  import LoadFile
  import opened Modular
  import opened Sim

  /** The ways the placement can fail (each a panic in the source). */
  datatype LoadError =
    | LowerBoundUnderflow   // `len_A - origin_A` underflows
    | UpperBoundUnderflow   // `coresize - origin_A - coresize/80` underflows
    | EmptyPlacementRange   // `random_range(lower..upper)` with `lower >= upper`

  /** The initial core and process list. */
  datatype Loaded = Loaded(core: seq<Instruction>, processes: seq<Process>)

  /** The minimum separation between the warriors, `coresize / 80`. */
  function MinSep(coresize: nat): nat
  {
    coresize / 80
  }

  /**
   * The half-open range `[lower, upper)` for warrior B's offset, or the reason
   * it cannot be formed. It exists exactly when A's origin lies within A and
   * A plus twice the minimum separation fits strictly inside the core.
   */
  function PlacementRange(lenA: nat, originA: nat, coresize: nat): (r: Result<(nat, nat), LoadError>)
    ensures r.Ok? <==> originA <= lenA && lenA + 2 * MinSep(coresize) < coresize
    ensures originA > lenA ==> r == Err(LowerBoundUnderflow)
    ensures r.Ok? ==> coresize > 0 && r.value.0 < r.value.1 <= coresize - originA
  {
    if originA > lenA then Err(LowerBoundUnderflow)
    else
      var lower := lenA - originA + MinSep(coresize);
      if originA + MinSep(coresize) > coresize then Err(UpperBoundUnderflow)
      else
        var upper := coresize - originA - MinSep(coresize);
        if lower >= upper then Err(EmptyPlacementRange)
        else Ok((lower, upper))
  }

  /**
   * An offset in the range puts B's entry cell at least `MinSep` cells past
   * the cell after A's last instruction (which lies at `len_A - origin_A - 1`),
   * and more than `MinSep` cells before A's first instruction (at
   * `coresize - origin_A`), going round the ring.
   */
  lemma OffsetSeparated(lenA: nat, originA: nat, coresize: nat, offset: nat)
    requires PlacementRange(lenA, originA, coresize).Ok?
    requires PlacementRange(lenA, originA, coresize).value.0 <= offset < PlacementRange(lenA, originA, coresize).value.1
    ensures offset - (lenA - originA) >= MinSep(coresize)
    ensures (coresize - originA) - offset > MinSep(coresize)
  {
  }

  /** The cell that instruction `i` of a warrior placed with `shift` lands in. */
  function Slot(i: int, shift: int, coresize: nat): (k: nat)
    requires coresize > 0
    ensures k < coresize
  {
    NegMod(i + shift, coresize)
  }

  /** Some of the first `n` instructions placed with `shift` land in cell `k`. */
  ghost predicate Covers(n: nat, shift: int, coresize: nat, k: nat)
    requires coresize > 0
  {
    exists i :: 0 <= i < n && Slot(i, shift, coresize) == k
  }

  /** A later one of the first `n` instructions lands in the same cell as instruction `i`. */
  ghost predicate CoveredLater(n: nat, shift: int, coresize: nat, i: nat)
    requires coresize > 0
  {
    exists j :: i < j < n && Slot(j, shift, coresize) == Slot(i, shift, coresize)
  }

  /** `core` after the first `n` iterations of a placement loop. */
  function Placed(core: seq<Instruction>, prog: seq<LoadFile.Instruction>, shift: int, coresize: nat, n: nat): (r: seq<Instruction>)
    requires coresize > 0 && |core| == coresize && n <= |prog| && LoadFile.AllResolved(prog)
    ensures |r| == coresize
  {
    if n == 0 then core
    else Placed(core, prog, shift, coresize, n - 1)[Slot(n - 1, shift, coresize) := Translate(prog[n - 1], coresize)]
  }

  /** A cell that no instruction lands in keeps its content. */
  lemma {:induction false} PlacedMiss(core: seq<Instruction>, prog: seq<LoadFile.Instruction>, shift: int, coresize: nat, n: nat, k: nat)
    requires coresize > 0 && |core| == coresize && n <= |prog| && LoadFile.AllResolved(prog)
    requires k < coresize && !Covers(n, shift, coresize, k)
    ensures Placed(core, prog, shift, coresize, n)[k] == core[k]
  {
    if n > 0 {
      assert Slot(n - 1, shift, coresize) != k;
      PlacedMiss(core, prog, shift, coresize, n - 1, k);
    }
  }

  /** Instruction `i` survives in its cell unless a later instruction lands there too. */
  lemma {:induction false} PlacedLastWins(core: seq<Instruction>, prog: seq<LoadFile.Instruction>, shift: int, coresize: nat, n: nat, i: nat)
    requires coresize > 0 && |core| == coresize && n <= |prog| && LoadFile.AllResolved(prog)
    requires i < n && !CoveredLater(n, shift, coresize, i)
    ensures Placed(core, prog, shift, coresize, n)[Slot(i, shift, coresize)] == Translate(prog[i], coresize)
  {
    if i < n - 1 {
      assert Slot(n - 1, shift, coresize) != Slot(i, shift, coresize);
      PlacedLastWins(core, prog, shift, coresize, n - 1, i);
    }
  }

  /** Placing normalised cells into a normalised core keeps it normalised. */
  lemma {:induction false} PlacedNormalised(core: seq<Instruction>, prog: seq<LoadFile.Instruction>, shift: int, coresize: nat, n: nat)
    requires coresize > 0 && |core| == coresize && n <= |prog| && LoadFile.AllResolved(prog)
    requires CoreNormalised(core)
    ensures CoreNormalised(Placed(core, prog, shift, coresize, n))
  {
    if n > 0 {
      PlacedNormalised(core, prog, shift, coresize, n - 1);
    }
  }

  /** Instructions fewer than `coresize` apart never share a cell. */
  lemma SlotsDistinct(i: int, j: int, shift: int, coresize: nat)
    requires coresize > 0 && i < j < i + coresize
    ensures Slot(i, shift, coresize) != Slot(j, shift, coresize)
  {
    NegModEqual(i + shift, j + shift, coresize);
    var d := (i + shift) - (j + shift);
    assert -(coresize as int) < d < 0;
    Unique(d, coresize, -1, d + coresize);
  }

  /** A warrior no longer than the core never overwrites itself. */
  lemma NoSelfCollision(n: nat, shift: int, coresize: nat, i: nat)
    requires coresize > 0 && n <= coresize && i < n
    ensures !CoveredLater(n, shift, coresize, i)
  {
    forall j | i < j < n
      ensures Slot(j, shift, coresize) != Slot(i, shift, coresize)
    {
      SlotsDistinct(i, j, shift, coresize);
    }
  }

  /** `vec![default_instruction; coresize]`. */
  function EmptyCore(coresize: nat, default: Instruction): (core: seq<Instruction>)
    ensures |core| == coresize
    ensures forall k :: 0 <= k < coresize ==> core[k] == default
  {
    seq(coresize, _ => default)
  }

  /** The core `init` returns, as the composition of its two placement loops. */
  function InitialCore(a: LoadFile.Program, b: LoadFile.Program, coresize: nat, default: Instruction, offset: nat): (r: seq<Instruction>)
    requires coresize > 0
    requires LoadFile.AllResolved(a.instructions) && LoadFile.AllResolved(b.instructions)
    ensures |r| == coresize
  {
    var empty := EmptyCore(coresize, default);
    var withA := Placed(empty, a.instructions, -(LoadFile.OriginOf(a) as int), coresize, |a.instructions|);
    Placed(withA, b.instructions, offset - LoadFile.OriginOf(b), coresize, |b.instructions|)
  }

  /** A cell that neither warrior lands in holds the default cell. */
  lemma InitialCoreDefault(a: LoadFile.Program, b: LoadFile.Program, coresize: nat, default: Instruction, offset: nat, k: nat)
    requires coresize > 0
    requires LoadFile.AllResolved(a.instructions) && LoadFile.AllResolved(b.instructions)
    requires k < coresize
    requires !Covers(|a.instructions|, -(LoadFile.OriginOf(a) as int), coresize, k)
    requires !Covers(|b.instructions|, offset - LoadFile.OriginOf(b), coresize, k)
    ensures InitialCore(a, b, coresize, default, offset)[k] == default
  {
    var empty := EmptyCore(coresize, default);
    var shiftA := -(LoadFile.OriginOf(a) as int);
    PlacedMiss(empty, a.instructions, shiftA, coresize, |a.instructions|, k);
    var withA := Placed(empty, a.instructions, shiftA, coresize, |a.instructions|);
    PlacedMiss(withA, b.instructions, offset - LoadFile.OriginOf(b), coresize, |b.instructions|, k);
  }

  /** B's instruction `i` holds its cell unless a later B instruction lands there. */
  lemma InitialCoreB(a: LoadFile.Program, b: LoadFile.Program, coresize: nat, default: Instruction, offset: nat, i: nat)
    requires coresize > 0
    requires LoadFile.AllResolved(a.instructions) && LoadFile.AllResolved(b.instructions)
    requires i < |b.instructions|
    requires !CoveredLater(|b.instructions|, offset - LoadFile.OriginOf(b), coresize, i)
    ensures InitialCore(a, b, coresize, default, offset)[Slot(i, offset - LoadFile.OriginOf(b), coresize)] ==
      Translate(b.instructions[i], coresize)
  {
    var empty := EmptyCore(coresize, default);
    var withA := Placed(empty, a.instructions, -(LoadFile.OriginOf(a) as int), coresize, |a.instructions|);
    PlacedLastWins(withA, b.instructions, offset - LoadFile.OriginOf(b), coresize, |b.instructions|, i);
  }

  /** A's instruction `i` holds its cell unless a later A instruction or any B instruction lands there. */
  lemma InitialCoreA(a: LoadFile.Program, b: LoadFile.Program, coresize: nat, default: Instruction, offset: nat, i: nat)
    requires coresize > 0
    requires LoadFile.AllResolved(a.instructions) && LoadFile.AllResolved(b.instructions)
    requires i < |a.instructions|
    requires !CoveredLater(|a.instructions|, -(LoadFile.OriginOf(a) as int), coresize, i)
    requires !Covers(|b.instructions|, offset - LoadFile.OriginOf(b), coresize, Slot(i, -(LoadFile.OriginOf(a) as int), coresize))
    ensures InitialCore(a, b, coresize, default, offset)[Slot(i, -(LoadFile.OriginOf(a) as int), coresize)] ==
      Translate(a.instructions[i], coresize)
  {
    var empty := EmptyCore(coresize, default);
    var shiftA := -(LoadFile.OriginOf(a) as int);
    PlacedLastWins(empty, a.instructions, shiftA, coresize, |a.instructions|, i);
    var withA := Placed(empty, a.instructions, shiftA, coresize, |a.instructions|);
    PlacedMiss(withA, b.instructions, offset - LoadFile.OriginOf(b), coresize, |b.instructions|, Slot(i, shiftA, coresize));
  }

  /** With a normalised default cell, every field value of the initial core is below `coresize`. */
  lemma InitialCoreNormalised(a: LoadFile.Program, b: LoadFile.Program, coresize: nat, default: Instruction, offset: nat)
    requires coresize > 0
    requires LoadFile.AllResolved(a.instructions) && LoadFile.AllResolved(b.instructions)
    requires Normalised(default, coresize)
    ensures CoreNormalised(InitialCore(a, b, coresize, default, offset))
  {
    var empty := EmptyCore(coresize, default);
    var shiftA := -(LoadFile.OriginOf(a) as int);
    PlacedNormalised(empty, a.instructions, shiftA, coresize, |a.instructions|);
    var withA := Placed(empty, a.instructions, shiftA, coresize, |a.instructions|);
    PlacedNormalised(withA, b.instructions, offset - LoadFile.OriginOf(b), coresize, |b.instructions|);
  }

  /** The bounds of the offset range; only meaningful when `PlacementRange` succeeds. */
  predicate OffsetAllowed(a: LoadFile.Program, coresize: nat, offset: nat)
  {
    var range := PlacementRange(|a.instructions|, LoadFile.OriginOf(a), coresize);
    range.Ok? ==> range.value.0 <= offset < range.value.1
  }

  /**
   * One placement loop of `init`: instruction `i` of `prog` is translated and
   * written to cell `negative_mod(i + shift, coresize)`, later writes
   * replacing earlier ones.
   */
  method PlaceWarrior(core: seq<Instruction>, prog: seq<LoadFile.Instruction>, shift: int, coresize: nat)
    returns (placed: seq<Instruction>)
    requires coresize > 0 && |core| == coresize && LoadFile.AllResolved(prog)
    ensures placed == Placed(core, prog, shift, coresize, |prog|)
  {
    placed := core;
    for i := 0 to |prog|
      invariant placed == Placed(core, prog, shift, coresize, i)
    {
      var signedIndex := i + shift;
      var index, _ := NegativeMod(signedIndex, coresize);
      placed := placed[index := Translate(prog[i], coresize)];
    }
  }

  /**
   * The placement part of `init`. Errors are exactly the failures of the
   * offset range. On success the core is `InitialCore` (whose cells are
   * described by `InitialCoreDefault`, `InitialCoreA` and `InitialCoreB`),
   * it has `coresize` cells, and the processes are team 0 at `origin_A` and
   * team 1 at `offset`, both inside the core.
   */
  method Init(a: LoadFile.Program, b: LoadFile.Program, coresize: nat, default: Instruction, offset: nat)
    returns (r: Result<Loaded, LoadError>)
    requires |a.instructions| > 0 ==> coresize > 0
    requires LoadFile.AllResolved(a.instructions)
    requires PlacementRange(|a.instructions|, LoadFile.OriginOf(a), coresize).Ok? ==> LoadFile.AllResolved(b.instructions)
    requires OffsetAllowed(a, coresize, offset)
    ensures r.Err? <==> PlacementRange(|a.instructions|, LoadFile.OriginOf(a), coresize).Err?
    ensures r.Err? ==> r.error == PlacementRange(|a.instructions|, LoadFile.OriginOf(a), coresize).error
    ensures r.Ok? ==> coresize > 0 && r.value.core == InitialCore(a, b, coresize, default, offset)
    ensures r.Ok? ==> |r.value.core| == coresize
    ensures r.Ok? ==> r.value.processes == StartProcesses(a, offset)
    ensures r.Ok? ==> PointersInCore(r.value.processes, coresize)
    ensures r.Ok? && Normalised(default, coresize) ==> CoreNormalised(r.value.core)
  {
    var core := EmptyCore(coresize, default);
    var originA := LoadFile.OriginOf(a);
    if |a.instructions| > 0 {  // an empty warrior leaves the core as it is, whatever its size
      core := PlaceWarrior(core, a.instructions, -(originA as int), coresize);
    }
    var processA := Process(0, originA);

    var range := PlacementRange(|a.instructions|, originA, coresize);
    if range.Err? {
      return Err(range.error);
    }
    var originB := LoadFile.OriginOf(b);
    core := PlaceWarrior(core, b.instructions, offset - originB, coresize);
    var processB := Process(1, offset);

    if Normalised(default, coresize) {
      InitialCoreNormalised(a, b, coresize, default, offset);
    }
    r := Ok(Loaded(core, [processA, processB]));
  }

  // Start pointers. Warrior B's entry instruction lands at `offset`, where
  // team 1 starts; warrior A's lands at cell 0, but team 0 starts at `origin_A`.

  /** The process list as `init` builds it. */
  function StartProcesses(a: LoadFile.Program, offset: nat): (r: seq<Process>)
    ensures |r| == 2
    ensures r[0].team == 0 && r[0].pointer == LoadFile.OriginOf(a)
    ensures r[1].team == 1 && r[1].pointer == offset
  {
    [Process(0, LoadFile.OriginOf(a)), Process(1, offset)]
  }

  /** The process list with each team starting at its warrior's entry instruction. */
  function EntryProcesses(offset: nat): seq<Process>
  {
    [Process(0, 0), Process(1, offset)]
  }

  function DatF(): Sim.Instruction
  {
    Sim.Instruction(LoadFile.Dat, LoadFile.F, Sim.Field(LoadFile.Immediate, 0), Sim.Field(LoadFile.Immediate, 0))
  }

  /**
   * With a core of 80 cells, warrior A = `NOP $0, $0` / `MOV $0, $1` with
   * origin 1, warrior B = `DAT #0, #0` and offset 2, team 0 starts at cell 1,
   * which holds the default cell rather than A's entry instruction `MOV`
   * (which sits at cell 0).
   */
  lemma TeamZeroMissesEntry()
    ensures
      var nop := LoadFile.Instruction(LoadFile.Nop, LoadFile.F,
        LoadFile.Field(LoadFile.Direct, LoadFile.Literal(0)), LoadFile.Field(LoadFile.Direct, LoadFile.Literal(0)));
      var mov := LoadFile.Instruction(LoadFile.Mov, LoadFile.I,
        LoadFile.Field(LoadFile.Direct, LoadFile.Literal(0)), LoadFile.Field(LoadFile.Direct, LoadFile.Literal(1)));
      var dat := LoadFile.Instruction(LoadFile.Dat, LoadFile.F,
        LoadFile.Field(LoadFile.Immediate, LoadFile.Literal(0)), LoadFile.Field(LoadFile.Immediate, LoadFile.Literal(0)));
      var a := LoadFile.Program([nop, mov], Some(1));
      var b := LoadFile.Program([dat], None);
      PlacementRange(2, 1, 80) == Ok((2, 78)) &&
      InitialCore(a, b, 80, DatF(), 2)[StartProcesses(a, 2)[0].pointer] == DatF() &&
      InitialCore(a, b, 80, DatF(), 2)[StartProcesses(a, 2)[0].pointer] != Translate(a.instructions[1], 80)
  {
    var nop := LoadFile.Instruction(LoadFile.Nop, LoadFile.F,
      LoadFile.Field(LoadFile.Direct, LoadFile.Literal(0)), LoadFile.Field(LoadFile.Direct, LoadFile.Literal(0)));
    var mov := LoadFile.Instruction(LoadFile.Mov, LoadFile.I,
      LoadFile.Field(LoadFile.Direct, LoadFile.Literal(0)), LoadFile.Field(LoadFile.Direct, LoadFile.Literal(1)));
    var dat := LoadFile.Instruction(LoadFile.Dat, LoadFile.F,
      LoadFile.Field(LoadFile.Immediate, LoadFile.Literal(0)), LoadFile.Field(LoadFile.Immediate, LoadFile.Literal(0)));
    var a := LoadFile.Program([nop, mov], Some(1));
    var b := LoadFile.Program([dat], None);
    assert Slot(0, -1, 80) == 79 && Slot(1, -1, 80) == 0;
    assert !Covers(2, -1, 80, 1);
    assert Slot(0, 2, 80) == 2;
    assert !Covers(1, 2, 80, 1);
    InitialCoreDefault(a, b, 80, DatF(), 2, 1);
  }

  /**
   * With the corrected list, each team starts on its warrior's entry
   * instruction, provided both origins lie inside their warriors, both
   * warriors fit in the core and no instruction of B lands on cell 0.
   */
  lemma EntryProcessesStartAtEntry(a: LoadFile.Program, b: LoadFile.Program, coresize: nat, default: Instruction, offset: nat)
    requires LoadFile.AllResolved(a.instructions) && LoadFile.AllResolved(b.instructions)
    requires PlacementRange(|a.instructions|, LoadFile.OriginOf(a), coresize).Ok?
    requires OffsetAllowed(a, coresize, offset)
    requires LoadFile.OriginOf(a) < |a.instructions| <= coresize
    requires LoadFile.OriginOf(b) < |b.instructions| <= coresize
    requires !Covers(|b.instructions|, offset - LoadFile.OriginOf(b), coresize, 0)
    ensures InitialCore(a, b, coresize, default, offset)[EntryProcesses(offset)[0].pointer] ==
      Translate(a.instructions[LoadFile.OriginOf(a)], coresize)
    ensures InitialCore(a, b, coresize, default, offset)[EntryProcesses(offset)[1].pointer] ==
      Translate(b.instructions[LoadFile.OriginOf(b)], coresize)
  {
    var originA, originB := LoadFile.OriginOf(a), LoadFile.OriginOf(b);
    NoSelfCollision(|a.instructions|, -(originA as int), coresize, originA);
    NoSelfCollision(|b.instructions|, offset - originB, coresize, originB);
    assert Slot(originA, -(originA as int), coresize) == 0;
    InitialCoreA(a, b, coresize, default, offset, originA);
    assert Slot(originB, offset - originB, coresize) == offset by {
      NegModInRange(offset, coresize);
    }
    InitialCoreB(a, b, coresize, default, offset, originB);
  }
}
