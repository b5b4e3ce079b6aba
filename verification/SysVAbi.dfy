/** Argument registers of the System V AMD64 calling convention: the counting allocation of the
    compiler against the assign-and-revert rule of section 3.2.3 of the psABI. */
module SysVAbi {
  import opened Options

  datatype EightByteClass = Integer | SSE | IntegerReference

  datatype EightByte = EightByte(class_: EightByteClass, size: nat, offset: nat)

  /** The types arguments have; an aggregate carries the execution engine's descriptor. */
  datatype ArgType =
    | Aggregate(passedInRegisters: bool, eightBytes: seq<EightByte>)
    | IntegerType(bits: nat, signed: bool)
    | FloatType(isDouble: bool)
    | PointerType

  datatype ExpansionType = IntN(bits: nat) | Float | Double | ManagedPointer

  datatype Expansion = Expansion(ty: ExpansionType, offset: nat)

  datatype ArgInfo =
    | Direct(ty: ArgType)
    | Expand(expansions: seq<Expansion>)
    | ZeroExtend(ty: ArgType)
    | SignExtend(ty: ArgType)
    | Indirect(ty: ArgType)

  /** A number of integer and a number of SSE registers. */
  datatype Regs = Regs(ints: nat, sses: nat)

  /** What the compiler asserts of types: integers of at most 64 bits, references of eight bytes. */
  predicate Valid(ty: ArgType)
  {
    match ty
    case IntegerType(bits, _) => bits <= 64
    case Aggregate(_, eightBytes) =>
      forall i :: 0 <= i < |eightBytes| && eightBytes[i].class_ == IntegerReference ==> eightBytes[i].size == 8
    case _ => true
  }

  predicate AllValid(tys: seq<ArgType>)
  {
    forall i :: 0 <= i < |tys| ==> Valid(tys[i])
  }

  // ---------------------------------------------------------------------------
  // The rule of the psABI
  // ---------------------------------------------------------------------------

  const INT_REGS := 6
  const SSE_REGS := 8

  datatype RegClass = IntReg | SseReg

  datatype Reg = Gpr(index: nat) | Xmm(index: nat)

  /** The class of an eightbyte. */
  function ClassOf(e: EightByte): RegClass
  {
    if e.class_ == SSE then SseReg else IntReg
  }

  /** The classes of an argument's eightbytes; an argument of class MEMORY has none to assign. */
  function Classes(ty: ArgType): Option<seq<RegClass>>
  {
    match ty
    case Aggregate(passed, eightBytes) => if passed then Some(ClassesOf(eightBytes)) else None
    case IntegerType(_, _) => Some([IntReg])
    case FloatType(_) => Some([SseReg])
    case PointerType => Some([IntReg])
  }

  function ClassesOf(eightBytes: seq<EightByte>): seq<RegClass>
  {
    if eightBytes == [] then [] else ClassesOf(eightBytes[..|eightBytes| - 1]) + [ClassOf(eightBytes[|eightBytes| - 1])]
  }

  /** Eightbytes take the next register of their class one by one, from the registers used so far;
      there is no result when one of them finds none left. */
  function AssignEach(classes: seq<RegClass>, used: Regs): Option<(seq<Reg>, Regs)>
  {
    if classes == [] then Some(([], used))
    else
      match AssignEach(classes[..|classes| - 1], used)
      case None => None
      case Some((regs, now)) =>
        match classes[|classes| - 1]
        case IntReg => if now.ints < INT_REGS then Some((regs + [Gpr(now.ints)], now.(ints := now.ints + 1))) else None
        case SseReg => if now.sses < SSE_REGS then Some((regs + [Xmm(now.sses)], now.(sses := now.sses + 1))) else None
  }

  /** An argument's registers, or none: then it goes on the stack and what was assigned is taken back. */
  function AssignArg(ty: ArgType, used: Regs): (Option<seq<Reg>>, Regs)
  {
    match Classes(ty)
    case None => (None, used)
    case Some(classes) =>
      match AssignEach(classes, used)
      case None => (None, used)
      case Some((regs, now)) => (Some(regs), now)
  }

  function UsedAfter(tys: seq<ArgType>, used: Regs): Regs
  {
    if tys == [] then used else AssignArg(tys[|tys| - 1], UsedAfter(tys[..|tys| - 1], used)).1
  }

  // ---------------------------------------------------------------------------
  // The compiler's counting
  // ---------------------------------------------------------------------------

  function Count(classes: seq<RegClass>): Regs
  {
    if classes == [] then Regs(0, 0)
    else
      var r := Count(classes[..|classes| - 1]);
      if classes[|classes| - 1] == IntReg then r.(ints := r.ints + 1) else r.(sses := r.sses + 1)
  }

  function Required(ty: ArgType): Regs
  {
    if Classes(ty).None? then Regs(0, 0) else Count(Classes(ty).value)
  }

  predicate Fits(required: Regs, free: Regs)
  {
    required.ints <= free.ints && required.sses <= free.sses
  }

  predicate Expands(ty: ArgType)
  {
    ty.Aggregate? && ty.passedInRegisters
  }

  function ExpansionOf(e: EightByte): Expansion
  {
    Expansion(match e.class_
              case Integer => IntN(e.size * 8)
              case SSE => if e.size <= 4 then Float else Double
              case IntegerReference => ManagedPointer,
              e.offset)
  }

  function ExpansionsOf(eightBytes: seq<EightByte>): seq<Expansion>
  {
    if eightBytes == [] then []
    else ExpansionsOf(eightBytes[..|eightBytes| - 1]) + [ExpansionOf(eightBytes[|eightBytes| - 1])]
  }

  /** How a value is passed when registers are no concern. */
  function Classified(ty: ArgType, isManaged: bool, isResult: bool): ArgInfo
  {
    match ty
    case Aggregate(passed, eightBytes) =>
      if passed then Expand(ExpansionsOf(eightBytes)) else if isResult then Indirect(ty) else Direct(ty)
    case IntegerType(bits, signed) =>
      if isManaged && bits < 32 then if signed then SignExtend(ty) else ZeroExtend(ty) else Direct(ty)
    case _ => Direct(ty)
  }

  /** How the compiler passes an argument with some registers free. */
  function InfoOf(ty: ArgType, isManaged: bool, free: Regs): ArgInfo
  {
    if Expands(ty) && !Fits(Required(ty), free) then Direct(ty) else Classified(ty, isManaged, false)
  }

  function Take(ty: ArgType, free: Regs): Regs
  {
    var required := Required(ty);
    if Expands(ty) && !Fits(required, free) then free
    else
      Regs(if required.ints > 0 && free.ints >= required.ints then free.ints - required.ints else free.ints,
           if required.sses > 0 && free.sses >= required.sses then free.sses - required.sses else free.sses)
  }

  function FreeAfter(tys: seq<ArgType>, free: Regs): Regs
  {
    if tys == [] then free else Take(tys[|tys| - 1], FreeAfter(tys[..|tys| - 1], free))
  }

  /** How the compiler passes each of a list of arguments. */
  function Infos(tys: seq<ArgType>, isManaged: bool, free: Regs): (infos: seq<ArgInfo>)
    ensures |infos| == |tys|
  {
    if tys == [] then []
    else
      var n := |tys| - 1;
      Infos(tys[..n], isManaged, free) + [InfoOf(tys[n], isManaged, FreeAfter(tys[..n], free))]
  }

  /** Whether the counts leave an argument in registers. */
  predicate InRegisters(ty: ArgType, free: Regs)
  {
    Classes(ty).Some? && Fits(Required(ty), free)
  }

  /** The registers free for arguments: a result returned in memory takes one for its address. */
  function InitiallyFree(result: Option<ArgType>): Regs
  {
    Regs(if result.Some? && Classified(result.value, false, true).Indirect? then 5 else 6, 8)
  }

  // ---------------------------------------------------------------------------
  // The program
  // ---------------------------------------------------------------------------

  method Classify(ty: ArgType, isManaged: bool, isResult: bool)
    returns (info: ArgInfo, requiredIntRegs: nat, requiredSSERegs: nat)
    requires Valid(ty)
    ensures info == Classified(ty, isManaged, isResult)
    ensures if info.Indirect? then requiredIntRegs == 1 && requiredSSERegs == 0
            else Regs(requiredIntRegs, requiredSSERegs) == Required(ty)
  {
    match ty
    case Aggregate(passedInRegisters, eightBytes) =>
      if !passedInRegisters {
        if isResult {
          return Indirect(ty), 1, 0;
        } else {
          return Direct(ty), 0, 0;
        }
      } else {
        var expansions;
        expansions, requiredIntRegs, requiredSSERegs := ClassifyEightBytes(eightBytes);
        info := Expand(expansions);
      }
    case IntegerType(bits, signed) =>
      CountOne(IntReg);
      requiredIntRegs, requiredSSERegs := 1, 0;
      if isManaged && bits < 32 {
        info := if signed then SignExtend(ty) else ZeroExtend(ty);
      } else {
        info := Direct(ty);
      }
    case FloatType(_) =>
      CountOne(SseReg);
      info, requiredIntRegs, requiredSSERegs := Direct(ty), 0, 1;
    case PointerType =>
      CountOne(IntReg);
      info, requiredIntRegs, requiredSSERegs := Direct(ty), 1, 0;
  }

  /** The loop over the eightbytes: one expansion and one register each. */
  method ClassifyEightBytes(eightBytes: seq<EightByte>)
    returns (expansions: seq<Expansion>, requiredIntRegs: nat, requiredSSERegs: nat)
    requires forall i :: 0 <= i < |eightBytes| && eightBytes[i].class_ == IntegerReference ==> eightBytes[i].size == 8
    ensures expansions == ExpansionsOf(eightBytes)
    ensures Regs(requiredIntRegs, requiredSSERegs) == Count(ClassesOf(eightBytes))
  {
    expansions, requiredIntRegs, requiredSSERegs := [], 0, 0;
    for i := 0 to |eightBytes|
      invariant expansions == ExpansionsOf(eightBytes[..i])
      invariant Regs(requiredIntRegs, requiredSSERegs) == Count(ClassesOf(eightBytes[..i]))
    {
      EightByteStep(eightBytes, i);
      var e := eightBytes[i];
      var expansionTy;
      match e.class_ {
        case Integer =>
          expansionTy := IntN(e.size * 8);
          requiredIntRegs := requiredIntRegs + 1;
        case SSE =>
          expansionTy := if e.size <= 4 then Float else Double;
          requiredSSERegs := requiredSSERegs + 1;
        case IntegerReference =>
          assert e.size == 8;
          expansionTy := ManagedPointer;
          requiredIntRegs := requiredIntRegs + 1;
      }
      expansions := expansions + [Expansion(expansionTy, e.offset)];
    }
    assert eightBytes[..|eightBytes|] == eightBytes;
  }

  lemma EightByteStep(eightBytes: seq<EightByte>, i: nat)
    requires i < |eightBytes|
    ensures ExpansionsOf(eightBytes[..i + 1]) == ExpansionsOf(eightBytes[..i]) + [ExpansionOf(eightBytes[i])]
    ensures Count(ClassesOf(eightBytes[..i + 1])) ==
            var r := Count(ClassesOf(eightBytes[..i]));
            if eightBytes[i].class_ == SSE then r.(sses := r.sses + 1) else r.(ints := r.ints + 1)
  {
    assert eightBytes[..i + 1][..i] == eightBytes[..i];
    var before, c := ClassesOf(eightBytes[..i]), ClassOf(eightBytes[i]);
    assert ClassesOf(eightBytes[..i + 1]) == before + [c];
    assert (before + [c])[..|before|] == before;
  }

  lemma CountOne(c: RegClass)
    ensures Count([c]) == if c == IntReg then Regs(1, 0) else Regs(0, 1)
  {
  }

  method ComputeSignatureInfo(isManaged: bool, result: Option<ArgType>, args: seq<ArgType>)
    returns (resultInfo: Option<ArgInfo>, argInfos: seq<ArgInfo>, freeIntRegs: nat, freeSSERegs: nat)
    requires AllValid(args) && (result.Some? ==> Valid(result.value))
    ensures resultInfo == if result.None? then None else Some(Classified(result.value, isManaged, true))
    ensures argInfos == Infos(args, isManaged, InitiallyFree(result))
    ensures Regs(freeIntRegs, freeSSERegs) == FreeAfter(args, InitiallyFree(result))
    ensures SignatureFits(result, resultInfo, args, argInfos, isManaged)
  {
    resultInfo := None;
    if result.Some? {
      var info, _, _ := Classify(result.value, isManaged, true);
      resultInfo := Some(info);
    }
    freeIntRegs := if resultInfo.Some? && resultInfo.value.Indirect? then 5 else 6;
    freeSSERegs := 8;
    argInfos := [];
    ghost var free := InitiallyFree(result);
    for k := 0 to |args|
      invariant Regs(freeIntRegs, freeSSERegs) == FreeAfter(args[..k], free)
      invariant argInfos == Infos(args[..k], isManaged, free)
    {
      assert args[..k + 1][..k] == args[..k];
      var info;
      info, freeIntRegs, freeSSERegs := PassArgument(args[k], isManaged, freeIntRegs, freeSSERegs);
      argInfos := argInfos + [info];
    }
    assert args[..|args|] == args;
    FormsFit(result, args, isManaged);
  }

  /** One argument: its information and the registers free after it. */
  method PassArgument(ty: ArgType, isManaged: bool, freeIntRegs0: nat, freeSSERegs0: nat)
    returns (info: ArgInfo, freeIntRegs: nat, freeSSERegs: nat)
    requires Valid(ty)
    ensures info == InfoOf(ty, isManaged, Regs(freeIntRegs0, freeSSERegs0))
    ensures Regs(freeIntRegs, freeSSERegs) == Take(ty, Regs(freeIntRegs0, freeSSERegs0))
  {
    freeIntRegs, freeSSERegs := freeIntRegs0, freeSSERegs0;
    var requiredIntRegs, requiredSSERegs;
    info, requiredIntRegs, requiredSSERegs := Classify(ty, isManaged, false);
    // If any eightbyte of a struct does not fit, the entire struct goes on the stack.
    if info.Expand? && (freeIntRegs < requiredIntRegs || freeSSERegs < requiredSSERegs) {
      info := Direct(ty);
    } else {
      if requiredIntRegs > 0 && freeIntRegs >= requiredIntRegs {
        freeIntRegs := freeIntRegs - requiredIntRegs;
      }
      if requiredSSERegs > 0 && freeSSERegs >= requiredSSERegs {
        freeSSERegs := freeSSERegs - requiredSSERegs;
      }
    }
  }

  // ---------------------------------------------------------------------------
  // Counting is assigning
  // ---------------------------------------------------------------------------

  predicate WithinLimits(used: Regs)
  {
    used.ints <= INT_REGS && used.sses <= SSE_REGS
  }

  function FreeOf(used: Regs): Regs
    requires WithinLimits(used)
  {
    Regs(INT_REGS - used.ints, SSE_REGS - used.sses)
  }

  /** Assigning one by one succeeds exactly when the counts fit, and then uses up the counts. */
  lemma {:induction false} AssignEachExactly(classes: seq<RegClass>, used: Regs)
    requires WithinLimits(used)
    ensures AssignEach(classes, used).Some? <==> Fits(Count(classes), FreeOf(used))
    ensures AssignEach(classes, used).Some? ==>
              AssignEach(classes, used).value.1 ==
                Regs(used.ints + Count(classes).ints, used.sses + Count(classes).sses)
  {
    if classes != [] {
      AssignEachExactly(classes[..|classes| - 1], used);
    }
  }

  lemma AssignArgExactly(ty: ArgType, used: Regs)
    requires WithinLimits(used)
    ensures var (regs, now) := AssignArg(ty, used);
            && WithinLimits(now)
            && (regs.Some? <==> InRegisters(ty, FreeOf(used)))
            && FreeOf(now) == Take(ty, FreeOf(used))
  {
    if Classes(ty).Some? {
      AssignEachExactly(Classes(ty).value, used);
      if !ty.Aggregate? {
        CountOne(Classes(ty).value[0]);
      }
    }
  }

  /** After every argument list the compiler's free registers are those the rule has left. */
  lemma {:induction false} FreeIsUnused(tys: seq<ArgType>, used: Regs)
    requires WithinLimits(used)
    ensures WithinLimits(UsedAfter(tys, used)) && FreeAfter(tys, FreeOf(used)) == FreeOf(UsedAfter(tys, used))
  {
    if tys != [] {
      var n := |tys| - 1;
      FreeIsUnused(tys[..n], used);
      AssignArgExactly(tys[n], UsedAfter(tys[..n], used));
    }
  }

  lemma {:induction false} InfosAt(tys: seq<ArgType>, isManaged: bool, free: Regs, k: nat)
    requires k < |tys|
    ensures Infos(tys, isManaged, free)[k] == InfoOf(tys[k], isManaged, FreeAfter(tys[..k], free))
  {
    var n := |tys| - 1;
    if k < n {
      InfosAt(tys[..n], isManaged, free, k);
      assert tys[..n][..k] == tys[..k];
    }
  }

  /** At each argument of every list the compiler's free registers are those the rule has left, so the
      argument is in registers exactly when the rule puts it there, and a struct stays expanded in the
      compiler's answer exactly then. */
  lemma CountingIsAssigning(tys: seq<ArgType>, isManaged: bool, used: Regs, k: nat)
    requires WithinLimits(used) && k < |tys|
    ensures var free, regs := FreeAfter(tys[..k], FreeOf(used)), AssignArg(tys[k], UsedAfter(tys[..k], used)).0;
            && WithinLimits(UsedAfter(tys[..k], used)) && free == FreeOf(UsedAfter(tys[..k], used))
            && (InRegisters(tys[k], free) <==> regs.Some?)
            && (Expands(tys[k]) ==> (Infos(tys, isManaged, FreeOf(used))[k].Expand? <==> regs.Some?))
  {
    FreeIsUnused(tys[..k], used);
    AssignArgExactly(tys[k], UsedAfter(tys[..k], used));
    InfosAt(tys, isManaged, FreeOf(used), k);
  }

  /** The address of a result returned in memory takes the first integer register, as the rule says. */
  lemma HiddenResultPointer(result: Option<ArgType>)
    ensures InitiallyFree(result) ==
            FreeOf(if result.Some? && Classes(result.value).None? then AssignArg(PointerType, Regs(0, 0)).1
                   else Regs(0, 0))
  {
    AssignEachExactly([IntReg], Regs(0, 0));
    CountOne(IntReg);
  }

  /** All registers handed out by the rule, in order. */
  function Assigned(tys: seq<ArgType>, used: Regs): seq<Reg>
  {
    if tys == [] then []
    else
      var n := |tys| - 1;
      var regs := AssignArg(tys[n], UsedAfter(tys[..n], used)).0;
      Assigned(tys[..n], used) + if regs.Some? then regs.value else []
  }

  /** Conservation: the registers in use by arguments and the free ones always make up the start, and
      no register is handed out twice. */
  lemma {:induction false} RegistersConserved(tys: seq<ArgType>, used: Regs)
    requires WithinLimits(used)
    ensures var regs, now := Assigned(tys, used), UsedAfter(tys, used);
            && used.ints <= now.ints && used.sses <= now.sses
            && |regs| + FreeAfter(tys, FreeOf(used)).ints + FreeAfter(tys, FreeOf(used)).sses ==
               FreeOf(used).ints + FreeOf(used).sses
            && (forall i :: 0 <= i < |regs| ==> Between(regs[i], used, now))
            && (forall i, j :: 0 <= i < j < |regs| ==> regs[i] != regs[j])
  {
    FreeIsUnused(tys, used);
    if tys != [] {
      var n := |tys| - 1;
      RegistersConserved(tys[..n], used);
      FreeIsUnused(tys[..n], used);
      if Classes(tys[n]).Some? {
        EachDistinct(Classes(tys[n]).value, UsedAfter(tys[..n], used));
      }
    }
  }

  /** A register among those taken from one point to another. */
  predicate Between(reg: Reg, before: Regs, after: Regs)
  {
    match reg
    case Gpr(i) => before.ints <= i < after.ints
    case Xmm(i) => before.sses <= i < after.sses
  }

  lemma {:induction false} EachDistinct(classes: seq<RegClass>, used: Regs)
    requires WithinLimits(used)
    ensures AssignEach(classes, used).Some? ==>
              var (regs, now) := AssignEach(classes, used).value;
              && used.ints <= now.ints && used.sses <= now.sses
              && |regs| == (now.ints - used.ints) + (now.sses - used.sses)
              && (forall i :: 0 <= i < |regs| ==> Between(regs[i], used, now))
              && (forall i, j :: 0 <= i < j < |regs| ==> regs[i] != regs[j])
  {
    if classes != [] {
      EachDistinct(classes[..|classes| - 1], used);
    }
  }

  // ---------------------------------------------------------------------------
  // The forms of arguments and results
  // ---------------------------------------------------------------------------

  function Pow2(n: nat): (p: nat)
    ensures p > 0
  {
    if n == 0 then 1 else 2 * Pow2(n - 1)
  }

  lemma {:induction false} Pow2Monotone(m: nat, n: nat)
    requires m <= n
    ensures Pow2(m) <= Pow2(n) && (m < n ==> 2 * Pow2(m) <= Pow2(n))
  {
    if m < n {
      Pow2Monotone(m, n - 1);
    }
  }

  /** The value of a bit pattern of some width, in two's complement when it is signed. */
  function Value(pattern: nat, width: nat, signed: bool): int
  {
    if signed && 2 * pattern >= Pow2(width) then pattern - Pow2(width) else pattern
  }

  /** The pattern of a register of some width that a value is passed in: the upper bits are zero, or copies of the
      sign bit. */
  function Passed(info: ArgInfo, pattern: nat, bits: nat, width: nat): int
  {
    if info.SignExtend? && 2 * pattern >= Pow2(bits) then pattern + Pow2(width) - Pow2(bits) else pattern
  }

  /** The form keeps the value of every bit pattern of an integer in a register of 32 or more bits. */
  ghost predicate KeepsValues(info: ArgInfo, bits: nat, signed: bool)
  {
    forall pattern: nat, width: nat :: pattern < Pow2(bits) && 32 <= width ==>
      KeepsValue(info, pattern, bits, width, signed)
  }

  predicate KeepsValue(info: ArgInfo, pattern: nat, bits: nat, width: nat, signed: bool)
  {
    && 0 <= Passed(info, pattern, bits, width) < Pow2(width)
    && Value(Passed(info, pattern, bits, width), width, signed) == Value(pattern, bits, signed)
  }

  /** A piece of an expanded struct stands where its eightbyte does, is a managed pointer exactly for a reference,
      floating point exactly for class SSE, and as wide as the eightbyte's size, or the next wider float. */
  predicate PieceFits(piece: Expansion, e: EightByte)
  {
    && piece.offset == e.offset
    && (piece.ty.ManagedPointer? <==> e.class_.IntegerReference?)
    && (piece.ty.Float? || piece.ty.Double? <==> e.class_.SSE?)
    && (piece.ty.Float? ==> e.size <= 4) && (piece.ty.Double? ==> e.size > 4)
    && (piece.ty.IntN? ==> piece.ty.bits == 8 * e.size)
  }

  /** The pieces of a struct are those of its eightbytes, in order. */
  ghost predicate PiecesFit(pieces: seq<Expansion>, eightBytes: seq<EightByte>)
  {
    |pieces| == |eightBytes| && forall i :: 0 <= i < |pieces| ==> PieceFits(pieces[i], eightBytes[i])
  }

  /** The form of a value of some type: small managed integers are extended so as to keep their values, structs in
      registers are in pieces, and everything else is passed as it is, but a result in memory. */
  ghost predicate FormFits(info: ArgInfo, ty: ArgType, isManaged: bool, isResult: bool, inRegisters: bool)
  {
    match ty
    case IntegerType(bits, signed) =>
      if isManaged && bits < 32 then
        info in {SignExtend(ty), ZeroExtend(ty)} && (bits > 0 ==> KeepsValues(info, bits, signed))
      else info == Direct(ty)
    case Aggregate(passedInRegisters, eightBytes) =>
      if passedInRegisters && inRegisters then info.Expand? && PiecesFit(info.expansions, eightBytes)
      else info == if isResult then Indirect(ty) else Direct(ty)
    case _ => info == Direct(ty)
  }

  lemma {:induction false} ExpansionsFit(eightBytes: seq<EightByte>)
    ensures PiecesFit(ExpansionsOf(eightBytes), eightBytes)
  {
    if eightBytes != [] {
      ExpansionsFit(eightBytes[..|eightBytes| - 1]);
    }
  }

  lemma ExtensionKeepsValues(ty: ArgType, bits: nat, signed: bool)
    requires 0 < bits < 32
    ensures KeepsValues(if signed then SignExtend(ty) else ZeroExtend(ty), bits, signed)
  {
    var info := if signed then SignExtend(ty) else ZeroExtend(ty);
    forall pattern: nat, width: nat | pattern < Pow2(bits) && 32 <= width
      ensures KeepsValue(info, pattern, bits, width, signed)
    {
      ExtensionKeepsValue(info, pattern, bits, width, signed);
    }
  }

  lemma ExtensionKeepsValue(info: ArgInfo, pattern: nat, bits: nat, width: nat, signed: bool)
    requires bits < width && pattern < Pow2(bits) && (if signed then info.SignExtend? else info.ZeroExtend?)
    ensures KeepsValue(info, pattern, bits, width, signed)
  {
    Pow2Monotone(bits, width);
  }

  lemma ClassifiedFits(ty: ArgType, isManaged: bool, isResult: bool)
    ensures FormFits(Classified(ty, isManaged, isResult), ty, isManaged, isResult, true)
  {
    match ty
    case Aggregate(_, eightBytes) => ExpansionsFit(eightBytes);
    case IntegerType(bits, signed) =>
      if isManaged && 0 < bits < 32 {
        ExtensionKeepsValues(ty, bits, signed);
      }
    case _ =>
  }

  /** The address of a result in memory takes the first integer register. */
  function UsedByResult(result: Option<ArgType>): Regs
  {
    Regs(if result.Some? && result.value.Aggregate? && !result.value.passedInRegisters then 1 else 0, 0)
  }

  /** The rule of the psABI puts argument k in registers. */
  predicate RulePutsInRegisters(result: Option<ArgType>, tys: seq<ArgType>, k: nat)
    requires k < |tys|
  {
    AssignArg(tys[k], UsedAfter(tys[..k], UsedByResult(result))).0.Some?
  }

  /** The forms found for a signature: that of the result, and of every argument, where a struct is in registers
      exactly when the rule puts it there. */
  ghost predicate SignatureFits(result: Option<ArgType>, resultInfo: Option<ArgInfo>, tys: seq<ArgType>,
                                infos: seq<ArgInfo>, isManaged: bool)
  {
    && (result.Some? <==> resultInfo.Some?)
    && (result.Some? ==> FormFits(resultInfo.value, result.value, isManaged, true, true))
    && |infos| == |tys|
    && forall k :: 0 <= k < |tys| ==>
         FormFits(infos[k], tys[k], isManaged, false, RulePutsInRegisters(result, tys, k))
  }

  lemma FormsFit(result: Option<ArgType>, tys: seq<ArgType>, isManaged: bool)
    ensures SignatureFits(result, if result.None? then None else Some(Classified(result.value, isManaged, true)), tys,
                          Infos(tys, isManaged, InitiallyFree(result)), isManaged)
  {
    if result.Some? {
      ClassifiedFits(result.value, isManaged, true);
    }
    forall k | 0 <= k < |tys|
      ensures FormFits(Infos(tys, isManaged, InitiallyFree(result))[k], tys[k], isManaged, false,
                       RulePutsInRegisters(result, tys, k))
    {
      ArgumentFits(result, tys, isManaged, k);
    }
  }

  lemma ArgumentFits(result: Option<ArgType>, tys: seq<ArgType>, isManaged: bool, k: nat)
    requires k < |tys|
    ensures FormFits(Infos(tys, isManaged, InitiallyFree(result))[k], tys[k], isManaged, false,
                     RulePutsInRegisters(result, tys, k))
  {
    var used := UsedByResult(result);
    HiddenResultPointer(result);
    HiddenPointerTakesOne();
    CountingIsAssigning(tys, isManaged, used, k);
    InfosAt(tys, isManaged, FreeOf(used), k);
    ClassifiedFits(tys[k], isManaged, false);
  }

  /** There are six integer and eight SSE registers. */
  lemma LastRegisters(n: nat)
    ensures n <= 8 ==> AssignArg(PointerType, Regs(5, n)).0.Some? && AssignArg(PointerType, Regs(6, n)).0.None?
    ensures n <= 6 ==> AssignArg(FloatType(true), Regs(n, 7)).0.Some? && AssignArg(FloatType(true), Regs(n, 8)).0.None?
  {
    CountOne(IntReg);
    CountOne(SseReg);
    if n <= 8 {
      AssignEachExactly([IntReg], Regs(5, n));
      AssignEachExactly([IntReg], Regs(6, n));
    }
    if n <= 6 {
      AssignEachExactly([SseReg], Regs(n, 7));
      AssignEachExactly([SseReg], Regs(n, 8));
    }
  }

  /** Part i of an argument is floating point: a floating-point value, or an eightbyte of class SSE. */
  predicate IsFloating(ty: ArgType, i: nat)
  {
    match ty
    case Aggregate(_, eightBytes) => i < |eightBytes| && eightBytes[i].class_.SSE?
    case FloatType(_) => true
    case _ => false
  }

  lemma {:induction false} EachOfItsClass(classes: seq<RegClass>, used: Regs)
    ensures AssignEach(classes, used).Some? ==>
              var regs := AssignEach(classes, used).value.0;
              |regs| == |classes| && forall i :: 0 <= i < |regs| ==> (regs[i].Xmm? <==> classes[i] == SseReg)
  {
    if classes != [] {
      EachOfItsClass(classes[..|classes| - 1], used);
    }
  }

  lemma {:induction false} ClassesAt(eightBytes: seq<EightByte>)
    ensures |ClassesOf(eightBytes)| == |eightBytes|
    ensures forall i :: 0 <= i < |eightBytes| ==> (ClassesOf(eightBytes)[i] == SseReg <==> eightBytes[i].class_.SSE?)
  {
    if eightBytes != [] {
      ClassesAt(eightBytes[..|eightBytes| - 1]);
    }
  }

  /** An argument in registers has one for each of its parts, an SSE register just for what is floating point. */
  lemma ArgumentRegisters(ty: ArgType, used: Regs)
    ensures AssignArg(ty, used).0.Some? ==>
              var regs := AssignArg(ty, used).0.value;
              && |regs| == (if ty.Aggregate? then |ty.eightBytes| else 1)
              && forall i :: 0 <= i < |regs| ==> (regs[i].Xmm? <==> IsFloating(ty, i))
    ensures ty.Aggregate? && !ty.passedInRegisters ==> AssignArg(ty, used).0.None?
  {
    if Classes(ty).Some? {
      EachOfItsClass(Classes(ty).value, used);
      if ty.Aggregate? {
        ClassesAt(ty.eightBytes);
      }
    }
  }

  lemma HiddenPointerTakesOne()
    ensures AssignArg(PointerType, Regs(0, 0)).1 == Regs(1, 0)
  {
    AssignEachExactly([IntReg], Regs(0, 0));
    CountOne(IntReg);
  }
}
