/** Which instructions are legal and which primitives they need, field by field and
    primitive by primitive: the tables of the instruction set, against which the verifier's
    case distinctions by opcode are proved exact. */
module Legality {
  import opened Common
  import opened Arithmetic
  import opened Isa
  import Apumc

  // ---------------------------------------------------------------- Primitives

  /** Bit `k` of a mask is set. */
  predicate Has(mask: nat, k: nat) { mask / Pow2(k) % 2 == 1 }

  /** The instructions that need primitive `k`: 0 bitstream, 1 CRC, 2 Huffman, 3 Rice, 4 local
      memory, 5 local FIFOs, 6 to 15 the kernels in the order of their opcodes, 16 input,
      17 output, 18 stream output, 19 frame commit and job result, 20 event. */
  predicate Needs(i: Instruction, k: nat) {
    var waits := i.cls == CONTROL && i.opcode == WAIT;
    if k == 0 then i.cls == BITSTREAM || i.cls == ENTROPY
    else if k == 1 then i.cls == BITSTREAM && i.opcode in {CRC8, CRC16}
    else if k == 2 then i.cls == ENTROPY && i.opcode in {HUFF_SYMBOL, HUFF_PAIR, HUFF_QUAD}
    else if k == 3 then i.cls == ENTROPY && i.opcode in {UNARY, RICE4, RICE5, SIGN_RESTORE}
    else if k == 4 then i.cls == LOCAL && i.opcode in {LD32, ST32, TABLE8, TABLE16, TABLE32}
    else if k == 5 then (i.cls == LOCAL && i.opcode in {FIFO_POP, FIFO_PUSH}) || (waits && i.aux in {2, 3})
    else if k <= 15 then (i.cls == KERNEL && i.opcode == k - 6) || (waits && i.aux == 1)
    else if k == 16 then i.cls == TRANSPORT && i.opcode == INPUT_REFILL
    else if k == 17 then (i.cls == TRANSPORT && i.opcode == OUTPUT_COMMIT) || (waits && i.aux == 5)
    else if k == 18 then (i.cls == TRANSPORT && i.opcode == OUTPUT_STREAM) || (waits && i.aux == 4)
    else if k == 19 then i.cls == TRANSPORT && i.opcode in {FRAME_COMMIT, JOB_RESULT}
    else k == 20 && i.cls == TRANSPORT && i.opcode == EVENT
  }

  /** The opcode is one of its class. */
  predicate Allocated(i: Instruction) {
    || (i.cls == CONTROL && i.opcode <= 8) || (i.cls == SCALAR && i.opcode <= 13)
    || (i.cls == BITSTREAM && i.opcode <= 7) || (i.cls == ENTROPY && i.opcode <= 6)
    || (i.cls == LOCAL && i.opcode <= 6) || (i.cls == KERNEL && i.opcode <= 9) || (i.cls == TRANSPORT && i.opcode <= 6)
  }

  lemma HasPower(n: nat, k: nat)
    ensures Has(Pow2(n), k) <==> k == n
  {
    if k < n {
      Pow2Add(n - k, k);
      DivModUnique(Pow2(n), Pow2(k), Pow2(n - k), 0);
      DoublePower(n - k);
    } else if k > n {
      Pow2Monotone(n + 1, k);
      DivModUnique(Pow2(n), Pow2(k), 0, Pow2(n));
    } else {
      DivModUnique(Pow2(n), Pow2(n), 1, 0);
    }
  }

  lemma DoublePower(n: nat)
    requires n > 0
    ensures Pow2(n) % 2 == 0
  {
  }

  /** Shifting a mask shifts its bits. */
  lemma HasShifted(mask: nat, n: nat, k: nat)
    ensures mask * Pow2(n) >= 0
    ensures Has(mask * Pow2(n), k) <==> k >= n && Has(mask, k - n)
  {
    hide Pow2;
    MulNonNegative(mask, Pow2(n));
    if k < n {
      Pow2Add(n - k, k);
      DoublePower(n - k);
      Associate(mask, Pow2(n - k), Pow2(k));
      DivModUnique(mask * Pow2(n), Pow2(k), mask * Pow2(n - k), 0);
      EvenProduct(mask, Pow2(n - k));
    } else {
      Pow2Add(n, k - n);
      DivModUnique(mask * Pow2(n), Pow2(n), mask, 0);
      DivDiv(mask * Pow2(n), Pow2(n), Pow2(k - n));
    }
  }

  lemma EvenProduct(a: nat, b: nat)
    requires b % 2 == 0
    ensures a * b % 2 == 0
  {
    var half := b / 2;
    assert a * (2 * half) == 2 * (a * half);
  }

  /** The mask of the lowest `n` bits. */
  lemma HasOnes(n: nat, k: nat)
    ensures Has(Pow2(n) - 1, k) <==> k < n
  {
    hide Pow2;
    if k < n {
      LowOne(n, k);
    } else {
      Pow2Monotone(n, k);
      DivModUnique(Pow2(n) - 1, Pow2(k), 0, Pow2(n) - 1);
    }
  }

  lemma LowOne(n: nat, k: nat)
    requires k < n
    ensures Has(Pow2(n) - 1, k)
  {
    hide Pow2;
    Pow2Add(n - k, k);
    DoublePower(n - k);
    OneLess(Pow2(n - k), Pow2(k));
  }

  lemma OneLess(a: int, b: int)
    requires b > 0
    ensures (a * b - 1) / b == a - 1
  {
    Distribute(a, 1, b);
    DivModUnique(a * b - 1, b, a - 1, b - 1);
  }

  /** The bits of a small mask. */
  lemma HasSmall(mask: nat, n: nat, k: nat)
    requires mask < Pow2(n) && k >= n
    ensures !Has(mask, k)
  {
    Pow2Monotone(n, k);
    DivModUnique(mask, Pow2(k), 0, mask);
  }

  /** The bits of the masks below 16. */
  lemma HasTiny(mask: nat, k: nat)
    requires mask < 16
    ensures Has(mask, k) <==>
      (k == 0 && mask % 2 == 1) || (k == 1 && mask / 2 % 2 == 1) || (k == 2 && mask / 4 % 2 == 1)
      || (k == 3 && mask / 8 % 2 == 1)
  {
    assert Pow2(0) == 1 && Pow2(1) == 2 && Pow2(2) == 4 && Pow2(3) == 8 && Pow2(4) == 16;
    if k >= 4 {
      HasSmall(mask, 4, k);
    }
  }

  /** The mask of the kernels. */
  lemma HasKernels(k: nat)
    ensures Has(0xFFC0, k) <==> 6 <= k <= 15
  {
    assert Pow2(6) == 0x40 && Pow2(10) == 0x400;
    HasShifted(0x3FF, 6, k);
    if k >= 6 {
      HasOnes(10, k - 6);
    }
  }

  lemma HighPowers()
    ensures Pow2(4) == 0x10 && Pow2(5) == 0x20 && Pow2(17) == 0x2_0000 && Pow2(18) == 0x4_0000
    ensures Pow2(19) == 0x8_0000 && Pow2(20) == 0x10_0000
  {
    Pow2Literals();
    Pow2Add(16, 4);
    Pow2Add(16, 3);
    Pow2Add(16, 2);
    Pow2Add(16, 1);
  }

  /** The verifier asks of an instruction exactly the primitives it needs. */
  lemma RequiredMaskIff(i: Instruction, k: nat)
    requires Allocated(i)
    ensures Has(RequiredMask(i), k) <==> Needs(i, k)
  {
    hide Has, Pow2;
    HighPowers();
    HasTiny(0, k);
    HasTiny(1, k);
    HasTiny(3, k);
    HasTiny(5, k);
    HasTiny(9, k);
    HasKernels(k);
    HasPower(4, k);
    HasPower(5, k);
    HasPower(17, k);
    HasPower(18, k);
    HasPower(19, k);
    HasPower(20, k);
    if i.cls == KERNEL {
      HasPower(i.opcode + 6, k);
    } else if i.cls == TRANSPORT {
      HasPower(i.opcode + 16, k);
    }
  }

  /** Inclusion of masks is inclusion of their bits. */
  lemma {:induction false} BitsWithinIff(a: nat, b: nat, n: nat)
    requires a < Pow2(n)
    ensures BitsWithin(a, b) <==> forall k: nat :: k < n && Has(a, k) ==> Has(b, k)
    decreases n
  {
    hide Has;
    if n == 0 {
      assert a == 0;
    } else {
      BitsWithinIff(a / 2, b / 2, n - 1);
      LowestBit(a);
      LowestBit(b);
      forall k: nat | k < n
        ensures Has(a, k) <==> if k == 0 then a % 2 == 1 else Has(a / 2, k - 1)
        ensures Has(b, k) <==> if k == 0 then b % 2 == 1 else Has(b / 2, k - 1)
      {
        NextBit(a, k);
        NextBit(b, k);
      }
      if forall k: nat :: k < n && Has(a, k) ==> Has(b, k) {
        forall k: nat | k < n - 1 && Has(a / 2, k)
          ensures Has(b / 2, k)
        {
          assert Has(a, k + 1);
        }
      }
    }
  }

  lemma LowestBit(a: nat)
    ensures Has(a, 0) <==> a % 2 == 1
  {
    assert Pow2(0) == 1;
  }

  lemma NextBit(a: nat, k: nat)
    ensures k > 0 ==> (Has(a, k) <==> Has(a / 2, k - 1))
  {
    if k > 0 {
      DivDiv(a, 2, Pow2(k - 1));
    }
  }

  /** The primitives of a target: none, the first sixteen, or all. */
  predicate Offers(target: Target, k: nat) { if target.P3? then false else if target.P4? then k < 16 else k < 21 }

  lemma OfferedIff(target: Target, k: nat)
    ensures Has(TargetMask(target), k) <==> Offers(target, k)
  {
    hide Has;
    Pow2Literals();
    Pow2Add(16, 5);
    assert Pow2(5) == 0x20;
    HasTiny(0, k);
    HasOnes(16, k);
    HasOnes(21, k);
  }

  // ---------------------------------------------------------------- Fields

  /** What the instruction is, as class and opcode. */
  predicate Is(i: Instruction, cls: nat, opcodes: set<nat>) { i.cls == cls && i.opcode in opcodes }

  /** The targets that know the instruction: classes above 1 need local memory, transport the
      last target, and of the waits only the second target's three come without transport. */
  predicate Known(i: Instruction, target: Target) {
    && Allocated(i)
    && (target.P3? ==> i.cls <= SCALAR && !Is(i, CONTROL, {WAIT}))
    && (target.P4? ==> i.cls <= KERNEL && (Is(i, CONTROL, {WAIT}) ==> i.aux in {1, 2, 3}))
  }

  /** Loops, returns and waits are never predicated. */
  predicate PredicateLegal(i: Instruction) {
    if Is(i, CONTROL, {RET, LOOP_SETUP, LOOP_BACK, WAIT}) then i.predicate_ == 0 else i.predicate_ <= 11
  }

  /** A destination is given where a register is written, with room for all that follow it. */
  predicate DestinationLegal(i: Instruction) {
    if || i.cls == CONTROL || Is(i, SCALAR, {CMP}) || Is(i, BITSTREAM, {SKIP, ALIGN})
       || Is(i, LOCAL, {ST32, FIFO_PUSH}) || Is(i, TRANSPORT, {FRAME_COMMIT, JOB_RESULT, EVENT}) then i.dst == 0
    else if Is(i, ENTROPY, {HUFF_PAIR}) || Is(i, LOCAL, {FIFO_POP}) then i.dst + 1 < 16
    else if Is(i, ENTROPY, {HUFF_QUAD}) then i.dst + 3 < 16
    else true
  }

  /** Bit instructions other than FRAME_SYNC and the CRCs read no register. */
  predicate BitsOnly(i: Instruction) { Is(i, BITSTREAM, {REFILL, PEEK, GET, SKIP, ALIGN}) }

  predicate ReadsFirst(i: Instruction) {
    && (i.cls == CONTROL ==> i.opcode == LOOP_SETUP) && !Is(i, SCALAR, {MOVI}) && !BitsOnly(i)
    && !Is(i, ENTROPY, {UNARY}) && !Is(i, LOCAL, {FIFO_POP}) && !Is(i, TRANSPORT, {DMA_WAIT, EVENT})
  }

  predicate ReadsSecond(i: Instruction) {
    && i.cls != CONTROL && !Is(i, SCALAR, {MOV, MOVI, SAT}) && !BitsOnly(i)
    && !Is(i, ENTROPY, {UNARY}) && !Is(i, LOCAL, {LD32, FIFO_POP}) && !Is(i, TRANSPORT, {DMA_WAIT, EVENT})
  }

  /** The sources that are not read are zero. */
  predicate SourcesLegal(i: Instruction) { (ReadsFirst(i) || i.src0 == 0) && (ReadsSecond(i) || i.src1 == 0) }

  /** The auxiliary byte. */
  predicate AuxLegal(i: Instruction) {
    if Is(i, CONTROL, {LOOP_SETUP, LOOP_BACK}) || Is(i, KERNEL, {STEREO, DECORRELATE}) then i.aux < 4
    else if Is(i, CONTROL, {WAIT}) then i.aux < 6
    else if Is(i, SCALAR, {MIN, MAX}) || Is(i, ENTROPY, {UNARY}) then i.aux < 2
    else if Is(i, SCALAR, {SAT}) then i.aux in {0, 8, 16, 24, 32, 40, 48, 56}
    else if Is(i, BITSTREAM, {FRAME_SYNC}) then 8 <= i.aux <= 16
    else if Is(i, ENTROPY, {HUFF_SYMBOL, HUFF_PAIR, HUFF_QUAD}) then 1 <= i.aux <= 24
    else if Is(i, KERNEL, {REQUANT}) then !(192 <= i.aux < 256)
    else if Is(i, KERNEL, {FIXED}) then i.aux <= 4
    else if Is(i, KERNEL, {LPC}) then 1 <= i.aux <= 32
    else if Is(i, KERNEL, {RESAMPLE}) || Is(i, TRANSPORT, {JOB_RESULT}) then i.aux < 16
    else if Is(i, KERNEL, {PCM_PACK}) then i.aux in {0, 1, 4, 5}
    else i.aux == 0
  }

  /** The immediate: a distance, a constant, a width, a limit, an offset, a count or events. */
  predicate ImmediateLegal(i: Instruction, abi: Abi) {
    if Is(i, CONTROL, {JUMP_FWD, CALL_FWD, LOOP_BACK}) then 1 <= i.immediate < (if abi.V2? then 4096 else 2048)
    else if Is(i, CONTROL, {TRAP}) || Is(i, SCALAR, {MOVI}) then true
    else if Is(i, BITSTREAM, {REFILL, PEEK, GET, SKIP}) then 1 <= i.immediate <= 32
    else if Is(i, BITSTREAM, {FRAME_SYNC}) || Is(i, ENTROPY, {UNARY}) || i.cls == KERNEL then 1 <= i.immediate < 65536
    else if Is(i, LOCAL, {LD32, ST32}) then i.immediate < 65536
    else if Is(i, TRANSPORT, {EVENT}) then i.immediate in {64, 128, 192}
    else i.immediate == 0
  }

  ghost predicate InstructionLegal(i: Instruction, target: Target, abi: Abi) {
    && Known(i, target) && PredicateLegal(i) && DestinationLegal(i) && SourcesLegal(i) && AuxLegal(i)
    && ImmediateLegal(i, abi)
    && (i.cls > SCALAR ==> forall k: nat :: Needs(i, k) ==> Offers(target, k))
  }

  /** An instruction is accepted for a target and an image version exactly if the target knows
      it, every field is legal and the target offers all primitives it needs. */
  lemma LegalIff(i: Instruction, target: Target, abi: Abi)
    ensures ValidInstruction(i, target, abi) <==> InstructionLegal(i, target, abi)
  {
    hide Needs, RequiredMask, TargetMask, BitsWithin, Offers;
    if Allocated(i) {
      OfferIff(i, target);
    }
    FieldsIff(i, target, abi);
  }

  lemma MaskSize(i: Instruction)
    requires Allocated(i)
    ensures RequiredMask(i) < Pow2(21)
  {
    hide Pow2;
    HighPowers();
    Pow2Literals();
    assert Pow2(21) == 2 * Pow2(20) by { NextPower(20); }
    if i.cls == KERNEL {
      Pow2Monotone(i.opcode + 6, 16);
    } else if i.cls == TRANSPORT && i.opcode <= OUTPUT_STREAM {
      Pow2Monotone(i.opcode + 16, 18);
    }
  }

  lemma NextPower(n: nat)
    ensures Pow2(n + 1) == 2 * Pow2(n)
  {
  }

  lemma OfferIff(i: Instruction, target: Target)
    requires Allocated(i)
    ensures BitsWithin(RequiredMask(i), TargetMask(target)) <==> forall k: nat :: Needs(i, k) ==> Offers(target, k)
  {
    hide Has, Needs, RequiredMask, TargetMask, BitsWithin, Offers;
    MaskSize(i);
    BitsWithinIff(RequiredMask(i), TargetMask(target), 21);
    forall k: nat
      ensures Has(RequiredMask(i), k) <==> Needs(i, k)
      ensures Has(TargetMask(target), k) <==> Offers(target, k)
    {
      RequiredMaskIff(i, k);
      OfferedIff(target, k);
    }
    assert forall k: nat :: Needs(i, k) ==> k < 21 by { FewPrimitives(i); }
  }

  lemma FewPrimitives(i: Instruction)
    ensures forall k: nat :: Needs(i, k) ==> k < 21
  {
  }

  /** The case distinctions by opcode are the ones by field. */
  predicate FieldsLegal(i: Instruction, target: Target, abi: Abi) {
    && Known(i, target) && PredicateLegal(i) && DestinationLegal(i) && SourcesLegal(i) && AuxLegal(i)
    && ImmediateLegal(i, abi)
  }

  /** The case distinctions of the verifier. */
  predicate CasesLegal(i: Instruction, target: Target, abi: Abi) {
    && i.predicate_ <= 11
    && if i.cls == CONTROL then ValidControl(i, target, abi)
       else if i.cls == SCALAR then ValidScalar(i)
       else
         && i.cls <= TRANSPORT && !target.P3? && (target.P4? ==> i.cls != TRANSPORT)
         && (i.cls == BITSTREAM ==> ValidBitstream(i)) && (i.cls == ENTROPY ==> ValidEntropy(i))
         && (i.cls == LOCAL ==> ValidLocal(i)) && (i.cls == KERNEL ==> ValidKernel(i))
         && (i.cls == TRANSPORT ==> ValidTransport(i))
  }

  lemma FieldsIff(i: Instruction, target: Target, abi: Abi)
    ensures FieldsLegal(i, target, abi) <==> CasesLegal(i, target, abi)
  {
    if i.cls <= SCALAR {
      FirstClassesIff(i, target, abi);
    } else if i.cls <= LOCAL {
      MiddleClassesIff(i, target, abi);
    } else {
      LastClassesIff(i, target, abi);
    }
  }

  lemma FirstClassesIff(i: Instruction, target: Target, abi: Abi)
    requires i.cls <= SCALAR
    ensures FieldsLegal(i, target, abi) <==> CasesLegal(i, target, abi)
  {
    hide ValidBitstream, ValidEntropy, ValidLocal, ValidKernel, ValidTransport;
  }

  lemma MiddleClassesIff(i: Instruction, target: Target, abi: Abi)
    requires BITSTREAM <= i.cls <= LOCAL
    ensures FieldsLegal(i, target, abi) <==> CasesLegal(i, target, abi)
  {
    hide ValidControl, ValidScalar, ValidKernel, ValidTransport;
  }

  lemma LastClassesIff(i: Instruction, target: Target, abi: Abi)
    requires i.cls > LOCAL
    ensures FieldsLegal(i, target, abi) <==> CasesLegal(i, target, abi)
  {
    hide ValidControl, ValidScalar, ValidBitstream, ValidEntropy, ValidLocal;
  }

  // ---------------------------------------------------------------- What an entry declares

  /** Two masks have a common bit. */
  lemma {:induction false} CommonBit(a: nat, b: nat, n: nat)
    requires a < Pow2(n)
    ensures BitAnd(a, b) != 0 <==> exists k: nat :: k < n && Has(a, k) && Has(b, k)
    decreases n
  {
    hide Has;
    if n == 0 {
      assert a == 0;
    } else {
      CommonBit(a / 2, b / 2, n - 1);
      LowestBit(a);
      LowestBit(b);
      AndBits(a, b);
      forall k: nat | k < n
        ensures k > 0 ==> (Has(a, k) <==> Has(a / 2, k - 1)) && (Has(b, k) <==> Has(b / 2, k - 1))
      {
        NextBit(a, k);
        NextBit(b, k);
      }
      if k: nat :| k < n - 1 && Has(a / 2, k) && Has(b / 2, k) {
        assert Has(a, k + 1) && Has(b, k + 1);
      }
    }
  }

  lemma AndBits(a: nat, b: nat)
    ensures BitAnd(a, b) == 2 * BitAnd(a / 2, b / 2) + (if a % 2 == 1 && b % 2 == 1 then 1 else 0)
  {
  }

  /** The entry declares every primitive an instruction of its range needs; for a wait for a
      kernel, some kernel. */
  ghost predicate Declares(e: Entry, i: Instruction) {
    if Is(i, CONTROL, {WAIT}) && i.aux == 1 then exists k: nat :: 6 <= k <= 15 && Has(e.primitiveMask, k)
    else forall k: nat :: Needs(i, k) ==> Has(e.primitiveMask, k)
  }

  lemma DeclaresIff(e: Entry, i: Instruction)
    requires Allocated(i)
    ensures Declares(e, i) <==>
      var required := RequiredMask(i);
      if i.cls == CONTROL && required != 0 && i.aux == 1 then BitAnd(e.primitiveMask, required) != 0
      else BitsWithin(required, e.primitiveMask)
  {
    hide Has, Needs, BitsWithin, BitAnd;
    MaskSize(i);
    FewPrimitives(i);
    forall k: nat
      ensures Has(RequiredMask(i), k) <==> Needs(i, k)
    {
      RequiredMaskIff(i, k);
    }
    if Is(i, CONTROL, {WAIT}) && i.aux == 1 {
      KernelWaitIff(e);
    } else {
      BitsWithinIff(RequiredMask(i), e.primitiveMask, 21);
    }
  }

  lemma KernelWaitIff(e: Entry)
    ensures BitAnd(e.primitiveMask, 0xFFC0) != 0 <==> exists k: nat :: 6 <= k <= 15 && Has(e.primitiveMask, k)
  {
    hide Has, BitAnd;
    Pow2Literals();
    CommonBit(0xFFC0, e.primitiveMask, 16);
    AndCommutes(0xFFC0, e.primitiveMask);
    forall k: nat
      ensures Has(0xFFC0, k) <==> 6 <= k <= 15
    {
      HasKernels(k);
    }
  }

  lemma {:induction false} AndCommutes(a: nat, b: nat)
    ensures BitAnd(a, b) == BitAnd(b, a)
    decreases a
  {
    if a == 0 || b == 0 {
    } else {
      AndCommutes(a / 2, b / 2);
    }
  }

  /** Builder and parser accept an entry's mask exactly if it declares what its range needs. */
  lemma MasksCoverIff(program: seq<Instruction>, e: Entry)
    requires forall pc :: e.firstPc <= pc <= e.lastPc && pc < |program| ==> Allocated(program[pc])
    ensures Apumc.MasksCover(program, e) <==>
      forall pc :: e.firstPc <= pc <= e.lastPc && pc < |program| ==> Declares(e, program[pc])
  {
    hide Declares, RequiredMask, BitAnd, BitsWithin, Allocated;
    forall pc | e.firstPc <= pc <= e.lastPc && pc < |program|
      ensures Declares(e, program[pc]) <==>
        var required := RequiredMask(program[pc]);
        if program[pc].cls == CONTROL && required != 0 && program[pc].aux == 1 then
          BitAnd(e.primitiveMask, required) != 0
        else BitsWithin(required, e.primitiveMask)
    {
      DeclaresIff(e, program[pc]);
    }
  }

  /** A wait for DMA is covered by one of the three transfers. */
  lemma DmaDeclaredIff(e: Entry)
    ensures BitAnd(e.primitiveMask, Apumc.DMA_MASK) != 0 <==> exists k: nat :: 16 <= k <= 18 && Has(e.primitiveMask, k)
  {
    hide Has, BitAnd;
    Pow2Literals();
    Pow2Add(16, 3);
    assert Pow2(3) == 8;
    CommonBit(0x7_0000, e.primitiveMask, 19);
    AndCommutes(0x7_0000, e.primitiveMask);
    forall k: nat
      ensures Has(0x7_0000, k) <==> 16 <= k <= 18
    {
      HasShifted(7, 16, k);
      if k >= 16 {
        HasTiny(7, k - 16);
      }
    }
  }

  /** An entry runs inside the program, with bounds on loops and retirements; without local
      memory it names none, and otherwise its primitives are offered, its scratch window lies
      between the tables and the end of the workspace, and its tables in the table payload. */
  ghost predicate EntryLegal(e: Entry, count: nat, target: Target, table: nat, abi: Abi) {
    && e.firstPc <= e.entryPc <= e.lastPc < count <= (if abi.V2? then 4096 else 2048)
    && 1 <= e.maxLoopCount < 65536 && 1 <= e.maxRetired < 0x100_0000
    && if target.P3? then
         e.primitiveMask == 0 && e.scratchBase == e.scratchBytes == 0 && e.tableOffset == e.tableBytes == 0
       else
         && (forall k: nat :: Has(e.primitiveMask, k) ==> Offers(target, k))
         && e.scratchBase % 4 == e.scratchBytes % 4 == e.tableOffset % 4 == e.tableBytes % 4 == 0
         && e.scratchBase + e.scratchBytes <= 0x6000 && (e.scratchBytes > 0 ==> table <= e.scratchBase)
         && e.tableOffset + e.tableBytes <= table
  }

  lemma EntryLegalIff(e: Entry, count: nat, target: Target, table: nat, abi: Abi)
    requires e.formatId < 3
    ensures ValidEntry(e, count, target, table, abi) <==> EntryLegal(e, count, target, table, abi)
  {
    hide Has, Offers, TargetMask, BitsWithin;
    MaskOffered(e.primitiveMask, target);
  }

  lemma MaskOffered(mask: nat, target: Target)
    ensures BitsWithin(mask, TargetMask(target)) <==> forall k: nat :: Has(mask, k) ==> Offers(target, k)
  {
    hide Has, Offers, TargetMask, BitsWithin;
    AnyBits(mask, TargetMask(target));
    forall k: nat
      ensures Has(TargetMask(target), k) <==> Offers(target, k)
    {
      OfferedIff(target, k);
    }
  }

  /** `BitsWithinIff` for masks of any size. */
  lemma AnyBits(a: nat, b: nat)
    ensures BitsWithin(a, b) <==> forall k: nat :: Has(a, k) ==> Has(b, k)
  {
    hide Has, BitsWithin, Pow2;
    PowerAbove(a);
    BitsWithinIff(a, b, a);
    forall k: nat | k >= a
      ensures !Has(a, k)
    {
      HasSmall(a, a, k);
    }
  }

  lemma {:induction false} PowerAbove(a: nat)
    ensures a < Pow2(a)
    decreases a
  {
    if a == 0 {
    } else {
      PowerAbove(a - 1);
    }
  }

  /** The instruction waits for a transfer to finish. */
  predicate AwaitsTransfer(i: Instruction) { Is(i, TRANSPORT, {DMA_WAIT}) || (Is(i, CONTROL, {WAIT}) && i.aux == 0) }

  /** Everything in a legal image but the flow of control: legal instructions, the three
      entries in order, each legal and declaring the primitives its range needs. */
  ghost predicate ContentsLegal(program: seq<Instruction>, entries: seq<Entry>, target: Target, table: nat, abi: Abi) {
    && |entries| == 3 && (forall i :: i in program ==> InstructionLegal(i, target, abi))
    && (forall k :: 0 <= k < 3 ==>
          entries[k].formatId == k && EntryLegal(entries[k], |program|, target, table, abi)
          && forall pc :: entries[k].firstPc <= pc <= entries[k].lastPc ==> Declares(entries[k], program[pc]))
  }

  /** Builder and parser accept exactly legal contents. */
  lemma ContentsLegalIff(program: seq<Instruction>, entries: seq<Entry>, target: Target, table: nat, abi: Abi)
    ensures Apumc.EntriesLegal(program, entries, target, table, abi)
      <==> ContentsLegal(program, entries, target, table, abi)
  {
    hide InstructionLegal, EntryLegal, ValidInstruction, ValidEntry, Declares, Apumc.MasksCover;
    forall pc | 0 <= pc < |program|
      ensures ValidInstruction(program[pc], target, abi) <==> InstructionLegal(program[pc], target, abi)
      ensures ValidInstruction(program[pc], target, abi) ==> Allocated(program[pc])
    {
      LegalIff(program[pc], target, abi);
      LegalAllocated(program[pc], target, abi);
    }
    if |entries| == 3 && (forall pc :: 0 <= pc < |program| ==> ValidInstruction(program[pc], target, abi)) {
      forall k | 0 <= k < 3 && entries[k].formatId == k
        ensures ValidEntry(entries[k], |program|, target, table, abi) ==> entries[k].lastPc < |program|
        ensures ValidEntry(entries[k], |program|, target, table, abi)
          <==> EntryLegal(entries[k], |program|, target, table, abi)
        ensures Apumc.MasksCover(program, entries[k]) <==>
          forall pc :: entries[k].firstPc <= pc <= entries[k].lastPc && pc < |program| ==>
            Declares(entries[k], program[pc])
      {
        EntryLegalIff(entries[k], |program|, target, table, abi);
        MasksCoverIff(program, entries[k]);
        LastInside(entries[k], |program|, target, table, abi);
      }
    }
  }

  lemma LegalAllocated(i: Instruction, target: Target, abi: Abi)
    ensures InstructionLegal(i, target, abi) ==> Allocated(i)
  {
  }

  lemma LastInside(e: Entry, count: nat, target: Target, table: nat, abi: Abi)
    ensures ValidEntry(e, count, target, table, abi) ==> e.lastPc < count
  {
  }

  /** The parser besides refuses a range that waits for a transfer its entry cannot make. */
  lemma DmaCoveredIff(program: seq<Instruction>, e: Entry)
    ensures Apumc.DmaCovered(program, e) <==>
      forall pc :: e.firstPc <= pc <= e.lastPc && pc < |program| && AwaitsTransfer(program[pc]) ==>
        exists k: nat :: 16 <= k <= 18 && Has(e.primitiveMask, k)
  {
    hide Has;
    DmaDeclaredIff(e);
    assert forall i :: AwaitsTransfer(i) <==> Apumc.WaitsForDma(i);
  }
}
