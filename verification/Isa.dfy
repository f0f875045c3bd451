/** The APU microcode instruction set: encodings, per-instruction legality and
    entry descriptors. */
module Isa {
  import opened Common

  datatype Target = P3 | P4 | P5

  datatype Abi = V1 | V2

  const MAX_INSTRUCTIONS_V1: nat := 2048
  const MAX_INSTRUCTIONS_V2: nat := 4096
  const P4_CAPABILITY_MASK: nat := 0x0000_FFFF
  const P5_CAPABILITY_MASK: nat := 0x001F_FFFF
  const TABLE_SCRATCH_BYTES: nat := 0x6000
  const ENTRY_COUNT: nat := 3

  // Instruction classes
  const CONTROL: nat := 0
  const SCALAR: nat := 1
  const BITSTREAM: nat := 2
  const ENTROPY: nat := 3
  const LOCAL: nat := 4
  const KERNEL: nat := 5
  const TRANSPORT: nat := 6

  // Control opcodes
  const NOP: nat := 0
  const END: nat := 1
  const TRAP: nat := 2
  const JUMP_FWD: nat := 3
  const CALL_FWD: nat := 4
  const RET: nat := 5
  const LOOP_SETUP: nat := 6
  const LOOP_BACK: nat := 7
  const WAIT: nat := 8

  // Scalar opcodes
  const MOV: nat := 0
  const MOVI: nat := 1
  const ADD: nat := 2
  const SUB: nat := 3
  const AND: nat := 4
  const OR: nat := 5
  const XOR: nat := 6
  const SHL: nat := 7
  const SHR: nat := 8
  const SAR: nat := 9
  const CMP: nat := 10
  const MIN: nat := 11
  const MAX: nat := 12
  const SAT: nat := 13

  // Bitstream opcodes
  const REFILL: nat := 0
  const PEEK: nat := 1
  const GET: nat := 2
  const SKIP: nat := 3
  const ALIGN: nat := 4
  const FRAME_SYNC: nat := 5
  const CRC8: nat := 6
  const CRC16: nat := 7

  // Entropy opcodes
  const HUFF_SYMBOL: nat := 0
  const HUFF_PAIR: nat := 1
  const HUFF_QUAD: nat := 2
  const UNARY: nat := 3
  const RICE4: nat := 4
  const RICE5: nat := 5
  const SIGN_RESTORE: nat := 6

  // Local opcodes
  const LD32: nat := 0
  const ST32: nat := 1
  const TABLE8: nat := 2
  const TABLE16: nat := 3
  const TABLE32: nat := 4
  const FIFO_POP: nat := 5
  const FIFO_PUSH: nat := 6

  // Kernel opcodes
  const REQUANT: nat := 0
  const STEREO: nat := 1
  const IMDCT6: nat := 2
  const DCT32_POLY: nat := 4
  const FIXED: nat := 5
  const LPC: nat := 6
  const DECORRELATE: nat := 7
  const RESAMPLE: nat := 8
  const PCM_PACK: nat := 9

  // Transport opcodes
  const INPUT_REFILL: nat := 0
  const OUTPUT_COMMIT: nat := 1
  const OUTPUT_STREAM: nat := 2
  const DMA_WAIT: nat := 3
  const FRAME_COMMIT: nat := 4
  const JOB_RESULT: nat := 5
  const EVENT: nat := 6

  datatype Instruction = Instruction(
    cls: nat, opcode: nat, predicate_: nat,
    dst: nat, src0: nat, src1: nat, aux: nat, immediate: nat)

  datatype Entry = Entry(
    formatId: nat, entryPc: nat, firstPc: nat, lastPc: nat,
    maxLoopCount: nat, maxRetired: nat,
    scratchBase: nat, scratchBytes: nat,
    primitiveMask: nat, tableOffset: nat, tableBytes: nat)

  function InstructionLimit(abi: Abi): nat {
    if abi.V2? then MAX_INSTRUCTIONS_V2 else MAX_INSTRUCTIONS_V1
  }

  function TargetMask(target: Target): nat {
    match target
    case P3 => 0
    case P4 => P4_CAPABILITY_MASK
    case P5 => P5_CAPABILITY_MASK
  }

  /** The primitive bits an instruction needs. */
  function RequiredMask(i: Instruction): nat {
    if i.cls == CONTROL && i.opcode == WAIT then
      if i.aux == 1 then 0x0000_FFC0
      else if i.aux == 2 || i.aux == 3 then 0x20
      else if i.aux == 4 then 0x4_0000
      else if i.aux == 5 then 0x2_0000
      else 0
    else if i.cls == BITSTREAM then
      if i.opcode == CRC8 || i.opcode == CRC16 then 3 else 1
    else if i.cls == ENTROPY then
      if i.opcode <= HUFF_QUAD then 5 else 9
    else if i.cls == LOCAL then
      if i.opcode == FIFO_POP || i.opcode == FIFO_PUSH then 0x20 else 0x10
    else if i.cls == KERNEL then Pow2(i.opcode + 6)
    else if i.cls == TRANSPORT then
      if i.opcode <= OUTPUT_STREAM then Pow2(i.opcode + 16)
      else if i.opcode == FRAME_COMMIT || i.opcode == JOB_RESULT then 0x8_0000
      else if i.opcode == EVENT then 0x10_0000
      else 0
    else 0
  }

  predicate NoRegisters(i: Instruction) { i.dst == 0 && i.src0 == 0 && i.src1 == 0 }

  predicate BranchDelta(i: Instruction, abi: Abi) {
    1 <= i.immediate <= (if abi.V2? then 0xFFF else 0x7FF)
  }

  predicate ValidControl(i: Instruction, target: Target, abi: Abi) {
    if i.opcode == NOP || i.opcode == END then
      NoRegisters(i) && i.aux == 0 && i.immediate == 0
    else if i.opcode == TRAP then
      NoRegisters(i) && i.aux == 0
    else if i.opcode == JUMP_FWD || i.opcode == CALL_FWD then
      NoRegisters(i) && i.aux == 0 && BranchDelta(i, abi)
    else if i.opcode == RET then
      NoRegisters(i) && i.aux == 0 && i.immediate == 0 && i.predicate_ == 0
    else if i.opcode == LOOP_SETUP then
      i.dst == 0 && i.src1 == 0 && i.immediate == 0 && i.predicate_ == 0 && i.aux <= 3
    else if i.opcode == LOOP_BACK then
      NoRegisters(i) && i.predicate_ == 0 && i.aux <= 3 && BranchDelta(i, abi)
    else if i.opcode == WAIT then
      && NoRegisters(i) && i.immediate == 0 && i.predicate_ == 0 && i.aux <= 5
      && !target.P3? && (target.P4? ==> 1 <= i.aux <= 3)
    else false
  }

  predicate ValidScalar(i: Instruction) {
    if i.opcode == MOV then i.src1 == 0 && i.aux == 0 && i.immediate == 0
    else if i.opcode == MOVI then i.src0 == 0 && i.src1 == 0 && i.aux == 0
    else if ADD <= i.opcode <= SAR then i.aux == 0 && i.immediate == 0
    else if i.opcode == CMP then i.dst == 0 && i.aux == 0 && i.immediate == 0
    else if i.opcode == MIN || i.opcode == MAX then i.immediate == 0 && i.aux <= 1
    else if i.opcode == SAT then
      && i.src1 == 0 && i.immediate == 0 && i.aux < 0x40
      && (i.aux % 0x20 == 0 || i.aux % 0x20 == 8 || i.aux % 0x20 == 16 || i.aux % 0x20 == 24)
    else false
  }

  predicate ValidBitstream(i: Instruction) {
    if i.opcode == REFILL || i.opcode == PEEK || i.opcode == GET then
      i.src0 == 0 && i.src1 == 0 && i.aux == 0 && 1 <= i.immediate <= 32
    else if i.opcode == SKIP then NoRegisters(i) && i.aux == 0 && 1 <= i.immediate <= 32
    else if i.opcode == ALIGN then NoRegisters(i) && i.aux == 0 && i.immediate == 0
    else if i.opcode == FRAME_SYNC then 8 <= i.aux <= 16 && 1 <= i.immediate <= 0xFFFF
    else if i.opcode == CRC8 || i.opcode == CRC16 then i.aux == 0 && i.immediate == 0
    else false
  }

  predicate ValidEntropy(i: Instruction) {
    if i.opcode <= HUFF_QUAD then
      && 1 <= i.aux <= 24 && i.immediate == 0
      && (i.opcode == HUFF_PAIR ==> i.dst <= 14)
      && (i.opcode == HUFF_QUAD ==> i.dst <= 12)
    else if i.opcode == UNARY then
      i.src0 == 0 && i.src1 == 0 && i.aux <= 1 && 1 <= i.immediate <= 0xFFFF
    else i.opcode <= SIGN_RESTORE && i.aux == 0 && i.immediate == 0
  }

  predicate ValidLocal(i: Instruction) {
    if i.opcode == LD32 then i.src1 == 0 && i.aux == 0 && i.immediate < 0x1_0000
    else if i.opcode == ST32 then i.dst == 0 && i.aux == 0 && i.immediate < 0x1_0000
    else if TABLE8 <= i.opcode <= TABLE32 then i.aux == 0 && i.immediate == 0
    else if i.opcode == FIFO_POP then
      i.src0 == 0 && i.src1 == 0 && i.aux == 0 && i.immediate == 0 && i.dst <= 14
    else i.opcode == FIFO_PUSH && i.dst == 0 && i.aux == 0 && i.immediate == 0
  }

  predicate ValidKernel(i: Instruction) {
    && i.opcode <= PCM_PACK && 1 <= i.immediate <= 0xFFFF
    && (i.opcode == REQUANT ==> i.aux / 0x40 != 3)
    && (i.opcode == STEREO || i.opcode == DECORRELATE ==> i.aux < 4)
    && (IMDCT6 <= i.opcode <= DCT32_POLY ==> i.aux == 0)
    && (i.opcode == FIXED ==> i.aux <= 4)
    && (i.opcode == LPC ==> 1 <= i.aux <= 32)
    && (i.opcode == RESAMPLE ==> i.aux <= 15)
    && (i.opcode == PCM_PACK ==> i.aux < 8 && i.aux % 4 <= 1)
  }

  predicate ValidTransport(i: Instruction) {
    if i.opcode <= OUTPUT_STREAM then i.aux == 0 && i.immediate == 0
    else if i.opcode == DMA_WAIT then i.src0 == 0 && i.src1 == 0 && i.aux == 0 && i.immediate == 0
    else if i.opcode == FRAME_COMMIT then i.dst == 0 && i.aux == 0 && i.immediate == 0
    else if i.opcode == JOB_RESULT then i.dst == 0 && i.immediate == 0 && i.aux < 0x10
    else i.opcode == EVENT && NoRegisters(i) && i.aux == 0 && i.immediate in {0x40, 0x80, 0xC0}
  }

  /** One instruction is legal for the target and image ABI. */
  predicate ValidInstruction(i: Instruction, target: Target, abi: Abi) {
    && i.predicate_ <= 11
    && if i.cls == CONTROL then ValidControl(i, target, abi)
       else if i.cls == SCALAR then ValidScalar(i)
       else
         && i.cls <= TRANSPORT && !target.P3? && (target.P4? ==> i.cls != TRANSPORT)
         && (i.cls == BITSTREAM ==> ValidBitstream(i))
         && (i.cls == ENTROPY ==> ValidEntropy(i))
         && (i.cls == LOCAL ==> ValidLocal(i))
         && (i.cls == KERNEL ==> ValidKernel(i))
         && (i.cls == TRANSPORT ==> ValidTransport(i))
         && BitsWithin(RequiredMask(i), TargetMask(target))
  }

  /** The program counter range of an entry lies inside the program. */
  predicate ValidPcRange(e: Entry, instructionCount: nat, abi: Abi) {
    e.firstPc <= e.entryPc <= e.lastPc < instructionCount <= InstructionLimit(abi)
  }

  /** An entry descriptor is legal for the target, image ABI and table payload. */
  predicate ValidEntry(e: Entry, instructionCount: nat, target: Target, tablePayloadBytes: nat, abi: Abi) {
    && e.formatId < ENTRY_COUNT
    && ValidPcRange(e, instructionCount, abi)
    && 1 <= e.maxLoopCount <= 0xFFFF
    && 1 <= e.maxRetired <= 0xFF_FFFF
    && (target.P3? ==>
          e.scratchBase == 0 && e.scratchBytes == 0 && e.primitiveMask == 0 && e.tableOffset == 0 && e.tableBytes == 0)
    && (!target.P3? ==>
          && BitsWithin(e.primitiveMask, TargetMask(target))
          && e.scratchBase % 4 == 0 && e.scratchBytes % 4 == 0
          && e.scratchBase + e.scratchBytes <= TABLE_SCRATCH_BYTES
          && (e.scratchBytes != 0 ==> tablePayloadBytes <= e.scratchBase)
          && e.tableOffset % 4 == 0 && e.tableBytes % 4 == 0
          && e.tableOffset + e.tableBytes <= tablePayloadBytes)
  }
}
