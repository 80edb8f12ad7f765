# jita, verified

A Dafny model of the parts of jita that decide what machine code means: the encoders that turn a
constant, a bitmask, a bitfield or a memory operand into bits, the patch kinds that write addresses
into instructions, the assembler and the linker around them, and four algorithms of the tools and of
the C header reader. The recurring theorem is that bits emitted by jita, decoded or executed by the
rules of the architecture's manual, denote the value or address that the caller asked for, for all
inputs, and that jita refuses an input exactly when no bits could do that. Where one of these is false
of the code, the project has an input and the exact condition under which it is true.

`dafny verify dfyconfig.toml` checks the whole project.

## How it is laid out

- `Bits`, `Bytes`, `Fields`, `Relocation`: arithmetic of bits, little endian bytes, scattered
  instruction fields, and the OR of a field into a word.
- `Riscv64Machine`, `Riscv64Li`: the machine for the instructions that `li` emits, and the recursive
  compiler of constants. `Loong64Machine`, `Loong64Li`: the same for loongarch64.
- `Aarch64Imm`: logical immediates against DecodeBitMasks of the Arm Architecture Reference Manual.
  `Aarch64Bitfield`: the bitfield aliases against SBFM, BFM and UBFM of the same manual.
- `Riscv64Patch`, `Loong64Patch`, `Aarch64Patch`, `Patch`: every patch kind, with the reading of the
  patched field by the processor.
- `Assembling`: the Assembler with its sections, labels, name tables, extern slots and `flush`.
  `Linking`: layout, image and patches on values. `Linker`: layout and link as they run.
- `X64Mem`, `X64Encode`: memory expressions, and opcode, REX, VEX, ModRM, SIB, displacement and
  immediates against a decoder written from the Intel SDM, Volume 2A, sections 2.1.5, 2.2.1 and 2.3.5.
  `X64Emit`: instructions with a memory operand, jumps and mov64 from the encoder, names included,
  through the assembler and the linker to the decoder again.
- `Merge`, `Resolve`, `ConstEval`, `Rewrite`: signature merging, dependency closure, the C constant
  evaluator and the header rewriter. `Wrappers` holds `Option`.

Code that changes state in the source is a method here, proved against a function of its inputs or
its old state; what the function means is then proved about the function. Python's integers are
Dafny's `int`; `& (2**n - 1)` is `% Pow2(n)`, `>> n` is `/ Pow2(n)`, and Dafny's division rounds down
for a positive divisor as Python's does. `|` of non-negative integers is `Or`.

## What the proofs found

1. `flush` emits exactly the encoded bytes unless a fixup asks for a new extern slot while `externs`
   itself is the current section. The instruction is then still whole, bytes and patches, exactly if
   that fixup is the last one and the bytes after its field are zeros that the padding before the slot
   stands for; there are none after the field of `call qword[rip + f]`. Else the slot lands inside the
   instruction. `Assembling.Intact` is that condition, `WholeExactly` and `Assembler.Flush` say that it
   is exact. `SplitByItsSlot` has `cmp qword[rip + f], 5`, which is split, and `cmp qword[rip + f], 0`,
   which is not.
2. The constant evaluator promises C semantics (jita/cheader/convert.py:625), but `&&` and `||` do not
   short circuit: `0 && 1 / 0`, `(0 && 1 / 0) || 1` and `1 + (0 && 1 / 0)` are rejected.
   `AgreesExactly` says when it agrees with C: unless the expression has a value in C and some `&&` or
   `||` that C evaluates is decided by its left operand while its right one holds a division by zero or
   a negative shift count outside the branches not taken. `LogicalCounterexample` has the three inputs.
3. The riscv64 `call` and `tail` (jita/riscv64/table.py:320-321) end in jalr, which clears bit 0 of its
   sum. A displacement to an odd address is accepted and the jump goes to the byte before it.
   `Riscv64Patch.Lands` gives the landing of every accepted pair, `OddJumpExample` an input, and
   `Patch.Lands`, `Linking.LinkedField` and `Linker.PatchLands` hold if and only if it is no such jump.
   `Patch.RefusesExactly` also names the one displacement that only jalr reaches and that is refused; it
   needs an odd place, where no instruction can be.
4. The rewriter's `move` keeps the order of offsets outside replaced ranges, but not inside a range
   that shrinks, such as a function body that becomes `;`. `MonotoneExactly` gives the exact condition
   for all offsets, `BodyNotMonotone` an input. The scanner records no offset inside a replaced range,
   so the rewriter itself never moves one.
5. The processors add addresses modulo 2**64, the patch kinds compute distances without wrapping. So
   `apply` refuses a target at the other end of the address space that the field could reach by
   wrapping around: `Patch.WrapExample` has a 4 byte relative field at 0x1000 and the target
   0xffff_ffff_ff60_0000. `Patch.RefusesExactly` says which addresses some contents reach, in terms of
   the number of the address that is nearest to the place; `Patch.DecidesExactly` says that `apply`
   decides wrongly exactly if it would accept that number and refuses the one it was given, so never if
   they are the same, as when target and field are both in the lower half (`Patch.LowerHalf`).
6. An instruction with a 32 bit base or index register gets an address size prefix
   (jita/x64/encoder.py:38, 635-636), but three templates start with fwait (jita/x64/table.py:347, 349,
   351), which is an instruction of its own. The prefix comes before it, so it belongs to the fwait, and
   `fstenv [eax]` stores at `[rax]`. `WaitDecodes` gives the two instructions, `WaitMeansExactly` says
   that the operand is the expression's for all register values exactly if no 32 bit register is in it,
   `WaitExample` has the bytes.

## Model

| member | source | states |
|---|---|---|
| Riscv64Li.LiWords | jita/riscv64/encoder.py:127-135 | for every integer and every rd, running the 1 to 8 words of `li` leaves rd equal to the value modulo 2**64 and all other registers as they were; a 32 bit constant takes one word if 12 bits or its upper bits make it up, else two |
| Riscv64Li.LoadConst | jita/riscv64/encoder.py:104-124 | the recursive compiler only appends, the words it appended load the constant, there are at most two more than two per shift step still ahead, and the recursion ends |
| Riscv64Li.LowestBit | jita/riscv64/encoder.py:110-113 | the shift loop stops at the lowest set bit at or above bit 12 of a wrapped nonzero upper part, below bit 64 |
| Riscv64Li.DepthShrinks | jita/riscv64/encoder.py:109-114 | what is left after a shift step needs strictly fewer steps, which bounds the recursion to three |
| Riscv64Li.AddiDecodes | jita/riscv64/encoder.py:100-101 | the processor decodes the word of `_addi` as addi or addiw with the same registers and immediate |
| Riscv64Li.SlliDecodes | jita/riscv64/encoder.py:115 | the shift word decodes as slli of rd by the shift |
| Riscv64Li.LuiDecodes | jita/riscv64/encoder.py:121 | the lui word decodes as lui with the upper 20 bits |
| Riscv64Li.LuiAddiw | jita/riscv64/encoder.py:119-124 | lui is off by 2**32 for the highest 32 bit constants and addiw, unlike addi, wraps the sum back |
| Loong64Li.LiWords | jita/loongarch64/encoder.py:182-224 | the words of li.d leave rd equal to the value modulo 2**64 (at most 4 words), those of li.w to the sign extension of its low 32 bits (at most 2); their exact number by the value |
| Loong64Li.RedundantMeans | jita/loongarch64/encoder.py:198-202 | the redundancy test holds exactly for the part that sign extension of the part below produces |
| Loong64Li.LeavesOut | jita/loongarch64/encoder.py:198-223 | a part is left out exactly if the number is the sign extension of the parts below; two words below bit 32 only where one does not do |
| Loong64Li.Skips | jita/loongarch64/encoder.py:207-223 | leaving out redundant parts leaves the loaded value unchanged |
| Loong64Li.SplitParts | jita/loongarch64/encoder.py:189-202 | the four parts join to the wanted 64 bits; for li.w the two high parts are redundant |
| Loong64Li.Lu52iKeeps | jita/loongarch64/encoder.py:207-223 | lu52i.d sets bits 52 to 63 and keeps the 52 bits below |
| Loong64Li.Lu32iKeeps | jita/loongarch64/encoder.py:220-221 | lu32i.d sets bits 32 to 63 to the sign extended part and keeps the 32 bits below |
| Aarch64Imm.Imm13 | jita/aarch64/encoder.py:102-137 | there is a result exactly if the number is in range and some N:immr:imms decodes to its pattern; the result decodes to it; the 32 bit form has N = 0 since nothing else decodes there |
| Aarch64Imm.Search | jita/aarch64/encoder.py:116-137 | over 64 bits: a result exactly for a rotated run of ones repeated in elements of 2 to 64 bits, with the fields of that run |
| Aarch64Imm.ElementOf | jita/aarch64/encoder.py:118-126 | the loop over sizes finds the shortest element that the pattern repeats |
| Aarch64Imm.SmallestPeriod | jita/aarch64/encoder.py:118-126 | a replicated proper run of ones repeats in no element shorter than its own |
| Aarch64Imm.PatternUnique | jita/aarch64/encoder.py:127-137 | run length, rotation and element size are determined by the pattern |
| Aarch64Imm.EncodingUnique | jita/aarch64/encoder.py:136-137 | two encodings that decode to the same pattern agree but for bits of immr that the size ignores |
| Aarch64Imm.DecodesRun | jita/aarch64/encoder.py:127-137 | whatever decodes does so to the pattern of the run that its fields spell |
| Aarch64Imm.RunDecodes | jita/aarch64/encoder.py:136-137 | the fields chosen for a run decode to its pattern, at 64 and at 32 bits |
| Aarch64Imm.PopRun | jita/aarch64/encoder.py:129-130 | rotation keeps the number of ones, so counting them finds the run length |
| Aarch64Bitfield.AliasPreservesMeaning | jita/aarch64/encoder.py:557-581 | the word of an accepted sbfx, bfxil, ubfx, sbfiz, bfi, ubfiz or lsl decodes as SBFM, BFM or UBFM of the same registers, and executing that computes the alias's own meaning on all register values |
| Aarch64Bitfield.AcceptsExactly | jita/aarch64/encoder.py:565-580 | an alias is accepted exactly if its field lies inside the register, and the immediates then always fit their fields |
| Riscv64Patch.Lands | jita/riscv64/patch.py:66-105 | after `apply` on a clear field, the branch or the auipc pair refers to the target, by the B, J, S, I and U formats; a pair that ends in jalr to an odd target goes to the byte before it |
| Riscv64Patch.OddJumpExample | jita/riscv64/table.py:320-321 | `tail` at address 0 to address 1: accepted, and jumps to 0 |
| Riscv64Patch.Misses | jita/riscv64/patch.py:66-105 | where `apply` refuses the number of an address that is nearest to the place, no contents of the field reach that address, sums taken modulo 2**64, but for one odd displacement that clearing bit 0 reaches |
| Riscv64Patch.LandsPair | jita/riscv64/patch.py:76-105 | auipc plus the signed low part reproduces the displacement, in stores as in loads, addi and jalr, which then clears bit 0 |
| Riscv64Patch.PcrelReach | jita/riscv64/patch.py:76-82 | every displacement that some pair of in-range parts makes up is split, not refused |
| Riscv64Patch.LandsB | jita/riscv64/patch.py:30-36 | gathering the scattered B-type bits gives the displacement back |
| Riscv64Patch.LandsJ | jita/riscv64/patch.py:39-45 | gathering the scattered J-type bits gives the displacement back |
| Riscv64Patch.LandsLo12 | jita/riscv64/patch.py:48-53 | the S-type and I-type fields hold the low part, and the opcode that selects between them is untouched |
| Riscv64Patch.Apply | jita/riscv64/patch.py:66-105 | the in-place writes are exactly the planned fields, nothing on failure |
| Loong64Patch.Lands | jita/loongarch64/patch.py:53-121 | after `apply` on clear fields, the branch, pcalau12i or pcaddu18i pair refers to the target |
| Loong64Patch.Misses | jita/loongarch64/patch.py:53-121 | where `apply` refuses the nearest number of an address, no contents of the fields reach that address modulo 2**64 |
| Loong64Patch.PcalaReach | jita/loongarch64/patch.py:68-75 | every target that some in-range page and low part make up is split, not refused |
| Loong64Patch.Call36Reach | jita/loongarch64/patch.py:78-84 | the same for pcaddu18i and jirl |
| Loong64Patch.PairParts | jita/loongarch64/patch.py:68-84 | the parts of a pair are in range and add up to the target |
| Loong64Patch.Apply | jita/loongarch64/patch.py:53-121 | the in-place writes are exactly the planned fields, nothing on failure |
| Aarch64Patch.Lands | jita/aarch64/patch.py:36-60 | after `apply` on a clear field, the imm26, imm19, imm14, adr or adrp field refers to the target (its page, for adrp) |
| Aarch64Patch.Misses | jita/aarch64/patch.py:36-60 | where `apply` refuses the nearest number of an address, no contents of the field reach that address, or its page, modulo 2**64 |
| Aarch64Patch.Apply | jita/aarch64/patch.py:36-60 | the in-place write is exactly the planned field, nothing on failure |
| Relocation.Untouched | jita/riscv64/patch.py:25-27 | no bit outside the patched fields changes, whatever the template held |
| Patch.ZeroTemplate | jita/core/assembler.py:246-250 | a field of zeros is a template for every kind |
| Bytes.OrWord | jita/riscv64/patch.py:25-27 | `_or_word` changes the four bytes at its offset and no others |
| Patch.RefusesExactly | jita/core/patch.py:31-53 | some contents of the kind's own bits, the rest of the instruction as it is, reach an address modulo 2**64 from a place exactly if the patch succeeds for the nearest number of that address; but a jalr pair to an odd target succeeds in vain, and one edge displacement of jalr is refused |
| Patch.DecidesExactly | jita/core/patch.py:31-53 | what a patch decides about its target is right about the address unless it refuses it and would accept the nearest number of the same address; so it is right for every target that is its own nearest number |
| Patch.LowerHalf | jita/core/patch.py:31-53 | in the lower half of the address space every target is its own nearest number |
| Patch.WrapExample | jita/core/patch.py:48-53 | a 4 byte relative field at 0x1000 is refused the target 0xffff_ffff_ff60_0000, which four bytes reach by wrapping around |
| Patch.Lands | jita/core/patch.py:31-53 | a patch that succeeds makes its field refer to the target, read as the processor reads it, exactly if it is no `call` or `tail` to an odd address |
| Patch.Misses | jita/core/patch.py:31-53 | if the nearest number of an address is refused, no contents of the field reach that address modulo 2**64, but for the edge of jalr |
| Patch.PatchedIsRelative | jita/core/patch.py:43-53 | every kind but the absolute ones depends only on the displacement, the paged ones up to whole pages |
| Patch.SuccessIgnoresBytes | jita/core/patch.py:31-84 | whether a patch succeeds does not depend on what the field held |
| Patch.Apply | jita/core/patch.py:36-84 | `apply` overwrites exactly its field, or leaves the buffer alone and fails |
| Linking.LayoutPlaces | jita/core/link.py:65-82 | sections are disjoint, each at a multiple of its alignment, read-only ones below the page boundary exec_size, writable ones at or above it |
| Linking.LayoutTight | jita/core/link.py:65-82 | sections come in order of creation without gaps but for alignment, the writable ones less than a page after the last read-only one, and the image ends with the last one |
| Linking.FieldsApart | jita/core/link.py:101-123 | patches of different sections never overlap in the image |
| Linking.LinkedField | jita/core/link.py:89-123 | after a successful link a field that no other patch overlaps refers to target plus addend, exactly if it is no odd `call` or `tail` |
| Linking.LinkedByte | jita/core/link.py:96-123 | every byte outside all patch fields is its section's byte, or zero between sections |
| Linking.SpanByte | jita/core/link.py:96-123 | a byte of a section that no patch of the same section writes is in the image as it was emitted |
| Linking.LinkFailsExactly | jita/core/link.py:89-123 | linking fails exactly if the base is misaligned or some patch has no target or one that its kind refuses |
| Linking.PositionIndependent | jita/core/link.py:89-123 | code whose patches are all relative to labels links to the same bytes, or fails, at any two valid bases (page multiples apart for the paged kinds) |
| Linking.LinkedAlignment | jita/core/link.py:72-94 | an aligned offset in an aligned section has an aligned address in every successful link |
| Linking.MaxAlignOf | jita/core/link.py:85-86 | the largest alignment is a power of two, at least as large as each and some section's own |
| Linker.LayoutOf | jita/core/link.py:65-82 | the two passes over the sections compute the layout |
| Linker.PlaceSections | jita/core/link.py:70-76 | one pass of `place` adds exactly the offsets of the sections it picks |
| Linker.Link | jita/core/link.py:89-123 | link on an assembler gives the image, or the first error, that the sequence of patches on values gives; `LinkSucceeds`, `ExternLands`, `LabelLands`, `LinkedCode` and `LayoutTight` say what image that is |
| Linker.LinkSucceeds | jita/core/link.py:89-123 | the link of any reachable assembler succeeds exactly if the base is a multiple of every section's alignment and every patch has a target with an address (a label bound in this assembler, an extern given to the link or with an address of its own) that its kind accepts |
| Linker.LinkImage | jita/core/link.py:89-134 | link succeeds exactly then, with the tables of the Image: each named label's offset, each section's size |
| Linker.PatchSection | jita/core/link.py:101-123 | one section's patches are resolved and applied in order up to the first failure |
| Linker.Fill | jita/core/link.py:96-99 | the section copies make up the unpatched image |
| Linker.SymbolTable | jita/core/link.py:125-129 | the image has exactly the bound named labels, each at its own offset, with no entry overwritten |
| Linker.AddressOf | jita/core/link.py:42-56 | asked at any time after the link, exactly the labels bound by then have an address, their section's plus their offset |
| Linker.LabelAddressIs | jita/core/link.py:42-56 | the address of a label is the one that patches to it refer to |
| Linker.AddressOfName | jita/core/link.py:36-41 | a name has an address exactly if a label bound by then has the name, and it is that label's address |
| Linker.SoundStays | jita/core/link.py:36-56 | appending labels and growing sections keeps an earlier image's answers valid, for labels and for names |
| Linker.SnapshotValid | jita/core/assembler.py:246-264 | every reachable assembler hands the linker distinct sections, power of two alignments and patches inside their buffers |
| Linker.PatchLands | jita/core/link.py:101-123 | for every reachable assembler: after a successful link, the target of each clean patch has an address, and the field refers to that plus the addend, exactly if it is no odd `call` or `tail` |
| Linker.ExternLands | jita/core/link.py:113-120 | the address of an extern is the one given to the link, else its own, whatever the base |
| Linker.LabelLands | jita/core/link.py:106-112 | the address of a label is the base, the offset of its section and its offset in there |
| Linker.LinkedCode | jita/core/link.py:96-123 | the image holds the bytes of an installed instruction except where its own patches write |
| Linker.AlignedLabel | jita/core/assembler.py:393-408 | a label at a multiple of n in a section aligned to n, as `align(n)` leaves it, has an address divisible by n |
| Linker.AlignedSlot | jita/core/assembler.py:273-300 | every extern slot's address is divisible by 8 |
| Linker.SlotHasPatch | jita/core/assembler.py:273-300 | in every reachable assembler each slot has the patch that fills it, for an extern of its name |
| Linker.SlotPointer | jita/core/assembler.py:273-300 | after a successful link the eight bytes at a slot's address are the address of its extern, if no other patch was put over the slot |
| Linker.RipOperandExact | jita/x64/encoder.py:545-561 | with any bytes after the displacement, a rip-relative field reaches label plus displacement from the end of the instruction, and is refused exactly if the distance as an integer does not fit 32 bits; that is right, modulo 2**64, exactly unless the shorter way around the end of the address space fits |
| Linker.RipOperandLinked | jita/x64/encoder.py:545-561 | a clean patch that `flush` recorded for a rip-relative operand leads, once linked, from the end of the instruction to the label, or the extern's slot, plus the operand's displacement |
| X64Emit.EncodeTemplate | jita/x64/encoder.py:633-639 | for a chosen template, an accepted instruction is prefix, opcode, operand and immediates, with the fixups `flush` needs |
| X64Emit.AcceptsExactly | jita/x64/encoder.py:318-388 | it is refused exactly for ah, ch, dh or bh together with anything that needs REX, an absolute address that no sign extended 32 bit displacement is, or an immediate out of range |
| X64Emit.BytesNamed | jita/x64/encoder.py:583-598 | in the decoded instruction the numbers of the byte registers, with its REX prefix or without one, name the registers that were asked for: spl, bpl, sil and dil as well as ah, ch, dh and bh |
| X64Emit.FixesFlush | jita/x64/encoder.py:545-561 | the encoder's invariant, fixups in order over zero fields, is what the assembler demands, whatever the operand that a fixup names |
| X64Emit.Deliver | jita/x64/encoder.py:719-747 | around any encoder with at most one symbol: string operands get their labels, and what is encoded stands at the old end of the section, with its patch clean and no other over it, exactly if no slot of its own is in its way (`Intact`); an EncodeError leaves tables, names and bytes as they were |
| X64Emit.Emit | jita/x64/encoder.py:719-747 | the same for an instruction with a ModRM operand, accepted exactly if its form accepts the operand and it is not asked to be short |
| X64Emit.EmitJump | jita/x64/encoder.py:523-534 | the same for call, jmp and the conditional jumps to a label, extern or name; refused exactly for a short call |
| X64Emit.EmitMov64 | jita/x64/encoder.py:652-691 | the same for mov64 of a register and a number, label, extern or name; refused exactly for a number of more than 64 bits |
| Assembling.StandsOn | jita/core/assembler.py:230-258 | whatever is emitted later leaves an instruction and its patch as they are |
| X64Emit.FilledDecodes | jita/x64/encoder.py:355-370 | with any four bytes in the field that the fixup covers, the instruction decodes to the opcode and register asked for and to the displacement those bytes spell |
| X64Emit.InstructionReaches | jita/x64/encoder.py:545-561 | from the memory expression to the linked image: the bytes of an instruction that names a symbol decode to its opcode, register and immediates, and the address after it plus the decoded displacement is what the expression says |
| X64Emit.PlainReaches | jita/x64/encoder.py:355-402 | the linked bytes of an instruction whose memory operand names no symbol decode to its opcode, register and immediates and to an operand with the expression's address, for all register values; `[rip + 16]` counts from the address after the instruction |
| X64Emit.JumpReaches | jita/x64/encoder.py:523-534 | a linked jump decodes to itself, and the address after it plus the decoded displacement is that of its label or extern |
| X64Emit.MovReaches | jita/x64/encoder.py:652-691 | linked mov64 of a label or extern decodes to its register and to that address modulo 2**64 |
| X64Emit.MovKeeps | jita/x64/encoder.py:652-691 | linked mov64 of a number decodes to its register and to that number modulo 2**64 |
| X64Emit.ReadsExtern | jita/x64/encoder.py:362-367 | the operand of a linked instruction with `[rip + f]` is at f's slot, and the eight bytes there are the address that f stands for |
| X64Emit.CallForm | jita/x64/table.py:257 | `call qword[rip + f]` is FF 15 with such an operand, so it goes to f |
| Assembling.Assembler.constructor | jita/core/assembler.py:169-181 | a new assembler is valid, with one empty code section |
| Assembling.Assembler.Bind | jita/core/assembler.py:304-323 | the exact outcome of `bind`; a success moves the label from the forward table to the symbols, a failure changes no table but perhaps the order of forward names |
| Assembling.Assembler.Named | jita/core/assembler.py:336-348 | the bound label, the forward one, or a fresh one that is entered |
| Assembling.Assembler.Define | jita/core/assembler.py:325-334 | `label(name)` binds the very label that string operands stand for; it fails exactly if the name is bound, changing nothing |
| Assembling.Assembler.Encode | jita/x64/encoder.py:719-747 | a rejected instruction leaves tables, buffers and patches as they were, and no patch of any section refers to a label it had made; an accepted one is flushed and makes only the forward names it uses |
| Assembling.Assembler.EncodeWords | jita/riscv64/encoder.py:403-409 | the same for encoders that emit words and patch over them, as on aarch64 and loongarch64: the section gets exactly the words and, over their start, a patch to the label of the operand, which is clean |
| Assembling.CleanStays | jita/core/assembler.py:230-264 | a clean patch stays clean under everything that is emitted later |
| Assembling.AddedClean | jita/core/assembler.py:246-264 | a patch over a template that no other patch overlaps is clean, and keeps the clean ones so |
| Assembling.WholeOne | jita/x64/encoder.py:545-561 | of an instruction that `flush` left whole with one fixup, the patch is clean and no other patch writes over its bytes |
| Assembling.Assembler.ForgetNames | jita/core/assembler.py:350-360 | exactly the names added since are gone |
| Assembling.Assembler.ResolveNames | jita/x64/encoder.py:709-715 | each string operand is bound or becomes a forward name, and no other name does |
| Assembling.Assembler.ExternSlot | jita/core/assembler.py:273-300 | one slot a name: the first request appends zeros up to a multiple of 8 and eight more under a patch of the extern, in an externs section made with alignment 8 if needed; later ones return it; the current section is back |
| Assembling.Assembler.AddPatch | jita/core/assembler.py:246-264 | a patch is recorded exactly if it lies inside the emitted bytes; a slot kind is recorded as its field to the slot |
| Assembling.Assembler.EmitPatch | jita/core/assembler.py:233-244 | a zeroed field with its patch, or nothing at all |
| Assembling.Assembler.Align | jita/core/assembler.py:393-408 | fewer than n bytes are added, up to a multiple of n: the fill over and over, or NOPs if an instruction was recorded in the section and zeros if not; the alignment becomes at least n; which errors leave what behind |
| Assembling.Assembler.SwitchTo | jita/core/assembler.py:207-223 | the named section is current, an existing one or a new empty read-only one; its alignment never drops, `writable` is taken if given and kept if not, and no other section changes |
| Assembling.Assembler.Flush | jita/x64/encoder.py:545-561 | the exact section that results; the emitted bytes are the encoded ones if and only if no fixup makes a slot in the current externs section, and the instruction is whole, bytes and patches, if and only if no such slot is in its way (`Intact`); sections but externs are untouched, and every new patch is clean |
| Assembling.WholeExactly | jita/x64/encoder.py:545-561 | the instruction is whole exactly if no fixup makes a slot of its own section, or only the last one does and the bytes after its field are zeros that the slot's padding stands for |
| Assembling.FlushedPlain | jita/x64/encoder.py:550-558 | without a slot of its own section, the loop of `flush` keeps emitted bytes and patches in step with the encoded instruction |
| Assembling.FlushedFormed | jita/x64/encoder.py:550-558 | with one, the bytes and patches up to the slot come first, and everything later lies behind it |
| Assembling.StandsExactly | jita/x64/encoder.py:545-561 | a flushed instruction with at most one fixup is in its place, its patch clean and no other over it, exactly if no slot is in its way |
| Assembling.SplitByItsSlot | jita/core/assembler.py:273-300 | flushed in externs, `cmp qword[rip + f], 5` is split by its own slot, and with 0 for 5 it is whole |
| X64Mem.MakeKeeps | jita/x64/mem.py:72-119 | construction gives the fields themselves if they are encodable, them with an unscaled rsp index as base if that is, and refuses all others; address and size stay, and it is idempotent |
| X64Mem.AddMeans | jita/x64/mem.py:139-161 | a sum exists exactly if neither side has a size and each part of the right one finds its place in the left one; its address is the sum of the addresses |
| X64Mem.AddRegMeans | jita/x64/mem.py:132-137 | a register is accepted exactly if its free place, the base if unscaled and free and else the index, gives an encodable operand; it adds its scaled value and keeps the size |
| X64Mem.AddSymMeans | jita/x64/mem.py:139-147 | a symbol is accepted exactly if it is the only one and the operand is encodable with it; it adds its distance from rip |
| X64Mem.AddIntMeans | jita/x64/mem.py:139-169 | `+` and `-` of an integer are accepted exactly if the moved displacement is encodable, move the address by it and keep the size |
| X64Encode.InstructionMeans | jita/x64/encoder.py:355-402 | an instruction emitted for a memory expression decodes, whatever follows, to its own length, its register, and an operand with the expression's address for all register values |
| X64Encode.InstructionDecodes | jita/x64/encoder.py:318-402 | the whole emitted instruction, if its template does not start with fwait, decodes to the table's opcode, the operand size, register and operand asked for, a REX prefix exactly if something needs one, and its length |
| X64Encode.BytesExactly | jita/x64/encoder.py:583-598 | byte registers are refused exactly if they cannot be named together with what else the instruction needs, and what is accepted names each |
| X64Encode.WaitDecodes | jita/x64/table.py:347-351 | an instruction whose template starts with fwait is two: the fwait with every prefix before it, and the rest, which decodes without them |
| X64Encode.WaitMeansExactly | jita/x64/encoder.py:564-571 | after fwait, the operand has the expression's address for all register values exactly if the expression has no 32 bit register |
| X64Encode.WaitExample | jita/x64/table.py:347 | the bytes of `fstenv [eax]` are an fwait and `fstenv [rax]` |
| X64Encode.ImmediateMeans | jita/x64/encoder.py:508-522 | an immediate that is put has the size of its letter and operand, and reads back as the number asked for modulo the operand size; unsigned and 64 bit ones as the number itself |
| X64Encode.OperandSized | jita/x64/encoder.py:279-295 | an operand sized immediate is refused exactly if no bytes of that size are the number, signed or unsigned, or sign extended for 64 bits |
| X64Encode.LettersExactly | jita/x64/encoder.py:261-277 | the ranges of signed bytes, unsigned bytes and unsigned words for each operand size |
| X64Encode.JumpDecodes | jita/x64/encoder.py:523-534 | with any bytes in its field, a jump, long or short, decodes to itself and the displacement they spell |
| X64Encode.Encoder.PutBranch | jita/x64/encoder.py:523-534 | the short form rewrites E9 and 0F 8x and has a one byte field; it is refused for any other opcode |
| X64Encode.MovDecodes | jita/x64/encoder.py:680-685 | with any bytes in its field, mov64 decodes to its register and the number they spell |
| X64Encode.VexDecodes | jita/x64/encoder.py:297-317 | the same for an instruction with VEX: map, implied prefix, W, L, the register in vvvv, opcode, register and operand |
| X64Encode.VexParses | jita/x64/encoder.py:298-315 | the two or three bytes of VEX carry W, R, X and B of the REX number they replace |
| X64Encode.VexSize | jita/x64/encoder.py:299-304 | the two byte form of VEX is taken exactly if the first map and clear W, X and B allow it |
| X64Encode.VexSpells | jita/x64/encoder.py:460-483 | the hex digits before a VEX letter give the SDM's map and implied prefix, with nothing left over |
| X64Encode.OperandDecodes | jita/x64/encoder.py:355-402 | ModRM, SIB and displacement decode to the operand: rbp and r13 bases, rsp and r12 bases, no base, r12 as index, rip |
| X64Encode.OperandSize | jita/x64/encoder.py:371-402 | and they are no longer than they need to be: SIB only where ModRM cannot do, the shortest displacement |
| X64Encode.OpcodeParses | jita/x64/encoder.py:320-347 | mandatory prefixes come out in front and REX directly before the opcode or its escape, for opcodes without fwait |
| X64Encode.RefusesExactly | jita/x64/encoder.py:371-386 | an absolute operand is refused exactly if no sign extended 32 bit displacement is the same address |
| X64Encode.AddressPreserved | jita/x64/encoder.py:172-188 | the classified operand has the expression's address |
| X64Encode.Encoder.PutOp | jita/x64/encoder.py:297-347 | what `putop` appends with and without VEX, and when it refuses: REX with ah, ch, dh, bh, memory in vvvv, a VEX opcode of two bytes |
| X64Encode.Encoder.PutMrmSib | jita/x64/encoder.py:355-402 | what `putmrmsib` appends, the fixup it records, and when it refuses |
| X64Encode.Encoder.Operand | jita/x64/encoder.py:434-459 | the register or digit merged into the opcode is undone and the REX bits are those of the operand |
| Merge.Merge | tools/gen_stubs.py:104-121 | the signatures partition the points, and no two of them differ in a single position |
| Merge.GroupAt | tools/gen_stubs.py:113-118 | grouping gives one signature per key with the union at k, never more signatures, and as many only if all keys differ |
| Merge.GroupedPartition | tools/gen_stubs.py:113-120 | grouping at a position keeps the partition |
| Resolve.Resolve | tools/fetch_debian_python.py:78-112 | a result is exactly the packages the wanted names reach, each once, none in skip, all needs settled, in discovery order: each is what the latest package before it that lacked something lacked first, or else the first that a wanted name lacked; there is none exactly if something reachable needs what does not exist |
| Resolve.Resolver.Add | tools/fetch_debian_python.py:92-108 | the recursive `add` settles its name and every package it adds, adds only what is reachable, and ends on any graph |
| Resolve.Providers | tools/fetch_debian_python.py:83-88 | the table of virtual names |
| Resolve.ProviderFacts | tools/fetch_debian_python.py:83-88 | a virtual name is satisfied by the first package that provides it |
| Resolve.NeedMeans | tools/fetch_debian_python.py:92-101 | a name asks for nothing if it is skipped, for itself if it is a package, else for the first package that provides it unless that is skipped |
| Resolve.World.KnownMeans | tools/fetch_debian_python.py:107 | an alternative is known if it is a package, provided or skipped, which is exactly if it does not ask for what does not exist |
| Resolve.World.ChosenIsFirst | tools/fetch_debian_python.py:106-108 | of alternatives the first known one is taken, or the first |
| Resolve.World.ClosedNotBroken | tools/fetch_debian_python.py:78-112 | a closed set that settles a name holds everything it reaches and nothing reachable is missing |
| ConstEval.EvalTyped | jita/cheader/convert.py:624-779 | every value is in the range of its type, and the type follows from operand types alone |
| ConstEval.DeadAgrees | jita/cheader/convert.py:654-739 | nothing is an error in a dead branch, and what succeeds live has the same value and type there |
| ConstEval.UsualConversions | jita/cheader/convert.py:926-931 | `_common` is the usual arithmetic conversions: signed exactly if a signed operand's type includes the other |
| ConstEval.NewIntFits | jita/cheader/convert.py:121-131 | `_Int` holds the one value of its type congruent to the number |
| ConstEval.ArithmeticMeans | jita/cheader/convert.py:731-757 | + - * give the mathematical result modulo the width, and itself if representable |
| ConstEval.Truncates | jita/cheader/convert.py:740-741 | / truncates toward zero and % takes the dividend's sign, with x = q*y + r |
| ConstEval.DivisionMeans | jita/cheader/convert.py:735-741 | / and % are exact but for the lowest value over -1, and an error exactly for a live zero divisor |
| ConstEval.ShiftMeans | jita/cheader/convert.py:725-730 | << multiplies modulo the left operand's width, >> rounds down, a negative live count is an error |
| ConstEval.BitwiseMeans | jita/cheader/convert.py:742-757 | bitwise and, or and exclusive or of Python's integers, negative ones too, act bit by bit on two's complement of the common width |
| ConstEval.UnaryMeans | jita/cheader/convert.py:691-698 | `-` gives the negated number modulo the width, and itself if representable; `~` turns each bit; `+` keeps the value; `!` is 1 exactly for 0 |
| ConstEval.ComparedMeans | jita/cheader/convert.py:731-757 | the six comparisons are those of the operands converted to the common type, and of the numbers themselves if it has both |
| ConstEval.LogicalMeans | jita/cheader/convert.py:704-707 | the logical operators on evaluated operands, and the cast to _Bool, go by whether they are 0 |
| ConstEval.CastMeans | jita/cheader/convert.py:759-779 | a cast gives the one congruent value of the target type, of 8 bits too |
| ConstEval.ConditionalMeans | jita/cheader/convert.py:654-672 | a conditional needs only its condition and the branch taken; the other contributes its type |
| ConstEval.RejectsExactly | jita/cheader/convert.py:624-757 | an expression is rejected exactly if it has a division by zero or a negative shift count outside the branches not taken; what is accepted has C's value and type |
| ConstEval.UnaryIsC | jita/cheader/convert.py:691-698 | the unary operators are those of C, stated by conversion to the type of the operand |
| ConstEval.BinaryIsC | jita/cheader/convert.py:700-757 | the binary operators on evaluated operands are those of C, stated by conversion to the common type |
| ConstEval.CastIsC | jita/cheader/convert.py:759-779 | casts are those of C: conversion to the type, then promotion |
| ConstEval.FaultsInC | jita/cheader/convert.py:624-757 | what C rejects has such an operation; what C accepts has one exactly if it is behind a logical operator that its left operand decides |
| ConstEval.AgreesExactly | jita/cheader/convert.py:624-757 | evaluator and C, which has operators of its own in the model, both reject or give the same value of the same type, exactly unless C accepts and such an operation is hidden that way |
| ConstEval.LogicalCounterexample | jita/cheader/convert.py:704-707 | 0 && 1 / 0, (0 && 1 / 0) or 1, and 1 + (0 && 1 / 0): rejected, and 0, 1 and 1 in C |
| ConstEval.IntLiteral | jita/cheader/convert.py:141-157 | a literal has its number and the first type of the C11 6.4.4.1 list that can hold it |
| ConstEval.LiteralReadBack | jita/cheader/convert.py:141-149 | every number spelled in decimal, octal, hexadecimal or binary, with any suffix, is read back |
| ConstEval.CandidatesTable | jita/cheader/convert.py:150-156 | the types to try are those of the C11 6.4.4.1 table, in its order, for every suffix and base |
| ConstEval.LongsMean | jita/cheader/convert.py:150 | the long suffix counts the letters l of either case |
| ConstEval.DigitMeans | jita/cheader/convert.py:144-149 | digits of either case have their value, other characters none |
| ConstEval.TypedIntKeeps | jita/cheader/convert.py:134-138 | an enumerator has the narrowest of int, long long and unsigned long long that can hold it, and keeps its value exactly if it fits 64 bits |
| ConstEval.Converter.Evaluate | jita/cheader/convert.py:624-675 | the recursion with its dead counter computes the evaluation and leaves the counter as it was |
| Rewrite.MovedCharacter | jita/cheader/rewrite.py:374-391 | output[move(o)] = text[o] for every offset no edit replaces |
| Rewrite.Replaced | jita/cheader/rewrite.py:377-391 | each replacement is in the output in place of its range |
| Rewrite.MovedInside | jita/cheader/rewrite.py:387-389 | an offset in a replaced range moves by what the edits before that range grew |
| Rewrite.MovedLine | jita/cheader/rewrite.py:374-391 | as many newlines come before move(o) as before o |
| Rewrite.MovedOrder | jita/cheader/rewrite.py:387-389 | offsets outside replaced ranges keep their order |
| Rewrite.MonotoneExactly | jita/cheader/rewrite.py:387-389 | over all offsets order is kept exactly if nowhere the edits ending at one place shorten the text by more than one |
| Rewrite.BodyNotMonotone | jita/cheader/rewrite.py:299-313 | a replaced function body over which order is lost |
| Rewrite.Splice | jita/cheader/rewrite.py:377-391 | the loop over the edits builds the output and the tables that `move` searches |
| Rewrite.MoveBy | jita/cheader/rewrite.py:387-389 | the bisection computes the move |
| Rewrite.TopIsInnermost | jita/cheader/rewrite.py:395-403 | the top of the stack is the innermost brace still open |
| Rewrite.Run | jita/cheader/rewrite.py:374-404 | the whole rewrite: output, every span and every offset of an attribute moved, each brace with the innermost one still open, and no body stays no body |
| Rewrite.LineStartAt | jita/cheader/rewrite.py:93 | the table of line starts has, under the number of newlines before an offset, the start of its line |
| Rewrite.Rewritten.Offset | jita/cheader/rewrite.py:116-118 | a parser's line and column of an offset give that offset back |
| Rewrite.Rewritten.SpanIndex | jita/cheader/rewrite.py:120-122 | the bisection finds the span around an offset as a scan of all would, or none |
| Rewrite.Rewritten.BodyOf | jita/cheader/rewrite.py:124-127 | the bisection gives the entry of the last brace at or before the offset |

## Left out

- A Section is a value in its assembler's table here, so code that keeps a Section object and changes it behind the assembler's back is not modelled; labels are objects.
- The global bind counter is replaced by each label's place in its own assembler's order of binding, which decides the same comparisons.
- Linker.LinkImage: the page size is a parameter; weak references to sections are not modelled.
- Assembling.Assembler.Encode: the encoder's outcome is a parameter; its fixups are required to lie in order over zero bytes of the instruction, which `X64Emit.FixesFlush` proves for the x64 encoder.
- Assembling.Assembler.EncodeWords: the words are a parameter; where they have a patch, its field is required to be zero in them.
- Bases, addresses and displacements are integers that the linker does not reduce modulo 2**64, as in the source; only reading an address back counts modulo 2**64.
- Relocations are stated for templates whose field is zero; `Relocation.Untouched` holds for any template.
- `_data`, `space`, `pc` labels, context variables, mnemonic binding and listings of the assembler.
- Template matching, classification of register operands and the instruction tables on x64; of `dopattern` the letters o, O, r and R without ModRM, and s, and mov64 with an absolute memory operand.
- X64Encode.InstructionDecodes: opcodes are those with at most two mandatory prefixes and a one to three byte opcode; those with fwait in front are in `WaitDecodes`.
- X64Encode.OpcodeParses: opcodes with fwait in front are in `WaitDecodes`, VEX in `VexParses`.
- X64Encode.VexDecodes: for operand sizes other than byte and word, which no VEX template of the table has when its opcode is put.
- X64Emit.Emit: instructions without VEX, and with one operand that may name a symbol, as all of them have.
- Linker.SlotPointer: a patch that a caller puts over a slot by `add_patch` is excluded.
- X64Mem.MakeKeeps: TypeErrors for operands that are not registers, integers or labels cannot arise with typed operands.
- The remaining aarch64 operands (`_Alt.imm`, load and store addresses, `fpimm`), and the check that bitfield operands are integers and registers.
- Aarch64Bitfield.AliasPreservesMeaning: the zero register and the clearing of the upper half by 32 bit forms are properties of register access, not modelled; source and destination values are inputs.
- Merge.Merge: points keep the order of their first occurrence instead of being sorted, so the order of the signatures is not modelled.
- Resolve.Resolve: the index arrives parsed; splitting of dependency lines, versions and downloads are not modelled, nor Python's recursion limit.
- ConstEval.AgreesExactly: what C leaves undefined, a signed overflow or a shift count of the width or more, counts as the value that the evaluator gives it.
- ConstEval.IntLiteral: digits that Python's `int` reads but C does not have, such as underscores, count as errors; the lexer lets none through.
- ConstEval.EvalTyped: strings, floats, `sizeof`, names that are no enumerators and casts to other than integer types are not modelled; char constants are integers of the model.
- Rewrite.Run: the token scanner is not modelled; its edits, attributes, spans and braces are inputs, the edits, spans and braces in order, newline preserving, and with no span end or brace inside a replaced range.
- `Rewritten.replace_span`.
- Runtime memory, loading, ctypes views, preprocessing and parsing of headers, stub rendering, error wording.
