# Verified models of the iBoot and kernel-porting tools

The repository boots an Apple-silicon kernel on machines it was not made for. Its
Python tools translate arm64 code to x86-64, emit and patch machine code, walk
file systems, decompress images and lay out memory. This project models the logic
of those tools in Dafny and proves what their documentation and tests promise.
Run `dafny verify dfyconfig.toml` to check it.

## What is modelled

**The arm64 to x86-64 translator** (`ArmFields`, `Bitmask`, `ArmModel`, `X86Lines`,
`Translator`, `Simulation`, `Architecture`, `BranchFields`, `ControlFlow`, `WordFields`, `WordSums`,
`WordMeaning`, `BranchMeaning`).
`Translate` follows the branch cascade of the source on bit-vectors; `ArmModel.Step`
is the repository's own reference interpreter; `X86Lines` gives the emitted lines a
meaning. A 64-bit data word is `Sound` when its operands do not overlap in a way the emitted lines get wrong.
The lines agree with the interpreter on every related state *exactly* when the
word is `Sound`: each condition is necessary, shown by a diverging state. Programs
of any length stay in step. `Architecture` says where the interpreter agrees with the
Arm architecture, and runs through branches follow the architecture's own step.
`WordFields`, `WordMeaning` and `BranchMeaning` say in integers and bytes what the
fields, the data words with an immediate and the branches are, on both sides.

**The assembler** (`Encoding`, `ByteCast`, `Assembler`, `Linking`, `Bench`,
`HighRegisters`). Every emitter has a decoder written from sections 2.1 and 2.2 of
volume 2 of the Intel SDM; class `Asm` is the two-pass assembler with its buffer,
labels and fixups; `Linking` drives it through whole programs and reads the linked
bytes back; `Bench` and `HighRegisters` are the pipeline from one word to bytes, with
a fetch-decode-execute loop for the bytes.

**Generated and patched machine code** (`ArmMachine`, `ArmWords`, `BootStub`,
`BootRun`, `EarlyConsole`, `Padding`, `Diversion`, `MaskGuard`, `CondTrap`). A small
Arm machine with byte-addressed RAM and a trace of device accesses runs the emitted
*words*: each is fetched from RAM and decoded. The boot stub brings up the display, paints
it and enters the kernel; the console routine prints a string on any UART that
eventually drains; a diverted kernel simulates the original under any instruction
set that extends the modelled one.

**APFS** (`Fletcher`, `Omap`, `OmapStore`), **LZSS** (`Lzss`), **zip carving** (`ZipCarve`),
**device trees and the memory image** (`DeviceTree`, `BuildImage`, `Fdt`) and
**DER** (`Der`): decoders and scanners against flat specifications, printers
against parsers, and the placement of the boot image.

`Wrappers`, `Octets`, `IntFacts` and `BitFacts` are shared helpers.

## Where the code does not do what was wanted

These are results here, not assumptions: the model follows the code.

- The condition table of the translator has `b` and `ae` in the places of HS and
  LO, so those two branches come out exactly inverted (`CarryBranchesInverted`).
- SUBS immediate is emitted as a bare compare, copying Rn into Rd can overwrite Rm,
  moving between two spilled registers overwrites the staged shifted operand, and
  ASR is arithmetic where the interpreter shifts logically. `Sound` states exactly
  when each of these is harmless.
- Neither translator nor interpreter looks at bit 21 of a register word
  (`Bit21IsInvisible`): BIC, ORN, EON, BICS and MVN are taken for AND, ORR, EOR, ANDS
  and MOV, and adds, subtracts and compares of an extended register for shifted ones
  (the translator's test for those comes too late to be reached). `InterpreterIsExact`
  says exactly which register words are read rightly.
- A spilled register from 16 up lies beyond a signed displacement byte, which the
  assembler truncates (`SeenExactly`). `HighRegisters.TranslateWordIsExact` says for
  which words the returned bytes are still right.
- `translate_word` returns no bytes for any MOVK, whose mask never fits the 32-bit
  immediate it is given (`HighRegisters.BytesExactly`).
- `find_padding` restarts its count at each hit, so it compares only runs that do not
  overlap, and misses the nearest one at some site as soon as the segment has a
  longer stretch of zeros (`NearestExactly`, with an input in `MissesTheNearest`).
  When the segment is not a whole number of words the run may stick out of it
  (`InsideExactly`).
- A property name that fills its 32-byte field parses but cannot be printed again
  (`ParsedPrintsExactly`).
- The LZSS ring starts with spaces. The module docstring of `ibootim.py` says
  zeros; the code and its comment say spaces, and so does the model.

## Model

| member | source | states |
|---|---|---|
| Bitmask.Fill | ibootcore/arm_model.py:37-44 | the replication loop gives the element repeated across the register |
| Bitmask.MaskBits | ibootcore/arm_model.py:25-44 | an immediate is unallocated exactly when its element length is below 1 or all level bits of imms are set; otherwise bit i is set if and only if (i + r) mod esize is at most s |
| Bitmask.LengthIs | ibootcore/a64_to_x64.py:149-151 | the element length is the place of the highest set bit of N above the complement of imms, and -1 when that number is zero |
| Bitmask.ElementsAre | ibootcore/a64_to_x64.py:153-158 | an element has two to the length bits, and imms and immr count modulo that |
| Bitmask.Decode | ibootcore/a64_to_x64.py:140-167 | the translator's loop returns the value with those bits, which is also the reference interpreter's |
| Bitmask.MaskNotZero | ibootcore/a64_to_x64.py:140-167 | no allocated immediate is zero |
| Simulation.LocInjective | ibootcore/a64_to_x64.py:51-63 | distinct arm64 registers have distinct host locations, none of them the scratch register, r15 or rsp |
| Simulation.LocTable | ibootcore/a64_to_x64.py:51-63 | registers 0 to 12 are the thirteen host registers named, and every other is eight bytes of the register file at eight times its number |
| Simulation.MoveRuns | ibootcore/a64_to_x64.py:124-130 | a move between any two locations copies the value, and passes through the scratch register exactly when both are spilled |
| Simulation.DataRuns | ibootcore/a64_to_x64.py:352-457 | the lines of any data word fall through and change one register location, to a stated value |
| Simulation.SoundWordsAgree | ibootcore/arm_model.py:51-142 | for a sound word, from every related state, the lines end related to the interpreter's result and touch only the destination, the scratch register and flags |
| Simulation.UnsoundWordsDiverge | ibootcore/a64_to_x64.py:411-457 | for every covered word that is not sound there is a related state from which the results differ |
| Simulation.TranslationIsExact | ibootcore/a64_to_x64.py:352-457 | the emitted lines agree with the interpreter on all related states if and only if the word is sound |
| Simulation.ProgramsAgree | ibootcore/a64_to_x64.py:713-732 | for every sequence of sound words and every related start, the concatenated lines end related to the iterated interpreter and leave r15, rsp and unrelated cells alone |
| Architecture.Bit21IsInvisible | ibootcore/a64_to_x64.py:411-457 | translator and interpreter treat a register word and the same word with bit 21 cleared alike |
| Architecture.InterpreterIsExact | ibootcore/arm_model.py:109-142 | on an allocated register word that writes a register, the interpreter gives the architecture's result for all register values if and only if bit 21 is clear and no arithmetic shift can show |
| Architecture.SoundIsRightlyRead | ibootcore/arm_model.py:51-142 | a sound word with bit 21 clear and no stack pointer to write does what the architecture says |
| Architecture.ExtendFields | ibootcore/arm_model.py:109-142 | what the interpreter leaves out: bit 21, the extension in bits 15..13 and its shift in 12..10, as numbers |
| WordFields.RegisterFields | ibootcore/a64_to_x64.py:354-416 | the three register numbers are the word's number divided by 1, 2^5 and 2^16, modulo 32 |
| WordFields.OperandFields | ibootcore/a64_to_x64.py:412-416 | shift amount, shift kind, opc and sf as quotients and remainders of the word's number |
| WordFields.DataForms | ibootcore/arm_model.py:67-133 | each data form is one number in bits 30..23, 28..23 or 28..24 |
| WordFields.BranchForms | ibootcore/a64_to_x64.py:306-341 | each branch form, its sense and its condition as numbers |
| WordSums.PlusIs | ibootcore/arm_model.py:58-60 | a 64-bit sum is the integers' sum modulo 2^64 |
| WordSums.MinusIs | ibootcore/arm_model.py:58-60 | a 64-bit difference is the integers' difference modulo 2^64 |
| WordFields.Imm12Is | ibootcore/a64_to_x64.py:354-356 | the add and subtract immediate is n / 2^10 mod 2^12, times 4096 when bit 22 is set |
| WordMeaning.WideImmIs | ibootcore/a64_to_x64.py:377-378 | the move-wide operand is n / 2^5 mod 2^16 in one of four places, named by n / 2^21 mod 4 |
| WordMeaning.InsertedMeans | ibootcore/a64_to_x64.py:379-383 | masking and or-ing replaces exactly that half-word of the register |
| WordMeaning.WideWordsAgree | ibootcore/arm_model.py:66-75 | on every 64-bit MOVZ and MOVK the interpreter leaves the registers that the separate Arm machine leaves after the instruction its own decoder reads |
| WordMeaning.ImmediateWordsAre | ibootcore/arm_model.py:81-92 | on every 64-bit ADD and SUB immediate it writes the register named by bits 4..0 with the one named by bits 9..5 plus or minus the immediate modulo 2^64, all as integers, and no other register |
| WordMeaning.NotWordsAre | ibootcore/arm_model.py:76-79 | on every 64-bit MOVN it writes 2^64 - 1 less the placed half-word, and no other register |
| WordMeaning.ImmMaskIs | ibootcore/arm_model.py:94-98 | a logical immediate is decoded from bit 22, bits 15..10 and bits 21..16, in those roles |
| BranchFields.SextractIs | ibootcore/a64_to_x64.py:133-137 | sextract is the field in two's complement |
| BranchFields.BranchAlways | ibootcore/a64_to_x64.py:306-308 | the distance of B is the one the separate decoder reads |
| BranchFields.BranchNotEqual | ibootcore/a64_to_x64.py:317-319 | the same for B.NE |
| BranchFields.BranchZero | ibootcore/a64_to_x64.py:326-329 | the same for a 64-bit CBZ |
| BranchFields.BranchBit | ibootcore/a64_to_x64.py:339-343 | the same for TBNZ on one of the low 32 bits |
| BranchFields.TestedBitIs | ibootcore/a64_to_x64.py:342 | the tested bit is b5 above b40 |
| ControlFlow.ConditionTable | ibootcore/a64_to_x64.py:317-323 | after a compare each table entry holds just when the arm64 condition does, except for the two carry conditions, where it holds just when it does not |
| ControlFlow.CarryBranchesInverted | ibootcore/a64_to_x64.py:320-321 | B.HS and B.LO jump just when the arm64 branch falls through |
| ControlFlow.BcondRuns | ibootcore/a64_to_x64.py:317-323 | every other conditional branch goes where the arm64 branch goes |
| ControlFlow.CbzRuns | ibootcore/a64_to_x64.py:326-336 | CBZ and CBNZ go where the arm64 branch goes, spilled or not, and keep the guest registers |
| ControlFlow.TbzRuns | ibootcore/a64_to_x64.py:339-350 | the same for TBZ and TBNZ through BT and the carry flag |
| BranchMeaning.CompareBranchGoes | ibootcore/a64_to_x64.py:326-336 | the lines of a word with top byte 0xB4 go to its target exactly when the register is zero, with 0xB5 exactly when it is not |
| BranchMeaning.BitBranchGoes | ibootcore/a64_to_x64.py:339-350 | with top byte 0x37 or 0xB7 exactly when the tested bit is set, with 0x36 or 0xB6 exactly when it is clear |
| BranchMeaning.ConditionBranchGoes | ibootcore/a64_to_x64.py:317-323 | after a compare of two values B.cond goes exactly when they compare, as signed or unsigned integers, as the condition's number says, except that 2 and 3 go exactly when they do not |
| BranchMeaning.BranchAlwaysGoes | ibootcore/a64_to_x64.py:306-308 | B goes to its target from every state |
| BranchMeaning.CompareBranchSteps | ibootcore/a64_to_x64.py:326-336 | the arm64 side steps by the same bytes: CBZ and CBNZ |
| BranchMeaning.BitBranchSteps | ibootcore/a64_to_x64.py:339-350 | the same of TBZ and TBNZ |
| BranchMeaning.ConditionBranchSteps | ibootcore/a64_to_x64.py:317-323 | the same of B.cond, without the exception |
| BranchMeaning.ConditionMeans | ibootcore/a64_to_x64.py:317-323 | the sixteen arm64 conditions in terms of the two integers compared |
| ControlFlow.CmpSynchronises | ibootcore/a64_to_x64.py:442-447 | a compare that is neither shifted nor extended leaves host flags that stand for the arm64 flags, carry inverted |
| ControlFlow.StepSynchronised | ibootcore/a64_to_x64.py:306-350 | one step of a well-formed program keeps the two sides at the same instruction with related registers |
| ControlFlow.RunsAgree | ibootcore/a64_to_x64.py:306-457 | runs of any length of a well-formed program reach the label of exactly the instruction the architecture's run reaches, or both have left the program |
| Encoding.ModMemRoundTrip | ibootcore/asm64.py:98-116 | a ModRM operand reads back with its register, base and length, including the zero displacement of rbp and r13 and the REX.R and REX.B split |
| Encoding.SeenExactly | ibootcore/asm64.py:109-116 | a displacement reads back unchanged exactly when it is in -128..127 |
| Encoding.FitsExactly | ibootcore/asm64.py:163 | the immediates and distances taken are exactly those four bytes can hold |
| Encoding.ReadsBack | ibootcore/asm64.py:69-236 | whatever follows it, every instruction an emitter accepts decodes to itself with its displacement as truncated, and to its exact length |
| Encoding.ListReadsBack | ibootcore/asm64.py:69-236 | decoding the concatenated bytes of a list gives the list, with displacements as truncated |
| Encoding.CodeIsUnambiguous | ibootcore/asm64.py:69-236 | the list is recovered from its bytes if and only if every displacement is in -128..127 |
| Assembler.Asm.constructor | ibootcore/asm64.py:31-35 | an empty program at an origin, satisfying the invariant on fixups and labels |
| Assembler.Asm.Label | ibootcore/asm64.py:39-43 | a label is the current length; a duplicate is refused and changes nothing |
| Assembler.Asm.Emit | ibootcore/asm64.py:74-79 | bytes are appended and the invariant is kept |
| Assembler.Asm.Instruction | ibootcore/asm64.py:81-236 | an accepted emitter appends exactly its encoding, a refused one nothing |
| Assembler.Asm.Hole | ibootcore/asm64.py:48-54 | a fixup is recorded at the hole it leaves, after all earlier ones |
| Assembler.Asm.Jmp | ibootcore/asm64.py:193-196 | opcode, zeroed rel32 hole and its fixup |
| Assembler.Asm.Jcc | ibootcore/asm64.py:198-201 | the same behind a two-byte opcode with the condition |
| Assembler.Asm.Call | ibootcore/asm64.py:203-206 | the same for CALL |
| Assembler.Asm.MovLabel | ibootcore/asm64.py:86-90 | a 64-bit hole for a label's address |
| Assembler.Asm.Link | ibootcore/asm64.py:56-67 | the buffer with every fixup patched in order, or a refusal; bytes outside the fixups are kept either way |
| Assembler.LinkSucceedsExactly | ibootcore/asm64.py:56-67 | linking succeeds if and only if every label is defined, every distance fits a signed 32-bit field and every address an unsigned 64-bit one |
| Assembler.LinkedBytes | ibootcore/asm64.py:56-67 | after linking each fixup holds its own field and all other bytes are as emitted |
| Assembler.LinkTwice | ibootcore/asm64.py:56-67 | linking again changes nothing |
| Assembler.LinkedFieldsRead | ibootcore/asm64.py:60-66 | each rel32 read back lands on its label and each abs64 is origin plus label |
| Linking.Assemble | ibootcore/asm64.py:30-67 | any sequence of instruction, jump, call and label calls followed by link: the image of the calls, or a refusal |
| Linking.LinkedReadsBack | ibootcore/asm64.py:56-67 | the linked image is the encoding of the instruction list the calls stand for, and decodes to that list |
| Linking.BranchesLand | ibootcore/asm64.py:193-206 | every branch in it lands on the first byte after the instructions that come before its label |
| Bench.BytesRunLines | ibootcore/monitor2.py:94-121 | running the assembled bytes of any lines does what the lines do with every register-file offset wrapped to one signed byte |
| Bench.TranslateWord | ibootcore/monitor2.py:87-121 | the driver returns the encoding of the assembled lines and RET, or refuses as soon as a line or an emitter does |
| Bench.PlainWordsExact | ibootcore/monitor2.py:87-121 | when every offset in the lines fits a byte, the returned bytes give the interpreter's registers from every related state if and only if the word is sound |
| HighRegisters.FarGoesAstray | ibootcore/asm64.py:98-116 | every other covered word with a register from 16 up for which bytes are returned has a related state from which they go wrong |
| HighRegisters.TranslateWordIsExact | ibootcore/monitor2.py:87-121 | for every covered word for which bytes are returned, executing them gives the interpreter's registers from every related state if and only if the word is sound and its register fields are below 16, or it moves a register to itself |
| HighRegisters.BytesExactly | ibootcore/monitor2.py:87-121 | bytes are returned for a covered word if and only if its destination (or compared register) and second register are host registers, nothing is shifted and immediates are below 2^31; MOVN and MOV always, MOVK and TST never |
| ArmWords.LoadWords | ibootcore/bochs_fb.py:105-109 | the loop builds one MOVZ and a MOVK for each other half-word |
| ArmWords.Movz64Decodes | ibootcore/trampoline.py:42-43 | the word decodes to MOVZ of that half-word, position and register |
| ArmWords.Movk64Decodes | ibootcore/trampoline.py:46-47 | the same for MOVK |
| ArmWords.Movz32Decodes | ibootcore/bochs_fb.py:67-68 | the same for the 32-bit MOVZ |
| ArmWords.Movk32Decodes | ibootcore/bochs_fb.py:71-72 | the same for the 32-bit MOVK |
| ArmWords.StrWordDecodes | ibootcore/bochs_fb.py:75-78 | the word decodes to STR of that register, base and offset, for every offset accepted |
| ArmWords.StrHalfDecodes | ibootcore/bochs_fb.py:81-84 | the same for STRH |
| ArmWords.LdrWordDecodes | ibootcore/early_console.py:62-63 | the same for LDR |
| ArmWords.PostsDecode | ibootcore/bochs_fb.py:87-94 | post-indexed loads and stores decode with their signed nine-bit step |
| ArmWords.SubsDecodes | ibootcore/bochs_fb.py:97-98 | the word decodes to SUBS of that immediate |
| ArmWords.BNeDecodes | ibootcore/bochs_fb.py:101-102 | within reach the word branches by exactly target minus pc |
| ArmWords.CbzWordDecodes | ibootcore/early_console.py:70-72 | the same for the 32-bit CBZ |
| ArmWords.TbnzWordDecodes | ibootcore/early_console.py:75-77 | the same for TBNZ, with the bit number |
| ArmWords.BUncheckedDecodes | ibootcore/early_console.py:80-82 | the same for B |
| ArmWords.CbzDecodes | ibootcore/null_guard.py:45-53 | encoding succeeds exactly for aligned targets in range, and the word is CBZ to that target |
| ArmWords.ReachesExactly | ibootcore/null_guard.py:45-64 | the distances in range are exactly those a field of that many bits stands for |
| ArmWords.BDecodes | ibootcore/cond_trap.py:44-51 | the same for B and BL, and the callee of an encoded BL is its target |
| ArmWords.BlEncodes | ibootcore/cond_trap.py:54-60 | every BL word is the encoding of the branch to its callee |
| BootStub.Set64Runs | ibootcore/trampoline.py:54-59 | the four words, run, leave the value modulo 2^64 in the register |
| BootStub.Set32Runs | ibootcore/bochs_fb.py:112-114 | the two words, run, leave the value modulo 2^32 in the register |
| BootStub.OpsRun | ibootcore/bochs_fb.py:129-165 | any emitted straight-line sequence runs as its pieces, one after another |
| BootStub.ConfigLeaves | ibootcore/bochs_fb.py:132-143 | PCI set-up makes exactly the two BAR writes and the command write, in that order |
| BootStub.ModeLeaves | ibootcore/bochs_fb.py:145-165 | mode set-up makes exactly the listed register writes, in that order |
| BootRun.FillRuns | ibootcore/bochs_fb.py:187-194 | the fill loop terminates after three instructions per pixel, having stored the colour in every pixel and changed no other RAM |
| BootRun.SolidIsConstant | ibootcore/bochs_fb.py:187-194 | every pixel of that picture is the colour |
| BootRun.PictureShows | ibootcore/bochs_fb.py:166-194 | the picture has width times height pixels; each is the four bytes of the colour, low byte first, or the four bytes at its place in the source |
| BootRun.BlitRuns | ibootcore/bochs_fb.py:169-178 | the blit loop terminates with the destination equal to the source and no other RAM changed |
| BootRun.DisplayRuns | ibootcore/bochs_fb.py:121-196 | the bring-up runs from its load address to its end: the devices see exactly the listed writes and RAM changes only by the picture |
| BootRun.EntryRuns | ibootcore/trampoline.py:86-92 | the entry words mask interrupts and debug when asked, and jump with x0 set |
| BootRun.StubRuns | ibootcore/trampoline.py:79-92 | the whole stub terminates at the entry point with x0 = boot_args, the picture in the framebuffer, no other RAM changed and exactly the bring-up on the devices |
| BootRun.BringUpIs | ibootcore/bochs_fb.py:129-165 | the twelve device writes in order, every address and value written out: ecam + 0x8000 device + 0x10, 0x18 and 0x04, then the mode registers from mmio + 0x500 |
| BootRun.BareStubRuns | ibootcore/trampoline.py:79-92 | without a display it only enters the kernel |
| BootRun.ModeSetWhileDisabled | ibootcore/bochs_fb.py:147-165 | every mode write comes after a disabling write with no enable between; the last writes leave mmio + 0x508 at 0x41, the depth at 32 and the size as asked for modulo 2^16 |
| BootRun.DisplayIsAsAsked | ibootcore/bochs_fb.py:129-165 | the base registers at ecam + 0x8000 device + 0x10 and + 0x18 and the size end up as asked for if and only if the addresses fit 32 bits and the sizes 16 |
| BootRun.ProbeIsRight | ibootcore/build_image.py:365-377 | probe and real build have equal length for every data address |
| BootRun.LogoStub | ibootcore/build_image.py:365-390 | the file holds the code at its start and the screen at an aligned address behind it |
| BootRun.LogoStubBoots | ibootcore/build_image.py:365-390 | that file, loaded and run, copies the screen to the framebuffer and enters the kernel |
| EarlyConsole.BodyDecodes | ibootcore/early_console.py:107-120 | the seven words after the address load decode to the routine, branches closed inside it |
| EarlyConsole.WaitRuns | ibootcore/early_console.py:115-116 | the wait loop ends when the transmit-full bit clears, having only read the flag register |
| EarlyConsole.RoutineRuns | ibootcore/early_console.py:107-120 | on every NUL-terminated string and every UART that eventually drains the routine returns to x30 having changed only x0 to x3 |
| EarlyConsole.PrintedMeans | ibootcore/early_console.py:113-120 | the values written to the data register are the string's bytes in order, each straight after room was seen |
| Padding.FindPadding | ibootcore/null_guard.py:67-83 | of the runs the scan compares (those where its count completes), the nearest to the site, the lowest of several; none when there are none |
| Padding.ChosenFinds | ibootcore/null_guard.py:67-83 | a run is returned exactly when an aligned zero run in the segment exists, and it is one |
| Padding.ChosenIsUnique | ibootcore/null_guard.py:72-83 | there is only one such result |
| Padding.NearestExactly | ibootcore/null_guard.py:69 | the run returned is a nearest usable one for every site if and only if no stretch of zero words is longer than the room wanted, or one word is room enough |
| Padding.MissesTheNearest | ibootcore/null_guard.py:69-83 | forty zero bytes before the site and 24 wanted: the run at 0 is returned, the one at 16 is nearer |
| Padding.InsideExactly | ibootcore/cond_trap.py:63-77 | for every data, usable runs and the run returned lie inside the segment if and only if its size is whole words or, rounded up, too short for any run |
| Diversion.GuardPasses | ibootcore/null_guard.py:131-134 | with a non-zero register four instructions do what the displaced one did |
| Diversion.GuardReturns | ibootcore/null_guard.py:135-136 | with a zero register the prologue frame is popped and control goes to the authenticated return address, nothing else changed |
| Diversion.ModelledExtends | ibootcore/null_guard.py:131-136 | the modelled words alone are one of the machines the simulation is about |
| Diversion.MovesAreNotPcRelative | ibootcore/null_guard.py:133 | on every such machine a register move is a word that may be displaced |
| MaskGuard.WithAndExtends | ibootcore/null_guard.py:115-117 | the modelled instructions with AND immediate, the form the tool displaces, are one of the machines the simulation is about |
| MaskGuard.AndIsNotPcRelative | ibootcore/null_guard.py:115-117 | and on it every AND with a mask is a word that may be displaced |
| Diversion.GuardSimulates | ibootcore/null_guard.py:115-142 | stuttering simulation: for every run of the original the guarded kernel reaches the same state through the same states outside the stub |
| Diversion.FileIsGuarded | ibootcore/null_guard.py:131-142 | the file written is the original with the guard the simulation asks for if and only if the site lies outside the stub, which it does unless its word is zero |
| Diversion.PackAll | ibootcore/null_guard.py:138-139 | the loop writes the words one after another |
| Diversion.Field4Is | ibootcore/null_guard.py:116-117 | four bytes are found at an offset from the start, or counting back from the end, exactly when all four lie inside |
| Diversion.PatchGuard | ibootcore/null_guard.py:112-146 | the kernel is patched in place with the guard in the chosen run for the word at file offset func + 12 - vb, counted from the end of the file when negative, or one of the refusals holds for its reason |
| CondTrap.TrapCalls | ibootcore/cond_trap.py:114-116 | with a non-zero register the same callee is entered in the same state but for the link register |
| CondTrap.TrapResumes | ibootcore/cond_trap.py:114-117 | when the callee gets back to its link address the caller resumes after the call with the rest as the callee left it |
| CondTrap.TrapFreezes | ibootcore/cond_trap.py:112-123 | with a zero register the machine stands still for ever after five instructions, with three registers saved and nothing else changed |
| CondTrap.FileIsTrapped | ibootcore/cond_trap.py:95-126 | the bytes written are the original with that trap on the call's own callee |
| CondTrap.PatchTrap | ibootcore/cond_trap.py:95-126 | the same for the trap on the call at file offset site - vb |
| Fletcher.Fletcher64 | ibootcore/apfs_omap.py:36-45 | the running-sum loop gives the checksum, refusing lengths that are not whole words |
| Fletcher.ChecksumCancels | ibootcore/apfs_omap.py:43-45 | two further words in 1..2^32-1 bring both sums to zero if and only if they are the two checksum words |
| Fletcher.VerifiesMeansZero | ibootcore/apfs_omap.py:63-66 | a block verifies exactly when its stored words are non-zero and summing on over them gives zero twice |
| Fletcher.DetectsAdjacentChange | ibootcore/apfs_omap.py:36-45 | replacing two adjacent words goes unnoticed exactly when both are congruent to the old ones modulo 2^32-1 |
| Fletcher.Unseal | ibootcore/apfs_seal.py:94-118 | a verified APSB block with bit 5 of the field at 0x38 set gets that field lowered by 0x20 and is stamped again; every other block is left alone for a stated reason |
| Fletcher.RestampedVerifies | ibootcore/apfs_seal.py:117-118 | a re-stamped block verifies, whatever was stored before |
| Fletcher.UnsealEffect | ibootcore/apfs_seal.py:115-118 | only the flag and the checksum change, and the edited block verifies |
| Fletcher.ClearedFlag | ibootcore/apfs_seal.py:117 | clearing turns off that bit and no other |
| Omap.OmapLookup | ibootcore/apfs_omap.py:113-138 | the descent loop is the walk, for every disk on which it ends |
| Omap.SliceKeeps | ibootcore/apfs_omap.py:102-110 | for all bounds, negative ones and ones past the end too, a slice keeps the bytes between them in order |
| Omap.ScanLoop | ibootcore/apfs_omap.py:121-127 | the entry loop keeps the last readable entry not above the target, none when there is none, and raises exactly on an unreadable one |
| Omap.WalkIsFlat | ibootcore/apfs_omap.py:113-138 | on every stored well-formed tree the walk answers as a search of the flattened list does |
| Omap.VerdictIsNewest | ibootcore/apfs_omap.py:121-134 | that search returns the newest mapping of the object not above the limit, and an error exactly when none exists |
| Omap.LookupIsFlat | ibootcore/apfs_omap.py:113-138 | both together, for trees of any height |
| Omap.ValuesNeedGoodChecksums | ibootcore/apfs_omap.py:115-138 | on any disk a value comes only from a path of blocks that verify, and a bad block on the path is what is reported |
| OmapStore.EntryReads | ibootcore/apfs_omap.py:89-110 | entry i of a node is the bytes its row in the table of contents points at, wherever the table, the key and the value lie, with rows of four or of eight bytes, in a root or not |
| OmapStore.ArrangedHolds | ibootcore/apfs_omap.py:89-110 | a node in any such layout, keys and values in any order, holds what the tree's node says when the bytes pointed at do |
| OmapStore.StoredIsOnDisk | ibootcore/apfs_omap.py:89-138 | a tree of any height stored so, each node in a layout of its own, is one the lookup theorems are about |
| OmapStore.NodeReads | ibootcore/apfs_omap.py:89-110 | one layout written out: a node in a block of any given size, as the root with its trailer or not, fills the block, verifies, and is arranged for the tree |
| OmapStore.WrittenIsStored | ibootcore/apfs_omap.py:89-138 | a tree of any height so written, in blocks of one size, is stored |
| Omap.NewestNxsb | ibootcore/apfs_omap.py:69-86 | the first of the highest-numbered verified superblocks, or block 0 exactly when there is none; it raises exactly on a short block 0 or an unreadable block in the ring |
| Lzss.RingWrite | ibootcore/ibootim.py:72-75 | a literal keeps the ring equal to the recent history |
| Lzss.DistanceStays | ibootcore/ibootim.py:84-88 | while a copy runs the distance it copies from does not change |
| Lzss.CopyLoop | ibootcore/ibootim.py:84-88 | the copy loop on the ring is an LZ77 copy at that distance, overlapping or not |
| Lzss.Decompress | ibootcore/ibootim.py:50-90 | the ring decoder is the expansion of the packed tokens over spaces followed by the output |
| Lzss.PackRoundTrip | ibootcore/ibootim.py:63-83 | the tokens of a packed list are that list |
| Lzss.StoppingEarly | ibootcore/ibootim.py:88-89 | with an expected size the output is a prefix that reaches it when the whole does, by at most 17 bytes |
| Lzss.StopIsInvisible | ibootcore/ibootim.py:104-110 | the decoded picture does not depend on stopping early |
| Lzss.DecodeImage | ibootcore/ibootim.py:93-111 | accepted exactly for the bytes of the magic, the format and the three compressions supported; then every pixel is the payload's or the expansion's byte, or zero past its end |
| ZipCarve.Find | tools/zip_carve.py:90-101 | the next signature at or after a position, or none |
| ZipCarve.ScanBuffer | tools/zip_carve.py:87-101 | one buffer extends the list from what was carved before it to what is carved with it |
| ZipCarve.Scan | tools/zip_carve.py:74-108 | the list holds one entry per name, checksum and size found in the range, at its smallest offset, whatever the chunk size |
| ZipCarve.HeaderReads | tools/zip_carve.py:45-71 | a local file header laid out by the ZIP format anywhere in a buffer is found and its fields read back if its lengths, method and name are acceptable, and is passed over otherwise |
| ZipCarve.NameIsText | tools/zip_carve.py:57-64 | the names taken are exactly the UTF-8 texts without characters below 32 |
| ZipCarve.CarvedIsOneEach | tools/zip_carve.py:96-100 | every header found has exactly one entry with its name, checksum and compressed size |
| ZipCarve.CarvedIsFirst | tools/zip_carve.py:96-100 | that entry is the first header with this name, checksum and compressed size |
| ZipCarve.OnePassScans | tools/zip_carve.py:74-108 | one pass over the whole range gives such a list |
| ZipCarve.ChunkingIsInvisible | tools/zip_carve.py:101-103 | any such list holds, as a set, the entries of the one pass |
| DeviceTree.NodeRoundTrip | ibootcore/devicetree.py:205-256 | at any offset in any buffer, parsing a printed tree returns it and the exact end |
| DeviceTree.TemplateRoundTrip | ibootcore/devicetree.py:230-256 | the same for templates: a length with its top bit set is the length without it, and marks the property as a placeholder |
| DeviceTree.ParsedIsWellFormed | ibootcore/devicetree.py:230-256 | whatever parses with names of under 32 bytes is a tree the printer takes |
| DeviceTree.ParsedPrintsExactly | ibootcore/devicetree.py:205-218 | a parsed tree prints if and only if no property name fills its 32-byte field |
| DeviceTree.PrintsExactly | ibootcore/devicetree.py:205-218 | a tree prints if and only if counts and lengths fit 32 bits and every name is shorter than its field |
| DeviceTree.PrintedIsNormal | ibootcore/devicetree.py:205-256 | printing a parsed tree is a normal form: parsing it again gives the same tree without placeholder flags |
| DeviceTree.PlainPrints | ibootcore/devicetree.py:205-218 | the placeholder flags do not show in print |
| BuildImage.PrintSize | ibootcore/devicetree.py:205-218 | the printed size depends on property counts, value lengths and children only |
| BuildImage.Names | ibootcore/devicetree.py:531-546 | the names of the memory-map node and its entries, letter by letter |
| BuildImage.FillKeepsSize | ibootcore/build_image.py:194-203 | overwriting a reserved entry keeps the printed size |
| BuildImage.FillFinds | ibootcore/build_image.py:194-198 | after filling, the same node is found with that entry changed |
| BuildImage.MemoryMapName | ibootcore/devicetree.py:531-555 | the node goes by its name unless the trust cache is announced under `name` |
| BuildImage.MemoryMapReserves | ibootcore/devicetree.py:531-555 | for every trust cache key, the tree built reserves the entries that will be filled and announces nothing that will not be there |
| BuildImage.FindMapIsFirst | ibootcore/devicetree.py:224-227 | the search finds the first memory-map node in preorder |
| BuildImage.MemoryMapIsFound | ibootcore/devicetree.py:531-555 | in any tree that holds the reserved node with no memory map before it in preorder, it is the node found |
| BuildImage.Refill | ibootcore/build_image.py:195-203 | one filling step never changes the size, leaves the other entries alone, and the entry's first eight bytes read as the address and the others as the length |
| BuildImage.Place | ibootcore/build_image.py:182-287 | kernel, tree, boot_args, ramdisk and scratch are disjoint and in order, each and topOfKernelData at the least aligned address it can have, and one translation gives every virtual address |
| BuildImage.FillMap | ibootcore/build_image.py:194-254 | for every trust cache key no size check fires, and each entry says what it was last filled with, or the build is refused for a stated reason |
| BuildImage.DescribesExactly | ibootcore/build_image.py:133-254 | the finished memory map describes the layout if and only if the trust cache is announced under a name of its own |
| BuildImage.BuildImage | ibootcore/build_image.py:182-313 | the whole build: none of the three changed-size exits is taken, the layout is well placed and translated, and the image holds kernel, tree and boot_args where the layout says |
| Fdt.TokenKeepsDepth | ibootcore/fdt_read.py:51-78 | every token keeps the depth equal to the number of open nodes |
| Fdt.Parse | ibootcore/fdt_read.py:37-78 | the loop is the token scan, and every node is listed with the depth of its path |
| Fdt.ScanDoes | ibootcore/fdt_read.py:50-77 | from any aligned position the scan does what the encoded tokens say |
| Fdt.NopsAreInvisible | ibootcore/fdt_read.py:73-74 | NOP tokens change nothing, wherever they stand |
| Fdt.TreeIsListed | ibootcore/fdt_read.py:53-72 | the tokens of a tree add its preorder to the list |
| Fdt.ParseListsPreorder | ibootcore/fdt_read.py:37-78 | parsing a flattened tree with NOPs anywhere lists its preorder with paths, depths and properties |
| Der.WalkLoop | ibootcore/im4m_props.py:66-81 | the recursive generator with its cursor loop terminates on every buffer and yields the walk |
| Der.WalkIsLaminar | ibootcore/im4m_props.py:66-81 | on any bytes the ranges are nested or disjoint, each inside the range walked |
| Der.WalkHeadersStand | ibootcore/im4m_props.py:66-81 | every header stands at the start of its parent's content or where its previous sibling stopped |
| Der.TagReads | ibootcore/im4m_props.py:49-63 | identifier octets of any valid form are read whole |
| Der.LenReads | ibootcore/im4m_props.py:36-46 | length octets of the short form and of one to four octets read back |
| Der.WalkIsPreorder | ibootcore/im4m_props.py:66-81 | on every well-formed definite-length forest, anywhere in a buffer, the walk yields exactly the preorder |

## Left out

- Translator forms without reference semantics: system registers, exceptions, calls and returns, cache and TLB, pointer authentication, loads and stores, multiply and divide, selects and bitfields, and all 32-bit forms. `Translate` answers NotModelled for them.
- Words with register 31 as an operand, apart from the MOV alias: the translator leaves the two meanings of 31 to its caller, so they are outside `Covered`.
- Register words with bit 21 set (BIC, ORN, EON, BICS, MVN and extended-register adds, subtracts and compares) in `ControlFlow.RunsAgree`: they are misread, as `Architecture.InterpreterIsExact` shows, and the class of programs leaves them out, with reserved encodings and words that write the stack pointer.
- Flags after ADDS and ANDS: only a compare directly before a conditional branch is followed, which is what `ControlFlow.WellFormed` asks for.
- The text of the emitted lines: operands are a datatype, a memory operand is a cell named by its offset from r15, and 64-bit immediates of lines are taken as written.
- Asm.raw and string data; the emitters without labels go through one method over an instruction datatype.
- Omap.OmapLookup: is about walks that end; on a disk whose index cycles the source loops for ever.
- The chunked reading of the container in apfs_seal.py, its command line and its counts; the edit of one block is modelled.
- Names as text: device-tree and FDT names are their bytes, without UTF-8 replacement characters, and a path is the list of its components rather than the joined string.
- The bytes of boot_args, which `BuildImage` takes from its caller, and the concrete property values of the device tree.
- The framebuffer is plain RAM from the start: that it appears only once its BAR is set shows in the order of the trace, not in the memory.
- Which mapping of the load map a site belongs to, the self-checks after patching and the JSON report.
- The `properties` and `decode_value` summaries over the DER walk, and the pretty printers of every tool.
- The boot sectors, monitor and graphics programs, cryptography, foreign decompressors, surveys and censuses.
