# Verification model of the x86-64 assembler and disassembler

This project models an x86-64 assembler written in C together with the disassembler that ships with it,
and proves what the two promise about each other and about themselves. It follows the code: the same
branches, constants and error returns. Where the code does not keep a promise on all inputs, the exact
condition under which it does is proved, with a concrete input that shows the failure.

| part | files |
|---|---|
| bytes, little-endian fields, C integer conversions | `bytes.dfy` |
| registers, operands, instructions | `operands.dfy` |
| the encoders, as emissions (bytes and at most one label field) | `encoding.dfy` |
| the decoder, as a structured result | `decoding.dfy` |
| decoding undoes encoding | `rmroundtrip.dfy`, `roundtrip.dfy`, `immediates.dfy` |
| the opcode map of the instruction set; what the processor does with the emitted bytes; which address it forms | `manual.dfy`, `processor.dfy`, `addresses.dfy` |
| what the listing calls the bytes, row by row of the opcode map | `mnemonics.dfy` |
| numbers, registers and operands as text; tokens; the memory-operand parser | `text.dfy`, `lexing.dfy`, `memparsing.dfy`, `printparse.dfy`, `parser.dfy` |
| how source text is written: tokens, register names, the parts of a memory operand | `sources.dfy`, `registers.dfy`, `components.dfy` |
| the disassembler as it runs, and its fixed buffers | `disassembler.dfy`, `buffers.dfy` |
| the symbol table (array and chained hash) | `symbols.dfy` |
| one text pass, branch relaxation over repeated passes | `layout.dfy`, `relaxation.dfy`, `capacity.dfy` |
| fixups and the resolved text | `fixups.dfy`, `linking.dfy` |
| the whole program, listed back; what its labels reach | `listing.dfy`, `reaching.dfy`, `assembly.dfy` |
| programs whose passes do not settle | `sizing.dfy`, `unsettled.dfy`, `tight.dfy` |
| the context, the encoders and the passes as they run | `context.dfy`, `assembler.dfy` |
| what data directives put into the image | `contents.dfy` |
| canonical names of local and anonymous labels | `labels.dfy` |
| conditional assembly, and its tests | `preprocessor.dfy`, `conditions.dfy` |
| did-you-mean distance | `editdistance.dfy` |
| DWARF line program and LEB128 | `dwarf.dfy` |

Imperative code is modelled twice: by a function that says what it computes, about which the properties are
proved, and by a method in the form of the source (fields updated in place, buffers filled byte by byte,
loops) that is proved to compute that function. `dafny verify dfyconfig.toml` checks everything.

## What was found

* An index register r12 is legal, but the decoder drops it (`IndexR12Lost`); an index without a base comes back
  with base rbp; `[rbp + index]` and `[r13 + index]` without displacement are not decodable. `MemRoundTrip` is an
  equivalence with exactly these forms excluded. The processor reads r12 rightly, the others it does not:
  `EncodedAddress` has the address it forms from any accepted operand, `AddressKept` when that is the one written.
* Registers of 8 and 16 bits are encoded as 32-bit ones by mov, arithmetic, test, inc and the rest (`RunsAsWritten`);
  movzx and movsx are encoded as mov; arithmetic of r8d..r15d with an immediate reaches one of the low eight registers; an
  immediate beyond 32 bits is cut off by push, test, imul, a mov to memory and arithmetic, except that arithmetic refuses
  it for 64-bit registers. `EncodedRuns` has what the processor does with every accepted instruction.
* The disassembler lists as db bytes that the assembler emits: adc and sbb between registers, the short accumulator forms,
  imul with three operands or one, test of the accumulator, mov of a byte register and ret with an operand. It shows the
  operand of push, pop, call and jmp behind ff and 8f at the operand size, so that `ff d0` is listed as `call eax`, and takes
  a 66 in front of REX.W to shorten the immediates of 81 and c7. `ListedLine` has every line there is.
* The minus sign in front of a register or label in a memory operand is not looked at: `[rax - rcx]` is `[rax + rcx]`
  (`RegisterSign`, `NameSign`); `[x + rip]` takes rip as an index register (`RipAsIndex`); register sizes inside the
  brackets do not matter (`WrittenRead`).
* A label beside a base or an index, as in `[rbx + x]`, is accepted and dropped: the bytes are those of `[rbx]`
  (`BaseLabelLost`). `MemRoundTrip` compares the label too and excludes exactly this.
* A rip-relative label in front of an immediate is missed by the size of the immediate: `add qword [rip + x], 1` adds to
  x + 1 (`RipImmediateMisses`; `MemorySoundness` says when a labelled operand is right, in both directions).
* Text passes need not settle, and the text kept then may be wrong without an error. With at most four forward branches
  they settle (`FewForwardBranches`), with at most five the kept text is right all the same (`FiveForwardBranches`), and
  both bounds are tight: `BoundsTight` has a program of twelve lines with five forward branches that does not settle, and
  one of thirteen with six in which a conditional jump misses its label. `BranchReaches` says for every branch of every
  program when it is right.
* `UnsettledText` has a family of programs that settle from no starting addresses at all: with six links every branch of
  the kept text is right, with more of them those above the sixth go astray (`LinkReaches`).
* The disassembler has room for fifteen bytes a line. Prefixes are skipped without a limit, so a decode can take more:
  sixteen 66 bytes in front of a nop take seventeen, and the listing stops there with an error, printing nothing of what
  follows (`LongLineLost`). It reaches the end of the code if and only if no decode takes more than fifteen bytes
  (`DisassembleCodeBuffer`, `ReachedExactly`); code without five prefix bytes in a row is safe (`FewPrefixes`), five can
  be too many (`FivePrefixesLost`), and what the assembler emits always is (`EncodedShort`, `AssembledPrinted`).
* `setcc` on spl, bpl, sil and dil gets no REX prefix and is read back as ah, ch, dh, bh (`SetCcForm`, `SetCcSplLost`).
* `mov` of a 64-bit immediate to r8..r15, and of any immediate to r8d..r15d, sets REX.R instead of REX.B and loads the
  wrong register (`MovKeepsValue`, `Mov32KeepsValue`, `MovHighRegisterLost`).
* Negative 32-bit immediates are listed unsigned behind push, mov, test and opcode 81 (`PushImm`, `ImmForm`); `mov rax, 5`
  is listed as `mov eax, 0x5` (`MovLoad`) and `jnz` as `jne`.
* The displacement -2^31 is printed with a minus sign that the operand parser cannot read back in 32 bits
  (`PrintThenParse`).
* A user label that starts with `__loc_` or `__anon_` makes the second canonicalisation pass count scopes differently
  from the first (`ScopesAgree`, `LocalReference`); a reference is then bound to another scope's label (`StrayReference`).
* A labelled `nop` on a line of its own emits nothing, being the parser's form of a line that holds only a label.
* Data, reserve and align directives that overflow a section are cut off silently (`EmitQuietly`).

## Model
| member | source | states |
|---|---|---|
| Assembly.AssembledListing | src/x86_64_asm.c:2018-2335 | end to end: when the passes settled, disassembling the assembled text gives the text statements of the program, one for one, in order and end to end, with branches and loads at the address the table ends with for their label, and labelled memory operands at label plus addend but for the rip-relative ones before an immediate |
| Assembly.AssembledPrinted | src/x86_64_disassembler.c:1307-1355 | that listing is printed to its end: no line of it is too long for its buffer |
| Listing.ProgramRoundTrip | src/x86_64_disassembler.c:358-1355 | the same for any pass that moved no label, whatever table the fixups are resolved against: the listing is a function of the program's own text statements, their sizes and the final addresses |
| Listing.ProgramFits | src/x86_64_disassembler.c:1307-1355 | the same for the listing of any pass that moved no label |
| Listing.ListsProgram | src/x86_64_disassembler.c:1307-1355 | from every statement on, the listing of the resolved text is the rest of the program |
| Listing.BranchSoundness | src/x86_64_controlflow.c:87-299 | in any pass whose fixups resolve, each rel32 jmp, jcc and call decodes to its label's final address; in a pass that moved no label, each rel8 branch too |
| Listing.BackwardBranchSound | src/x86_64_asm.c:2096-2116 | a branch to a label at or before it lands on the label's final address in every pass, rel8 or rel32, settled or not |
| Listing.BranchDecodes | src/x86_64_controlflow.c:101-120 | one branch: the emitted and linked bytes decode, with exact length, to the label's address |
| Listing.LoadDecodes | src/x86_64_encoder.c:89-112 | mov of a register from a label decodes to the rip-relative load at the label's distance |
| Reaching.MemorySoundness | src/x86_64_asm.c:938-1037 | in any pass whose fixups resolve, a memory operand that names a label decodes to one denoting label plus addend, as the processor reads it, if and only if it is not rip-relative with an immediate behind it; then it lies behind by the immediate's bytes |
| Reaching.FinalDenotes | src/x86_64_encoding_core.c:409-438 | the operands the listing theorems show denote label plus addend, with the same exception |
| Reaching.RipImmediateMisses | src/x86_64_encoder.c:409-422 | a program that is assembled without an error and refers one byte behind its label |
| Listing.NopRun | src/x86_64_asm.c:1299-1331 | text padding is listed as one nop a byte and nothing else |
| Assembly.FewForwardBranches | src/x86_64_asm.c:2018-2190 | with at most four forward branches the bounded passes always end settled |
| Assembly.FiveForwardBranches | src/x86_64_asm.c:2018-2197 | with at most five forward branches every branch of the kept text to a text label is listed at the label's final address, settled or not |
| Tight.BoundsTight | src/x86_64_asm.c:2018-2197 | a program with exactly five forward branches that does not settle, all its branches right, and one with exactly six in whose kept text one is wrong |
| Sizing.PassPlaces | src/x86_64_asm.c:2045-2185 | for programs of reserved space, alignment, branches and lone labels the table after a pass is a recursive function of the table before, and a change is reported |
| Assembly.BranchReaches | src/x86_64_asm.c:2018-2197 | in the text that is kept, settled or not, a branch to a text label is listed at the label's final address if and only if it is not a short forward branch or the last pass left the label where it was |
| Listing.BranchLands | src/x86_64_controlflow.c:87-229 | in any resolved pass a near branch lands on its label's address in the final table and a short one on the address the pass believed when it met the branch |
| Unsettled.ForwardNeverSettles | src/x86_64_asm.c:2024-2189 | the passes with forward short branches have no fixed point on these programs: from any addresses some label moves |
| Unsettled.Climb | src/x86_64_controlflow.c:101-120 | each conservative pass over these programs leaves the labels where one more link is near and the others still short, and moves some label as long as links are left |
| Unsettled.LinkReaches | src/x86_64_controlflow.c:101-120 | in their kept text a branch reaches its label if and only if it is not that of a link above the sixth |
| Unsettled.UnsettledText | src/x86_64_asm.c:2018-2197 | from any first estimates these programs assemble without having settled, and all their branches reach their labels if and only if there are six links |
| Assembly.TextsFromPass | src/x86_64_asm.c:2018-2190 | the text that is kept comes from one pass of the mode reported, made from the symbols KeptFrom names; a run that ends in the forward mode has settled |
| Assembly.FinalAddress | src/x86_64_asm.c:2096-2116 | a text label's final address is where the chunk of its own statement, counted by the text statements before it, begins in the emitted text, settled or not |
| Assembly.DataLabelAddress | src/x86_64_asm.c:2204-2235 | a data label's final address is base + text size + offset of its first byte |
| Assembly.DataKeeps | src/x86_64_asm.c:2204-2325 | every round of the data pass keeps the section, the names, all labels not defined in data, and the capacity |
| Assembly.LabelsInPlace | src/x86_64_asm.c:2029-2235 | text and data ranges do not overlap and each label lies in the range of its own section |
| Relaxation.Converges | src/x86_64_asm.c:2024-2189 | from any starting addresses, after more conservative passes than there are forward branches the next pass moves no label and repeats the canonical layout |
| Capacity.ConvergesWithRoom | src/x86_64_asm.c:2024-2189 | the same without assuming that the passes succeed, for every program whose statements are accepted and whose longest forms fit the section and the fixup list |
| Capacity.RunSucceeds | src/x86_64_encoding_core.c:123-150 | such a program passes every round from any addresses and in either mode, within its bounds on bytes and fixups |
| Relaxation.Stage | src/x86_64_asm.c:2024-2189 | pass p agrees with the canonical layout up to its p-th forward branch: each pass fixes one more branch |
| Relaxation.OneFixedPoint | src/x86_64_controlflow.c:104-119 | conservative layout has one fixed point: two of them have the same labels and the same bytes |
| Relaxation.EmittedDependsOn | src/x86_64_controlflow.c:101-229 | at one place an emission depends on the symbol table only through its own branch displacement |
| Layout.RunPlaced | src/x86_64_encoding_core.c:123-150 | address conservation: after every round the emitted chunks stand end to end from the base address on, each label field inside its own chunk |
| Layout.LabelAddress | src/x86_64_asm.c:2096-2116 | after a pass each text label holds the address where its statement was met |
| Layout.RunStatements | src/x86_64_asm.c:2045-2185 | a pass lays out exactly the program's text statements, one chunk each, in order |
| Layout.RunMonotone | src/x86_64_asm.c:2045-2185 | emitted text only grows along a pass, so addresses never decrease |
| Layout.UnchangedEncodings | src/x86_64_asm.c:2096-2189 | in a pass that moved no label every statement was encoded against the final addresses |
| Layout.FixupsOrdered | src/x86_64_asm.c:896-936 | recorded fields are in bounds, strictly increasing and disjoint |
| Layout.AlignLeast | src/x86_64_asm.c:1299-1331 | align pads by less than the alignment, to the least aligned address |
| Layout.AlignMask | src/x86_64_asm.c:1299-1331 | the mask form (a + n - 1) & ~(n - 1), bit by bit on w bits, is that address |
| Layout.PowerTest | src/x86_64_asm.c:1299-1331 | a > 0 and (a & (a - 1)) == 0 accepts the powers of two and nothing else |
| Contents.DataContents | src/x86_64_asm.c:2204-2325 | in the assembled data every db, dw, dd and dq puts item k at its own start plus k times the width, little-endian modulo 256^width, every reserve directive count times width zero bytes, every align its padding, and each starts where the one before it ends, at the address of its label, as far as the section has room |
| Contents.TextContents | src/x86_64_asm.c:1227-1331 | the same for directives in the assembled text, with nops as padding |
| Contents.BytesTogether | src/x86_64_asm.c:1227-1258 | the bytes of an item are its value |
| Layout.LineMapRows | src/x86_64_asm.c:2155-2170 | each statement but a lone label has a row with its address and its line, or line 1, while there is room |
| Layout.ItemBytes | src/x86_64_asm.c:1227-1258 | each item of db, dw, dd and dq stands little-endian at its own offset |
| Fixups.ResolveFields | src/x86_64_asm.c:938-1037 | resolution succeeds exactly when every field's own value is defined and fits; then it writes those values and no other byte |
| Fixups.OrderIndependent | src/x86_64_asm.c:938-1037 | the result does not depend on the order of the fixups |
| Fixups.ReadBack | src/x86_64_asm.c:963-1033 | each field reads back little-endian as target plus addend, or distance from the field's end plus addend |
| Fixups.PassSeparate | src/x86_64_asm.c:896-936 | the fixups of a pass never touch each other |
| Linking.ChunkLinked | src/x86_64_asm.c:938-1037 | resolution leaves each statement at its place with exactly its own field replaced |
| Linking.ResolvesLinkable | src/x86_64_asm.c:938-1037 | resolution succeeds if and only if each statement's own field has its label and fits |
| Linking.LinkDispatch | src/x86_64_encoding_core.c:409-438 | patching the field equals encoding the instruction with the displacement written in the label's place |
| Linking.FieldMeaning | src/x86_64_asm.c:963-1033 | which displacement that is: the one that reaches label plus addend from the end of the instruction, but for the immediate bytes behind a rip-relative field |
| RmRoundTrip.MemRoundTrip | src/x86_64_encoding_core.c:375-503 | for every accepted memory operand and any following bytes, the decoder gives the operand back with the emitted length, and its label is left beside the bytes, if and only if the form is not one of the lossy ones |
| RmRoundTrip.LabelRoundTrip | src/x86_64_encoding_core.c:440-503 | a label survives encoding if and only if no base and no index stands beside it |
| RmRoundTrip.BaseLabelLost | src/x86_64_encoding_core.c:440-503 | [rbx + x] is accepted and encoded as [rbx], without a field for x |
| RmRoundTrip.OperandRoundTrip | src/x86_64_disassembler.c:192-356 | registers 0..15 and round-trip memory operands, with the register field beside them and the label behind them |
| RmRoundTrip.RexFields | src/x86_64_encoding_core.c:318-351 | emit_rex puts each high register bit where the decoder looks for it |
| RmRoundTrip.IndexR12Lost | src/x86_64_disassembler.c:247-262 | a legal operand with index r12 whose bytes decode without the index |
| RoundTrip.InstRoundTrip | src/x86_64_disassembler.c:358-1305 | every instruction of the common subset, stores and loads of immediates included, is accepted, leaves the label it names beside its bytes, and anywhere in the code decodes to itself, with 32-bit immediates as their low half unsigned, and takes exactly its own bytes |
| Processor.EncodedRuns | src/x86_64_asm.c:1043-1197 | every instruction without a label is encoded if and only if its operands are of the accepted kinds and no segment overrides disagree; then, wherever its bytes stand, the processor finds the row of the opcode map with its word, the operands OperandsRun names, the segment asked for, and exactly its bytes |
| Processor.RunsAsWritten | src/x86_64_encoder.c:58-520 | that is the instruction as it was written, word, registers, sizes and values, if and only if sizes are 32 or 64 bits and agree, immediates fit, and no form without a needed REX byte is used; loads of an immediate into a register are the subject of Immediates |
| Processor.OverrideByte | src/x86_64_asm.c:1043-1069 | the segment override is 64 for fs and 65 for gs, and two that disagree are refused |
| Addresses.EncodedAddress | src/x86_64_encoding_core.c:375-503 | the address the processor forms from the bytes of any accepted operand, in any state of the registers: the one written, but for an index without base, an index rsp, and a base rbp or r13 beside an index without displacement |
| Addresses.AddressKept | src/x86_64_encoding_core.c:481-503 | it is the one written in every state of the registers if and only if none of these holds |
| Addresses.DecodedAddress | src/x86_64_disassembler.c:192-356 | for any bytes the listed operand denotes the address the processor forms, but for an index r12, and one runs out of bytes exactly when the other does |
| Mnemonics.ListedLine | src/x86_64_disassembler.c:358-1305 | for every byte string the line at every position is the word and the operands of the opcode map's row, with their length, or db and the first byte where the listing has no row or the bytes run out |
| Mnemonics.PrefixBytes | src/x86_64_disassembler.c:380-403 | which bytes are passed over as prefixes |
| Mnemonics.PrefixesRead | src/x86_64_disassembler.c:380-403 | of the prefixes only whether 66 is among them and the last REX byte matter |
| Mnemonics.LineColumns | src/x86_64_disassembler.c:1345-1350 | a line starts with sixteen digits that read back as the address, has the bytes from column 18 and the instruction at its end, from column 62 on unless the bytes take more room |
| RoundTrip.StraightField | src/x86_64_encoding_core.c:409-438 | such an instruction leaves a field if and only if one of its operands names a label, just before its immediate bytes |
| RoundTrip.RegForm | src/x86_64_encoder.c:164-189 | one-byte opcodes with a register field, both directions |
| RoundTrip.EscapeForm | src/x86_64_controlflow.c:589-683 | two-byte opcodes with a register field |
| RoundTrip.ExtForm | src/x86_64_encoder.c:434-483 | opcodes selected by the extension field |
| RoundTrip.ImmForm | src/x86_64_encoder.c:191-213 | mov, test and arithmetic with an immediate behind a register or memory operand: an imm8 with its sign, an imm32 as its low half unsigned |
| RoundTrip.MovLoad | src/x86_64_encoder.c:111-143 | mov of an immediate to a register by opcode b8+r, under its 32-bit name or with eight bytes |
| RoundTrip.BitsImm | src/x86_64_controlflow.c:1127-1219 | bit tests with an imm8 |
| RoundTrip.SetCcForm | src/x86_64_controlflow.c:525-586 | setcc decodes to its operand if and only if that is not spl, bpl, sil or dil |
| RoundTrip.SetCcSplLost | src/x86_64_controlflow.c:525-586 | sete spl is encoded as 0f 94 c4, which is read back as sete ah |
| RoundTrip.PushPopReg | src/x86_64_encoder.c:235-248 | push and pop of all sixteen registers |
| RoundTrip.PushImm | src/x86_64_encoder.c:250-268 | push of an int32, and how the listing shows it |
| Decoding.DecodeLength | src/x86_64_disassembler.c:380-403 | a decode behind p prefix bytes takes between 1 and p + 11 bytes and stays inside the code |
| Disassembler.Partition | src/x86_64_disassembler.c:1319-1352 | for every byte string the decoded entries are non-empty, consecutive and concatenate to the input; they are printed as far as DisassembleCodeBuffer says |
| Disassembler.DisassembleCodeBuffer | src/x86_64_disassembler.c:1307-1355 | the loop prints, in their columns, exactly the entries before the first that takes more than fifteen bytes, and succeeds if and only if there is none |
| Disassembler.FormatLine | src/x86_64_disassembler.c:1334-1350 | a line is formatted if and only if it has at most fifteen bytes, each appended only where it fits the dump buffer |
| Decoding.ReachedExactly | src/x86_64_disassembler.c:1319-1352 | the printed entries are the longest beginning of the listing without a long one, and all of it exactly when there is none |
| Decoding.FewPrefixes | src/x86_64_disassembler.c:380-403 | code without five prefix bytes in a row is listed to its end |
| Decoding.LongLineLost | src/x86_64_disassembler.c:1334-1342 | sixteen operand-size prefixes and a nop: one entry of seventeen bytes, none printed |
| Decoding.FivePrefixesLost | src/x86_64_disassembler.c:380-403 | five prefixes can already be too many: a decode of sixteen bytes |
| Buffers.EncodedShort | src/x86_64_asm.c:1043-1120 | every instruction the assembler accepts takes at most fifteen bytes |
| Buffers.TextsFit | src/x86_64_disassembler.c:192-356 | whatever the bytes, no operand reaches 128 characters and no line of text 192, the sizes of their arrays |
| Disassembler.DumpReadBack | src/x86_64_disassembler.c:1334-1344 | the column of bytes reads back as the bytes |
| Disassembler.DecodeNext | src/x86_64_disassembler.c:358-1305 | the prefix loop and the opcode switches, printing as they go, consume what the structured decoding consumes, print what it renders to, and fail exactly when it does |
| Disassembler.PrintEscape | src/x86_64_disassembler.c:524-923 | the switch over the byte behind 0f, formatted operand by operand |
| Disassembler.PrintModRmOpcode | src/x86_64_disassembler.c:998-1299 | the switch over the opcodes with a ModRM byte, whose operand is formatted first |
| Disassembler.ReadLe | src/x86_64_disassembler.c:137-170 | the reading loop gives the little-endian value, or fails exactly when the bytes run out |
| Disassembler.FormatRmOperand | src/x86_64_disassembler.c:192-356 | the printed operand and rm_len are those of the structured decoding, and it fails exactly when that runs out of bytes |
| Disassembler.PrintMem | src/x86_64_disassembler.c:291-353 | appending the parts one by one gives the text of the operand |
| Disassembler.DecodedPrinted | src/x86_64_disassembler.c:220-290 | every decoded memory operand can be printed, fits int32, and never has rsp or r12 as index |
| Disassembler.TextCycle | src/x86_64_parser.c:822-1085 | bytes to text to operand to bytes: the printed text parses to the decoded operand, and encoding it again decodes to it exactly for the forms that keep their base |
| PrintParse.PrintThenParse | src/x86_64_parser.c:601-1085 | tokenising and parsing a printed operand returns it field by field and consumes nothing else, except for the displacement -2^31 behind a sign, which overflows |
| Components.ParsedSays | src/x86_64_parser.c:860-1085 | of every accepted operand but [abs n], whatever its tokens: its label is the last identifier between the brackets that is no register name, and its displacement the signed sum of its numbers that scale nothing |
| Components.LastName | src/x86_64_parser.c:1000-1010 | the label that is heard is the last name, if there is one |
| Components.WrittenRead | src/x86_64_parser.c:860-1000 | base, scaled index, label and signed number, each optional, are read back as written, whatever follows |
| Components.WrittenRip | src/x86_64_parser.c:860-1010 | [rip + label + n] and its shorter forms keep the label and the number and are rip-relative |
| Components.RegisterSign | src/x86_64_parser.c:945-1000 | a minus sign in front of a register changes nothing |
| Components.NameSign | src/x86_64_parser.c:1000-1010 | nor in front of a label, except behind rip, where it is an error |
| Components.RipAsIndex | src/x86_64_parser.c:945-1000 | [label + rip] takes rip as the index |
| Components.AbsoluteRead | src/x86_64_parser.c:835-860 | [abs n] is the absolute address n as an int32 |
| Sources.TokensRead | src/x86_64_parser.c:583-762 | any sequence of tokens, written with a blank behind each, is read back: punctuation, names, numbers in three bases, and literals with their escapes |
| Sources.CommentSkipped | src/x86_64_parser.c:583-600 | a comment counts for nothing up to the end of its line |
| Sources.ImmPrinted | src/x86_64_disassembler.c:172-190 | a printed immediate is read back as its sign and its number |
| Sources.LowerLetters | src/x86_64_encoding_core.c:74-90 | ignoring case folds the twenty-six capital letters and nothing else |
| Registers.RegisterNames | src/x86_64_encoding_core.c:13-90 | a word is the name of a register if and only if it is spelt by the naming rule for its number and size, in any case of letters |
| Registers.Spelt | src/x86_64_encoding_core.c:92-102 | the names that are printed follow that rule |
| Text.DigitsInverse | src/x86_64_disassembler.c:172-190 | printed digits in base 2, 10 or 16 read back as the number |
| Parser.ParserState.ParseMemoryOperand | src/x86_64_parser.c:822-1085 | the in-place operand parser returns the specified operand and leaves exactly the rest of the tokens |
| Parser.ParserState.Next | src/x86_64_parser.c:620-762 | the tokenizer loops compute the specified token and position |
| Parser.ParserState.Advance | src/x86_64_parser.c:765-772 | one token of lookahead: the stream loses exactly its first token |
| MemParsing.ParsedRegular | src/x86_64_parser.c:1064-1085 | a parsed operand has an int32 displacement that is 0 when absent, a legal scale, and never combines rip with a base or an index |
| Immediates.MovKeepsValue | src/x86_64_encoder.c:111-136 | the immediate form chosen for mov of a 64-bit register extends to the immediate modulo 2^64; the register is right if and only if the form is not imm64 on r8..r15 |
| Immediates.Mov32KeepsValue | src/x86_64_encoder.c:137-143 | mov of a 32-bit register loads the low half, into the named register if and only if that is below r8d |
| Immediates.MovHighRegisterLost | src/x86_64_encoder.c:123-129 | a concrete mov that loads the wrong register |
| Immediates.AluKeepsValue | src/x86_64_encoder.c:323-377 | an arithmetic immediate on a 64-bit register is accepted if and only if it fits int32, and extends back to itself |
| Immediates.PushKeepsValue | src/x86_64_encoder.c:250-268 | push of an int32 pushes its sign extension |
| Context.AssemblerContext.EmitByte | src/x86_64_encoding_core.c:123-150 | appends to the current section and moves the address by one, or refuses and changes nothing when the section is full |
| Context.AssemblerContext.EmitBytes | src/x86_64_encoding_core.c:229-290 | a run of bytes is appended whole if and only if it fits |
| Context.AssemblerContext.EmitRex | src/x86_64_encoding_core.c:318-351 | emits the specified REX prefix or none |
| Context.AssemblerContext.EmitModRmSib | src/x86_64_encoding_core.c:375-503 | emits the specified operand bytes and label field, and fails exactly on the operand errors, a full section or a full fixup list |
| Context.AssemblerContext.AddFixup | src/x86_64_asm.c:896-915 | records an absolute field, or fails on a full list |
| Context.AssemblerContext.AddFixupRipRelative | src/x86_64_asm.c:917-936 | records a relative field, or fails on a full list |
| Context.AssemblerContext.AddControlflowFixup | src/x86_64_controlflow.c:60-84 | records a relative field whatever the reused slot's stale flag is |
| Context.AssemblerContext.EncodeDispatch | src/x86_64_asm.c:1069-1197 | every instruction of the subset, by its own encoder, appends its specified bytes and field, or fails exactly when the specification does or there is no room |
| Context.AssemblerContext.EncodeInstruction | src/x86_64_asm.c:1043-1069 | segment overrides are collected, conflicts rejected, then prefix and instruction emitted |
| Context.AssemblerContext.EmitDirective | src/x86_64_asm.c:1228-1331 | data, reserve and align append their bytes as far as they fit; only a bad alignment fails |
| Assembler.TextPass | src/x86_64_asm.c:2027-2185 | one iteration over the context is one pass of the specification: text, fixups, line map, symbols, address and change flag |
| Assembler.TextMode | src/x86_64_asm.c:2021-2190 | the pass loop of one mode |
| Assembler.DataPass | src/x86_64_asm.c:2204-2325 | the data section is laid out behind the text, which stays as it is |
| Assembler.ResolveFixups | src/x86_64_asm.c:938-1037 | patching in place computes the specified resolution |
| Assembler.Assemble | src/x86_64_asm.c:2018-2335 | the run over the context produces the specified image, or fails exactly when the specification does |
| Symbols.InsertKeeps | src/x86_64_asm.c:700-726 | appending to the array and prepending to the chain keeps array and hash table in agreement |
| Symbols.ReplaceKeeps | src/x86_64_asm.c:728-740 | overwriting one name in both indexes keeps them in agreement |
| Symbols.SymbolTable.Info | src/x86_64_asm.c:639-890 | hash lookup and linear search give the same answer for every name |
| Symbols.SymbolTable.Lookup | src/x86_64_asm.c:685-698 | the chain walk finds the first entry of the name in the bucket its hash selects |
| Symbols.SymbolTable.ComputeHash | src/x86_64_asm.c:675-683 | the loop computes FNV-1a |
| Symbols.SymbolTable.Add | src/x86_64_asm.c:811-870 | adds a new name to both indexes, refuses a known name or a full array; the name is found again if and only if it is shorter than 256 characters |
| Symbols.SymbolTable.UpsertConstant | src/x86_64_asm.c:533-558 | sets a constant in both indexes unless the name is external |
| Symbols.SymbolTable.MoveLabel | src/x86_64_asm.c:2096-2111 | moves exactly that name in both indexes and reports whether its address changed |
| Symbols.NamesApart | src/x86_64_asm.c:533-880 | as long as there is room a name holds what its own updates made of it: a label its first definition, a constant its last value, external names no constant, moves only where it is known |
| Symbols.HashVectors | src/x86_64_asm.c:675-683 | the published FNV-1a values of the empty text and "a" |
| Symbols.SymbolTable.Run | src/x86_64_asm.c:533-880 | any run of updates keeps the agreement and equals the run of a plain map |
| Labels.LocalTarget | src/x86_64_asm.c:399-531 | the definitions a .x reference reaches are exactly those of .x in its own scope |
| Labels.SameScope | src/x86_64_asm.c:449-488 | two places share a scope if and only if no label between them opens one; equ, @@ and local labels do not |
| Labels.OthersKept | src/x86_64_asm.c:345-398 | all other labels and references keep their names |
| Labels.LocalReference | src/x86_64_asm.c:472-528 | pass 2 gives a reference its scope's name if and only if no label with a reserved prefix has opened a scope before it |
| Labels.StrayReference | src/x86_64_asm.c:472-528 | a program whose .y reference is bound, without an error, to the .y of another scope |
| Labels.ScopesAgree | src/x86_64_asm.c:472-488 | pass 2 finds the scope numbers of pass 1 less the labels it mistakes for canonical ones |
| Labels.AnonymousTarget | src/x86_64_asm.c:247-273 | @b and @B reach the nearest @@ strictly before, @f and @F the nearest strictly behind, and only that one |
| Labels.NoDuplicates | src/x86_64_asm.c:449-470 | on success no scope defines a local label twice |
| Labels.LocInjective | src/x86_64_asm.c:184-198 | distinct pairs of scope and name get distinct canonical names |
| Labels.AnonInjective | src/x86_64_asm.c:419-447 | distinct anonymous labels get distinct names |
| Labels.CanonicalizeSymbolLabels | src/x86_64_asm.c:399-531 | the two loops over the array compute the specified renaming and fail exactly when it does |
| Labels.AliasTable.GetOrCreate | src/x86_64_asm.c:214-245 | returns the alias and grows the table by it when it is new and fits |
| Preprocessor.MachineRefines | src/x86_64_parser.c:3225-3507 | the stack machine accepts exactly the sources that flatten well nested blocks whose chosen arms run without error, and keeps the lines the nested reading keeps, each under its definitions |
| Preprocessor.UnbalancedRejected | src/x86_64_parser.c:3305-3337 | a source that no nesting flattens to is rejected under all definitions |
| Preprocessor.ReadUnique | src/x86_64_parser.c:3225-3345 | a source has at most one nested reading |
| Preprocessor.ActiveIsConjunction | src/x86_64_parser.c:3225-3345 | current_active is always the conjunction of the choices of all open conditionals |
| Preprocessor.DefineReadBack | src/x86_64_parser.c:2481-2519 | a set definition reads back, no other changes, and setting fails exactly on a new name in a full table |
| Preprocessor.SeedReads | src/x86_64_parser.c:3023-3030 | a pass starts with the last value the command line gives each name, 1 where that is empty |
| Conditions.IfdefKeeps | src/x86_64_parser.c:3277-3303 | %ifdef does what its first part does if and only if the name is defined or a macro, and else what the part behind %else does; %ifndef the reverse |
| Conditions.IfKeeps | src/x86_64_parser.c:2602-2689 | %if with n exclamation marks in front of a number or name keeps its first part if and only if n is even and the word holds, or n is odd and it does not: a number that is not 0, a name that is defined with no value, no number, or a number that is not 0; an undefined name is false |
| Conditions.Unread | src/x86_64_parser.c:3255-3303 | inside a part that is not kept a whole conditional has no effect, and its test is not read |
| Conditions.LeafLines | src/x86_64_parser.c:3339-3388 | what plain lines, definitions, warnings, errors and malformed directives do in kept and in dropped parts |
| Preprocessor.Pass.EvalNumberOrSymbol | src/x86_64_parser.c:2602-2689 | the loops of the expression reader compute the specified value or error |
| Preprocessor.Pass.ProcessLine | src/x86_64_parser.c:3231-3388 | one line over the arrays is one step of the machine |
| Preprocessor.Pass.Preprocess | src/x86_64_parser.c:3205-3511 | the whole pass over the arrays accepts and keeps what the machine does |
| EditDistance.NameDistance | src/x86_64_asm.c:280-309 | the two-row loops compute the table entry, or 999 for a long name |
| EditDistance.TableLeast | src/x86_64_asm.c:280-309 | no edit script is cheaper than the table entry |
| EditDistance.TableReached | src/x86_64_asm.c:280-309 | some edit script costs exactly the table entry |
| EditDistance.DistanceIsShortest | src/x86_64_parser.c:324-359 | for names up to 63 characters the distance is the cost of a cheapest script between the case-folded names |
| EditDistance.DistanceMetric | src/x86_64_parser.c:324-359 | symmetry and the triangle inequality, for all names |
| EditDistance.Identity | src/x86_64_asm.c:280-309 | distance zero means equal, and only that |
| EditDistance.FindClosest | src/x86_64_asm.c:311-343 | the suggestion is the first name at the least distance, hidden and empty names excluded, and there is none exactly when there is no candidate |
| Dwarf.LineMapRoundTrip | src/x86_64_asm.c:2974-3010 | running the line program of any text pass reproduces its line map row by row, plus at most one closing row and the end of the sequence |
| Dwarf.ProgramExecutes | src/x86_64_asm.c:2974-3010 | for any rows near the base the table is the rows with each address raised to the highest before it |
| Dwarf.RaisedSame | src/x86_64_asm.c:2981-2988 | that is the rows themselves if and only if addresses never decrease and lines are positive |
| Dwarf.LineMapAscending | src/x86_64_asm.c:2164-2168 | the line map of a pass never decreases and stays inside the text |
| Dwarf.UlebRoundTrip | tests/test_integration.c:62-78 | unsigned LEB128 is inverted by its reader, with any bytes behind it |
| Dwarf.SlebRoundTrip | tests/test_integration.c:80-101 | signed LEB128 is inverted by its reader |
| Dwarf.Buffer.AppendUleb | src/x86_64_asm.c:2575-2583 | the loop appends the encoding whole, or fails exactly when it does not fit |
| Dwarf.Buffer.AppendSleb | src/x86_64_asm.c:2585-2599 | the same for the signed loop, whose shift is arithmetic |
| Dwarf.Buffer.AppendLineProgram | src/x86_64_asm.c:2974-3010 | the emission loop appends the line program whole, or fails exactly when it does not fit the section buffer |

## Left out
- Symbols.SymbolTable.Add: names of 256 characters and more are stored cut off; the agreement of the two indexes is stated for shorter names, and the failure for longer ones is stated as it is.
- Listing.ProgramRoundTrip: statements are instructions of the common subset, branches to labels, loads from a label, lone labels and align; data and reserve directives in the text section are not listed back, since their bytes are not instructions. Short branches are taken to go to labels that keep their addresses (BranchReaches has those that do not).
- Listing.BranchSoundness: rel8 branches are covered in passes that moved no label; BranchLands and BranchReaches cover the others.
- Assembly.BranchReaches: labels defined in the text section; external and data labels are reached by near branches only as BranchLands says.
- Processor.EncodedRuns: memory operands are those whose ModRM bytes the disassembler gives back (RoundTrips), since both are compared as operands; EncodedAddress has the address formed from all the others. Labels are the subject of Listing and Reaching.
- Unsettled.UnsettledText: up to forty links, all of them within reach of a byte displacement from the first pass on.
- Assembler.TextPass: the rewriting of operands that name equ constants, and extern, global, weak and hidden statements, which emit nothing, are not part of the pass.
- Assembler.Assemble: starts behind the first pass, whose estimates are the arbitrary symbols it is given; equ, extern and global statements are left out as in TextPass.
- Relaxation.Converges: the passes are assumed not to run out of section or fixup space, which ConvergesWithRoom derives from the program, and text labels to be distinct; labels defined by equ are not modelled.
- Dwarf.ProgramExecutes: addresses lie within 2^32 of the base, which the one-megabyte text section guarantees; the header of the line table, its opcode lengths and the other debug sections are not modelled.
- Preprocessor.MachineRefines: lines are taken as already classified, the reading of a token by strtoll and the macro names are parameters, and substitution of definitions in kept lines, macro bodies and times expansion are left out.
- Labels.CanonicalizeSymbolLabels: label names are shorter than the 256-character field.
- Preprocessor.Pass.EvalNumberOrSymbol: the value strtoll reads from a token is a parameter.
- Preprocessor.Pass.Preprocess: lines come classified; substitution in kept lines, macro bodies and times expansion are left out.
- Disassembler.DisassembleCodeBuffer: a decode of more than fifteen bytes is also copied into an array of fifteen before its line is given up; what that copy overwrites is not modelled, only that nothing more is printed.
- The first pass (size estimates, symbol collection, equ resolution, extern, global, comm, weak and hidden attributes): its addresses are the arbitrary starting point of the text passes.
- SSE, string, shift, exchange, multiply and divide instructions, shld and shrd, and the decoder's view of them where the assembler emits no such form.
- ELF, hex, binary, map and listing output, include files, incbin, command-line handling, diagnostics text and profiling.
- Addresses are unbounded integers, except that branch targets are shown modulo 2^64; text is without NUL characters; UTF-8 checking is left out.
