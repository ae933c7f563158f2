# sampgdk detour hook and native registry, modelled in Dafny

This project models two parts of sampgdk, the SA-MP plugin development kit.

**The x86 detour engine** (`lib/sampgdk/internal/hook.c`):

- The instruction-length decoder. It skips legacy prefixes in one pass over an 11-entry table. It then finds the first matching entry of a 30-entry opcode table: some entries also check ModRM.reg, and the "+r" entries match on the top five bits. Finally it adds the ModRM, SIB, displacement and immediate bytes.
- The 5-byte `E9 rel32` jump writer.
- The page rounding of the POSIX unprotect helper.
- `sampgdk_hook_new`:
  - it copies whole instructions of the hooked function into a trampoline until five bytes are taken;
  - it relocates copied `E8`/`E9` rel32 branches;
  - it closes the trampoline with a jump back;
  - it patches the hooked function with a jump to the replacement.
- `sampgdk_hook_trampoline`.

**The native-function registry** (`src/internal/native.c`):

- a table of (name, function) entries kept sorted by `strcmp`, filled by linear-scan insertion;
- lookup by `bsearch`, with NULL, warning and stub variants;
- the table accessor.

Modelling choices:

- Bytes are `bv8` and addresses and displacements are `bv32`, so every cast of an address to `int32` in the source wraps modulo 2^32.
- Memory is a Dafny `array<byte>`:
  - the hooked function's bytes, at address `srcAddr`;
  - the trampoline, a fresh array at the address that allocation returns.
- The decoder is a specification function, `InsnLength.InsnLen`. It comes with a method, `InsnLength.GetInsnLen`, written as the source's loops and proved equal to it.
- The copy loop is specified over `lens`, the lengths the decoder reports at offsets 0 to 4. `Hook.CopyWalk` is where the loop stops. `Hook.Image` is the bytes it leaves in the trampoline, with each instruction relocated.
- The registry is a class whose `table` is a `seq` that `Register` reassigns.

## Model

| member | source | states |
|---|---|---|
| `InsnLength.PrefixLen` | lib/sampgdk/internal/hook.c:144-148 | the prefix pass counts at most 11 bytes |
| `InsnLength.PrefixesOnceEach` | lib/sampgdk/internal/hook.c:94-99 | every counted byte is a prefix; they occur in prefix-table order and no value is counted twice |
| `InsnLength.PassConsumesRun` | lib/sampgdk/internal/hook.c:144-148 | conversely, a run of prefixes in table order ended by a byte no remaining entry is, is consumed whole |
| `InsnLength.PrefixRunSkipped` | lib/sampgdk/internal/hook.c:144-148 | the decoder skips exactly the prefixes written in table order before a non-prefix byte |
| `InsnLength.OperandSizePrefixAlone` | lib/sampgdk/internal/hook.c:144-148 | a lone 0x66 followed by a non-prefix byte is skipped as exactly one prefix byte |
| `InsnLength.MatchFromFirst` | lib/sampgdk/internal/hook.c:150-166 | the scan returns the first table entry that matches, and no entry before it matches |
| `InsnLength.ModRMLen` | lib/sampgdk/internal/hook.c:172-187 | ModRM with its SIB byte and displacement takes 1 to 6 bytes |
| `InsnLength.TableImmediatesAtMostFour` | lib/sampgdk/internal/hook.c:189-191 | no table entry declares more than four immediate bytes |
| `InsnLength.InsnLen` | lib/sampgdk/internal/hook.c:84-194 | a nonzero length covers the prefixes and the opcode and is at most 22 |
| `InsnLength.TableOpcodesNonZero` | lib/sampgdk/internal/hook.c:168-170 | no table opcode is 0, so the `opcode == 0` test means exactly "nothing matched" |
| `InsnLength.InsnLenZeroIff` | lib/sampgdk/internal/hook.c:150-170 | the result is 0 iff no entry matches the byte after the prefixes; otherwise it is measured with the first matching entry |
| `InsnLength.OwnedLength` | lib/sampgdk/internal/hook.c:150-193 | an unprefixed opcode that entry k owns first is measured with entry k |
| `InsnLength.OwnedLengthAfter` | lib/sampgdk/internal/hook.c:150-193 | the same after any number of prefixes |
| `InsnLength.UnownedRejected` | lib/sampgdk/internal/hook.c:168-170 | an unprefixed opcode that no entry owns measures 0 |
| `InsnLength.PlusRForm` | lib/sampgdk/internal/hook.c:157-160 | bytes with `b & 0xF8` equal to 0xB0, 0xB8, 0x58 or 0x50 go to that "+r" entry and measure 1 plus its immediate |
| `InsnLength.OpcodeFFSplit` | lib/sampgdk/internal/hook.c:153-156 | 0xFF is CALL, JMP or PUSH r/m32 for reg 2, 4 or 6; any other reg measures 0; a hit measures 1 plus the ModRM bytes |
| `InsnLength.RegOpcodeMismatchFails` | lib/sampgdk/internal/hook.c:153-156 | 0x83 measures 0 exactly when reg is not 5; 0xC6, 0xC7 and 0x8F measure 0 exactly when reg is not 0 |
| `InsnLength.RelativeBranchLength` | lib/sampgdk/internal/hook.c:108-110 | E8 and E9 rel32 are 5 bytes long |
| `InsnLength.MovImm32After` | lib/sampgdk/internal/hook.c:124 | after p prefix bytes, MOV r32, imm32 measures p + 5 |
| `InsnLength.PrefixedMovImm32` | lib/sampgdk/internal/hook.c:144-148 | MOV r32, imm32 built after n prefixes in table order measures its construction, n + 5 |
| `InsnLength.OperandSizePrefixIgnored` | lib/sampgdk/internal/hook.c:189-191 | after 0x66, MOV r32, imm32 still gets a 4-byte immediate (6 bytes in all) |
| `InsnLength.SkipPrefixes` | lib/sampgdk/internal/hook.c:140-148 | the source's prefix loop computes the prefix pass |
| `InsnLength.FindOpcode` | lib/sampgdk/internal/hook.c:150-166 | the opcode loop returns the first matching index and its opcode byte, or 0 exactly when nothing matched |
| `InsnLength.OperandsLen` | lib/sampgdk/internal/hook.c:172-191 | the operand bytes are the ModRM bytes (when flagged) plus the immediate widths |
| `InsnLength.GetInsnLen` | lib/sampgdk/internal/hook.c:84-194 | the decoder as written returns `InsnLen` on every input |
| `Bytes.Le32RoundTrip` | lib/sampgdk/internal/hook.c:44-47 | the 4-byte little-endian field read back gives the stored word |
| `Bytes.Le32ValueRoundTrip` | lib/sampgdk/internal/hook.c:239-240 | writing back a field that was read leaves its four bytes unchanged |
| `Bytes.Store` | lib/sampgdk/internal/hook.c:232 | memcpy puts the data at the offset and changes no other byte |
| `Jump.DispOf` | lib/sampgdk/internal/hook.c:202-203 | a displacement written into a branch reads back unchanged |
| `Jump.JmpBytes` | lib/sampgdk/internal/hook.c:196-206 | the jump is 5 bytes and starts with 0xE9; placed at `from`, it lands on `to` |
| `Jump.JmpAtOffset` | lib/sampgdk/internal/hook.c:202-205 | the displacement is computed from the buffer start, so the jump stored `offset` bytes in lands on `dst + offset` |
| `Jump.WriteJmp` | lib/sampgdk/internal/hook.c:205 | exactly the five bytes at the offset become the jump; the rest of memory is unchanged |
| `Jump.Relocate` | lib/sampgdk/internal/hook.c:238-241 | length is kept; a non-branch is unchanged; a branch keeps its opcode and everything after the displacement |
| `Jump.RelocatePreservesTarget` | lib/sampgdk/internal/hook.c:238-241 | an E8/E9 moved by delta, with delta taken off its displacement, still reaches the same absolute target |
| `Hook.PageStart` | lib/sampgdk/internal/hook.c:73 | the rounded address is page aligned, not above the address, and equal to the address less its offset within the page |
| `Hook.PageOffsetBelow` | lib/sampgdk/internal/hook.c:72-73 | for a power-of-two page size that offset is below the page size, so the page start lies less than a page below |
| `Hook.PageStartGreatest` | lib/sampgdk/internal/hook.c:73 | for a power-of-two page size, every aligned address not above the input is not above the page start |
| `Hook.PageStartFixed` | lib/sampgdk/internal/hook.c:73 | an address already on a page boundary is unchanged |
| `Hook.DecoderLengths` | lib/sampgdk/internal/hook.c:224-227 | the lengths recorded at offsets 0 to 4 are what the decoder returns there, each at most 22 |
| `Hook.DecodedUnique` | lib/sampgdk/internal/hook.c:227 | the decoder's lengths are determined by the bytes |
| `Hook.CopyWalk` | lib/sampgdk/internal/hook.c:223-244 | the loop ends between its start and 4 + 22 bytes; it is complete exactly when at least five bytes were taken |
| `Hook.Starts` | lib/sampgdk/internal/hook.c:223-244 | every instruction taken starts below offset 5 and has a nonzero decoded length |
| `Hook.WalkShape` | lib/sampgdk/internal/hook.c:223-244 | instructions are taken whole and back to back; the last one ends where the loop stops, so a complete copy is 5 to 4 + len(last) bytes |
| `Hook.ImageLength` | lib/sampgdk/internal/hook.c:232-243 | the copied bytes are exactly as many as the loop took |
| `Hook.ImageStep` | lib/sampgdk/internal/hook.c:232-243 | the copied bytes from an instruction on are that instruction, relocated, followed by the rest |
| `Hook.CopyStepKeeps` | lib/sampgdk/internal/hook.c:232-243 | one pass keeps the loop invariant: the trampoline holds the relocated image of everything taken so far |
| `Hook.Hook.constructor` | lib/sampgdk/internal/hook.c:213 | a new hook owns a fresh trampoline buffer of the corrected size |
| `Hook.Hook.Trampoline` | lib/sampgdk/internal/hook.c:260-262 | the hook hands out the address of its trampoline buffer (`HookNew` makes that the allocated block) |
| `Hook.PatchDisp` | lib/sampgdk/internal/hook.c:239-240 | only the four displacement bytes of the branch at the offset change |
| `Hook.RelocateCopied` | lib/sampgdk/internal/hook.c:238-241 | a copied branch is replaced in place by its relocated form |
| `Hook.CopyInsn` | lib/sampgdk/internal/hook.c:232-241 | the trampoline gets the relocated instruction at the offset and is unchanged elsewhere |
| `Hook.Decode` | lib/sampgdk/internal/hook.c:227-230 | the decoder call yields the recorded length; a recognised E8/E9 is whole |
| `Hook.TakeInsn` | lib/sampgdk/internal/hook.c:232-243 | the bytes copied so far are kept; the relocated instruction is appended; every byte after it is unchanged; the loop invariant holds at the next offset |
| `Hook.CopyStep` | lib/sampgdk/internal/hook.c:224-243 | one pass: length 0 changes nothing; otherwise it copies as `TakeInsn` does, leaving every later byte unchanged, and keeps the loop's final outcome |
| `Hook.CopyLoop` | lib/sampgdk/internal/hook.c:223-244 | the loop stops at the walk's size; `insn_len > 0` iff the walk is complete; the trampoline holds the relocated image and every byte after it is unchanged |
| `Hook.Stopped` | lib/sampgdk/internal/hook.c:223 | where the loop stops, the walk ends and the trampoline holds the whole image |
| `Hook.Close` | lib/sampgdk/internal/hook.c:246-248 | the copied bytes are kept; the jump back follows them; every later trampoline byte is unchanged; the hooked function starts with the jump to `dst` |
| `Hook.Install` | lib/sampgdk/internal/hook.c:246-251 | on a complete copy: relocated image, then jump back, later bytes unchanged, and the source patched; otherwise the jump to `src` overwrites everything copied, the rest of the trampoline is unchanged and the source is untouched |
| `Hook.HookNew` | lib/sampgdk/internal/hook.c:208-254 | failed allocation: NULL and nothing written; otherwise a hook is returned, installed or left unsupported as `Install` states |
| `Hook.TrampolineFits` | lib/sampgdk/internal/hook.c:247 | with the corrected size, every copied instruction and the jump back fit in the trampoline |
| `Hook.SourceTrampolineOverflows` | lib/sampgdk/internal/hook.c:37-40 | on `50 50 50 50 C7 84 …` the loop takes 15 bytes, and a jump back at 15 does not fit in 19 bytes |
| `Hook.PrefixedMovSibDisp32Length` | lib/sampgdk/internal/hook.c:84-194 | `F0 F2 F3 2E 36 C7 84 …` (five prefixes, then MOV r/m32, imm32 with a SIB byte and disp32) measures 16 bytes |
| `Hook.SourceCopyOverflows` | lib/sampgdk/internal/hook.c:37-40 | on `50 50 50 50 F0 F2 F3 2E 36 C7 84 …` the fifth instruction taken is copied to offsets 4..20, past the 19-byte buffer, before the jump back |
| `Natives.StrcmpZeroIff` | src/internal/native.c:68-72 | on C strings, `strcmp` is 0 exactly for equal strings |
| `Natives.StrcmpAntisymmetric` | src/internal/native.c:68-72 | swapping the operands negates `strcmp` |
| `Natives.StrcmpTransitive` | src/internal/native.c:60 | `strcmp(a, b) <= 0` is transitive, and strict when either step is strict |
| `Natives.InsertionPoint` | src/internal/native.c:58-63 | the insertion index is the first name comparing greater than or equal to the new name, or the end |
| `Natives.InsertionPointAt` | src/internal/native.c:58-63 | the registration loop stops exactly at `InsertionPoint` |
| `Natives.InsertAddsOne` | src/internal/native.c:61-65 | registration adds exactly the new entry; the others keep their relative order (same multiset plus one) |
| `Natives.DuplicateGoesFirst` | src/internal/native.c:58-63 | an existing entry with an equal name ends up after the new one |
| `Natives.InsertKeepsSorted` | src/internal/native.c:57-65 | a table sorted by `strcmp` stays sorted after registration |
| `Natives.InsertKeepsNames` | src/internal/native.c:52-55 | all names stay C strings |
| `Natives.BinarySearch` | src/internal/native.c:84-90 | on a sorted table, it returns an index whose name equals the key, or none exactly when no name does |
| `Natives.Registry.constructor` | src/internal/native.c:32-41 | the registry starts empty and sorted |
| `Natives.Registry.Register` | src/internal/native.c:47-66 | the table becomes `Insert(old table, entry)` and stays sorted |
| `Natives.Registry.Find` | src/internal/native.c:74-91 | NULL when never initialised; otherwise the function of an entry with that name, or NULL with no such entry |
| `Natives.Registry.FindWarn` | src/internal/native.c:93-104 | the same result as `Find` |
| `Natives.Registry.FindStub` | src/internal/native.c:111-121 | never NULL: the found function, or `native_stub` |
| `Natives.Registry.FindWarnStub` | src/internal/native.c:123-133 | never NULL: the found function, or `native_stub` |
| `Natives.Registry.GetTable` | src/internal/native.c:135-138 | the count is the number of entries; the data is the sorted table, or NULL when never initialised |

## Left out

- `VirtualProtect` and `mprotect` (lib/sampgdk/internal/hook.c:57-65, 75-77) are OS calls, and `sampgdk_hook_new` ignores their results. Only the page-rounding arithmetic is modelled, in `Hook.PageStart`; `sysconf` becomes the parameter `pagesize`, and the Windows variant has no arithmetic to model.
- Hook.PageStart: `long` is taken as 32 bits, the width of the i386 addresses the engine patches.
- `malloc` is the parameter `alloc` of `Hook.HookNew`: the address of the new block, or None for NULL. `free` and `sampgdk_hook_free` only release memory and are not modelled.
- Nothing about executing the patched code is claimed. The model covers bytes and address arithmetic only.
- Hook.HookNew: `lens`, the decoder's lengths on the hooked function's bytes, is a ghost out-parameter so that the contract can name the loop's outcome.
- Hook.HookNew: the bytes of a fresh block from `malloc` are unspecified, so only the trampoline bytes written are stated; `Hook.Install` states that every other byte keeps its value.
- Hook.Install: a per-instruction "same absolute target" fact is not stated over the whole trampoline. That is `Jump.RelocatePreservesTarget` for one instruction, and `Hook.CopyStep` states, per pass, that the bytes written are `Relocate` of the instruction.
- The trampoline buffer has the corrected size of 31 bytes, so every write stays inside it. The source's 19-byte size is kept as `SourceTrampolineSize`; the `## Findings` table below shows where it overflows.
- Logging (`sampgdk_log_error`, `sampgdk_log_warn`) is I/O. `FindWarn` therefore has `Find`'s contract.
- `sampgdk_native_call`, `sampgdk_native_invoke` and `sampgdk_native_invoke_array` (src/internal/native.c:140-276) are left out. They depend on `va_list`, float conversion and the fake AMX push/pop API, and they make indirect calls.
- The module initialiser and cleanup (src/internal/native.c:32-45) appear only as the constructor's `initialised` flag. Whether `natives.data` is NULL is the only effect on the rest of the module.
- The array library (`sampgdk_array_insert_single`, `sampgdk_array_append`, `sampgdk_array_get`) is not part of this model. Its insert and append are modelled as `seq` insertion and appending, with allocation failure not modelled; `Register` therefore returns nothing.
- Natives.Strcmp: only the sign of the result is used. Characters compare as Dafny `char` values rather than `unsigned char` bytes.
- Natives.BinarySearch: `bsearch` is modelled as the usual halving search. The C standard does not fix which of several equal entries it returns, so `Find` states only that the result belongs to some entry with that name.
- `plugins/blank/generate_blank_plugin.py` is a code generator doing file I/O and is not part of this model.

## Findings

| source | as written | input that shows it | evidently intended | confidence | as-written member | corrected member |
|---|---|---|---|---|---|---|
| lib/sampgdk/internal/hook.c:37-40 | the trampoline is `JMP_SIZE + MAX_INSN_LEN - 1` = 19 bytes, with room for four bytes and one instruction of up to 15 bytes, but not for the jump back written after them at line 247; and the decoder accepts instructions of up to 22 bytes, so the `memcpy` at line 232 can itself overflow | a hooked function starting `50 50 50 50 C7 84 …` (four PUSH r32, then MOV r/m32, imm32 with a SIB byte and disp32): the loop copies 15 bytes, and the jump back goes to bytes 15..19, past the 19-byte buffer. With five prefixes `F0 F2 F3 2E 36` before that MOV (`Hook.SourceCopyOverflows`), the instruction is 16 bytes and its copy already ends at byte 20 | room for four bytes, the longest instruction the decoder accepts (22) and the 5-byte jump back: 31 bytes | not executed | `Hook.SourceTrampolineOverflows` | `Hook.TrampolineFits` |
