# Verification of the KluxOS kernel algorithms

KluxOS is a small 32-bit kernel. This project models those of its parts that are
algorithms rather than hardware access, and proves what they are for:

* AES and CBC (`aes.c`): the tables, the field arithmetic, the in-place block code, the key
  schedule and the chaining loops, against FIPS 197 and NIST SP 800-38A.
* The round-robin scheduler (`process.c`): the linked process list, and what holds over
  every run of ticks, creations and terminations.
* Physical and virtual memory (`memory.c`, `memory_ext.c`): the frame bitmap, the two-level
  page tables, the allocator of frames on top of both, the bump heap and the table slots.
* The file tree (`fs.c`) and the file calls (`syscall.c`): sibling chains with parent links,
  the path walker, symbolic links, the descriptor table and the contents of files.
* The scrolling screen (`terminal.c`), the command line tokenizer (`shell.c`) and the bounded
  audit log (`audit.c`).

## How it is built

Each component comes in two layers. A specification module (`AesCipher`, `SchedulerSpec`,
`FsSpec`, `DescriptorSpec`, `ScreenSpec`, `TokenizerSpec`, `AuditSpec`, and the value types in
`PageTables`, `FrameAllocator` and `KernelHeap`) describes states as values, with a function for
every operation, and holds the theorems; `Prelude` has what several of them share, and
`AesExample` works out one block under one key. An imperative module has the form of the C
code: arrays changed in place, linked objects, loops. Every method there is proved to take
the abstract state to what the function says, so that the theorems are about it.

The code is modelled as it is written, also where it departs from what it is meant to do.
In each such place there is a lemma that says exactly when the intended property holds:

| place | what the code does | what is proved |
|---|---|---|
| aes.c:157-160 | `inv_mix_columns` repeats terms, which cancel | it undoes `mix_columns` on the zero column only; with the matrix of FIPS 197, section 5.3.3, the round trip holds for all keys and blocks; as written the zero block does not come back under the zero AES-128 key, worked out round by round |
| aes.c:331-361 | CBC decryption over its own input chains to the plaintext | it is right if and only if every block but the last is its own plaintext |
| process.c:101-103 | the list head becomes current without being marked | a RUNNING current process is followed by a RUNNING one if and only if it is not terminated; one that is not RUNNING is followed by a RUNNING one if and only if `process_schedule` is called while another process is READY; bounded waiting holds all the same |
| process.c:131-154 | a null current process is dereferenced | a run does so if and only if, after the list has been empty, `process_schedule` is called with a process listed or a slice ends with two; from numbers of processes, ticks and the emptying alone |
| memory.c:64-76, 85 | a full bitmap answers frame 0, not 0xFFFFFFFF | with descriptors in pages of their own, frames are conserved over a run if and only if no allocation finds the bitmap full |
| memory.c:101, 172-175 | a frame is recorded under its descriptor's own address, and `init_paging` takes 1024 neighbouring descriptors | frames are conserved at every time of a run if and only if no allocation finds the bitmap full or is in the page of another used descriptor; those of `init_paging` are in one page |
| memory.c:257-273 | the heap size is never looked at | all blocks lie in the heap if and only if the requests with padding fit |
| memory_ext.c:26-52 | NULL also stands for physical address 0 | exactly when `get_physaddr` answers NULL after a run of mappings |
| memory.c:380 | `krealloc` copies 256 bytes at most | a write splices its bytes into the text if and only if the bytes that were not copied happen to be there; for every content of new memory if and only if it does not grow the file, or it or the end of the file lies within 256 bytes |
| syscall.c:118, 274-283 | O_TRUNC leaves other descriptors behind the end, where `remaining` wraps | truncation keeps all offsets inside if and only if the descriptors of the file stand at its start |
| fs.c:34-37, 253 | a name is stored short but looked up in full | a created file is found by its path if and only if its parent is a directory without another child of that name and the name has up to 127 characters, or 128 with "." as the last |
| fs.c:277-289 | a directory path is cut at 255 characters | any path leads to the new file if and only if it ends with the stored name and what is before leads to where the file was created |
| shell.c:141, 174, 181-186 | with the last argument that has room, parsing stops, and the null pointer goes behind the vector of 64 entries | a printed list, with any blanks around the arguments, comes back if and only if there is room for one more, or for just as many and the last is printed bare at the end of the line; the null pointer fits if and only if the line has fewer arguments than there is room for |
| audit.c:80 | identifiers wrap at 2^32 | they increase within the log if and only if they do not wrap in it |

## Model

| member | source | states |
|---|---|---|
| AesField.XtimeAdd | KluxOS/src/security/aes.c:50-52 | `xtime` distributes over XOR |
| AesField.MulAdd | KluxOS/src/security/aes.c:50-52 | multiplication built from `xtime` distributes over XOR, for all factors |
| AesField.ReductionStep | KluxOS/src/security/aes.c:50-52 | `xtime` of x^7 times a byte is the reduction polynomial 0x1b times it |
| AesField.SmallFactors | KluxOS/src/security/aes.c:121-131 | multiplication by the factors 1, 2 and 3 of `mix_columns` is the byte, `xtime`, and their sum |
| AesField.DoubledFactors | KluxOS/src/security/aes.c:133-155 | multiplication by 4 and 8 is `xtime` twice and three times, as `inv_mix_columns` uses it |
| AesField.MulAssociates | KluxOS/src/security/aes.c:50-52 | multiplication in GF(2^8) built from `xtime` is associative |
| AesTables.SboxesAreInverse | KluxOS/src/security/aes.c:7-44 | the tables `sbox` and `rsbox` are inverse permutations of the 256 bytes |
| AesTables.SboxIsAffineOfInverse | KluxOS/src/security/aes.c:7-24 | `sbox` is the affine map of the field inverse, as FIPS 197 section 5.1.1 defines it |
| AesTables.RconArePowers | KluxOS/src/security/aes.c:46-48 | `rcon` holds the powers of x in GF(2^8) |
| AesColumns.CirculantCompose | KluxOS/src/security/aes.c:112-131 | circulant matrices over GF(2^8) multiply by their first rows |
| AesColumns.MixColumnIsMatrix | KluxOS/src/security/aes.c:112-131 | `mix_columns` is the matrix (2, 3, 1, 1) of FIPS 197 section 5.1.3 on every column |
| AesColumns.InvMixUndoesMix | KluxOS/src/security/aes.c:112-131 | the matrix of FIPS 197 section 5.3.3 and `mix_columns` are inverse on every column |
| AesColumns.MixColumnHasOrderFour | KluxOS/src/security/aes.c:112-131 | `mix_columns` three times is InvMixColumns, four times the identity |
| AesColumns.WrittenIsMatrix | KluxOS/src/security/aes.c:133-167 | `inv_mix_columns` as written applies the circulant matrix of (1, 9, 5, 5) |
| AesColumns.WrittenInverseUndoesMixIff | KluxOS/src/security/aes.c:133-167 | as written it undoes `mix_columns` if and only if the column is zero |
| AesRounds.Layers.RetracesIff | KluxOS/src/security/aes.c:246-295 | for any layers, decryption passes through the states of encryption down to a round if and only if the mixing of each of these rounds is undone |
| AesRounds.Layers.DecryptUndoesEncrypt | KluxOS/src/security/aes.c:246-295 | if every layer is undone then the backward loop undoes the forward loop, for any number of rounds |
| AesRounds.Layers.FrozenRetracesIff | KluxOS/src/security/aes.c:271-295 | if the mixing is undone on one state only: retracing if and only if there is one round or all rounds mix that state |
| AesRounds.Layers.FirstMixingDecides | KluxOS/src/security/aes.c:271-295 | when decryption has come back to round 2, the block returns if and only if the mixing of round 1 is undone |
| AesRounds.Layers.OneLiveRoundIff | KluxOS/src/security/aes.c:271-295 | if all rounds but the first mix the fixed state, the block returns if and only if the first does too |
| AesRounds.Layers.EncryptIgnoresUnmix | KluxOS/src/security/aes.c:246-269 | encryption does not depend on how mixing is undone |
| AesCipher.InvCipherUndoesCipher | KluxOS/src/security/aes.c:246-295 | with section 5.3.3, decryption undoes encryption for all round keys, all round counts and every block |
| AesCipher.EncryptionsAgree | KluxOS/src/security/aes.c:246-269 | encryption as written is that of FIPS 197 |
| AesCipher.WrittenUnmixIff | KluxOS/src/security/aes.c:133-167 | `inv_mix_columns` as written undoes `mix_columns` if and only if the state is zero |
| AesCipher.WrittenRetracesIff | KluxOS/src/security/aes.c:271-295 | decryption as written goes back through the states of encryption if and only if there is one round or the first input and all later keys but two are the fixed state |
| AesCipher.WrittenDecryptsIf | KluxOS/src/security/aes.c:271-295 | for all keys: if the first input and all later keys but two are the fixed state, the block returns |
| AesCipher.WrittenDecryptsIff | KluxOS/src/security/aes.c:271-295 | with two rounds, or when the later rounds mix only zero, the block returns if and only if the first round mixes zero |
| AesCipher.WrittenDecryptionLosesABlock | KluxOS/src/security/aes.c:271-295 | for every number of rounds from two on there are round keys with which decryption as written does not return the zero block |
| AesBlocks.LoadStore | KluxOS/src/security/aes.c:246-269 | reading sixteen bytes as a state and writing them back are inverse |
| AesBlocks.SubBytesInPlace | KluxOS/src/security/aes.c:54-58 | the loop over the array is SubBytes of the state |
| AesBlocks.InvSubBytesInPlace | KluxOS/src/security/aes.c:60-64 | the loop over the array is InvSubBytes |
| AesBlocks.ShiftRowsInPlace | KluxOS/src/security/aes.c:66-87 | the moves through one temporary are ShiftRows |
| AesBlocks.InvShiftRowsInPlace | KluxOS/src/security/aes.c:89-110 | the moves through one temporary are InvShiftRows |
| AesBlocks.MixColumnsInPlace | KluxOS/src/security/aes.c:112-131 | the loop mixes each of the four columns |
| AesBlocks.InvMixColumnsInPlace | KluxOS/src/security/aes.c:133-167 | the loop applies the written inverse to each column |
| AesBlocks.AddRoundKeyInPlace | KluxOS/src/security/aes.c:169-173 | the loop adds the round key at its place in the schedule |
| AesBlocks.EncryptState | KluxOS/src/security/aes.c:246-269 | the round loop on the array is the encryption of the round structure |
| AesBlocks.DecryptState | KluxOS/src/security/aes.c:271-295 | the backward round loop is the decryption of the round structure |
| AesBlocks.EncryptBlock | KluxOS/src/security/aes.c:246-269 | sixteen bytes of the output become the cipher of those of the input, also in place; no other byte changes |
| AesBlocks.DecryptBlock | KluxOS/src/security/aes.c:271-295 | the same for decryption as written |
| AesBlocks.BytesDecryptIf | KluxOS/src/security/aes.c:246-295 | on the bytes that the two functions write: under the condition of `WrittenDecryptsIf` the block comes back |
| AesBlocks.BytesDecryptIff | KluxOS/src/security/aes.c:246-295 | on these bytes: with two rounds, or when the later rounds mix only zero, the block comes back if and only if the first round mixes zero |
| AesKeys.TwistAt | KluxOS/src/security/aes.c:190-207 | the byte index tests of the loop select the cases of the word recurrence |
| AesKeys.ScheduleTemp | KluxOS/src/security/aes.c:186-207 | `temp` is the word that FIPS 197 section 5.2 adds, and `rcon` is indexed within its ten entries |
| AesKeys.StoreWord | KluxOS/src/security/aes.c:209-211 | the new word is the sum with the one Nk words before, within the 240 bytes |
| AesKeys.ExpandKey | KluxOS/src/security/aes.c:175-215 | the array is the word recurrence of FIPS 197 section 5.2, for the three key sizes |
| AesKeys.KeySize.RoundsOfWords | KluxOS/src/security/aes.c:223-239 | the rounds are six more than the words of the key, which are 4, 6 or 8 |
| AesKeys.ScheduleBeginsWithKey | KluxOS/src/security/aes.c:179-181 | a schedule begins with the bytes of the key |
| AesKeys.ScheduleGoesOn | KluxOS/src/security/aes.c:183-214 | for every key size each further word is the sum of the one Nk words before and of the last one, rotated, substituted and with a power of x where a group begins, substituted in the middle of a group of eight, else as it is |
| AesKeys.AesInit | KluxOS/src/security/aes.c:218-244 | -1 without context or key, -2 for other key lengths; else as many rounds as the key has words and six more, and four words of its schedule for each round and four more |
| AesKeys.WindowDeterminesKey | KluxOS/src/security/aes.c:175-215 | any Nk consecutive words of a schedule determine the key |
| AesKeys.TailDeterminesKey | KluxOS/src/security/aes.c:175-215 | the last bytes of the expanded key, as many as the key has, determine it |
| AesKeys.NoScheduleRetraces | KluxOS/src/security/aes.c:271-295 | with a schedule from `aes_init`, decryption as written never goes back through all states of encryption, for any key and block |
| AesExample.NextKeyOf | KluxOS/src/security/aes.c:175-215 | with AES-128 each round key of a schedule is made of the one before and one power of x |
| AesExample.ScheduledDecryptionLosesABlock | KluxOS/src/security/aes.c:246-295 | under the schedule of the zero AES-128 key the zero block becomes 66e94bd4ef8a2c3b884cfa59ca342b2e, and decryption as written makes another block of that |
| AesExample.ZeroBlockInBytes | KluxOS/src/security/aes.c:246-295 | under the schedule that `aes_init` makes of the zero AES-128 key, the sixteen bytes that both functions write for the zero block and its ciphertext |
| AesExample.ZeroBlockInCbc | KluxOS/src/security/aes.c:298-361 | with the zero IV, CBC of the zero block is that ciphertext, and its decryption as written those other bytes |
| AesCbc.XorBlocksIs | KluxOS/src/security/aes.c:316-318 | the sum of two blocks is the exclusive or of their bytes, and zero if and only if they are equal |
| AesCbc.CbcEncryptChains | KluxOS/src/security/aes.c:311-325 | the law of NIST SP 800-38A section 6.2, for every block: block k of the ciphertext is the encryption of block k of the text, XORed byte by byte with ciphertext block k-1, or with the IV for the first |
| AesCbc.CbcDecryptChains | KluxOS/src/security/aes.c:344-358 | block k of the text is the decryption of block k of the ciphertext, XORed with ciphertext block k-1, or with the IV |
| AesCbc.CbcDecryptInPlaceChains | KluxOS/src/security/aes.c:344-358 | over its own input it is XORed with block k-1 of the text instead |
| AesCbc.CbcRoundTripIff | KluxOS/src/security/aes.c:298-361 | CBC decryption undoes CBC encryption if and only if the block functions are inverse on the blocks of the chain |
| AesCbc.InPlaceDecryptionIff | KluxOS/src/security/aes.c:348-358 | decrypting over the input is right if and only if every block but the last is its own plaintext |
| AesCbc.EncryptCbc | KluxOS/src/security/aes.c:298-328 | status and, for whole blocks, CBC of the input in the output, also in place; nothing else changes |
| AesCbc.DecryptCbc | KluxOS/src/security/aes.c:331-361 | status and CBC decryption, or over its own input the chaining that then happens |
| AesCbc.CbcRoundTrip | KluxOS/src/security/aes.c:298-361 | with InvCipher, decryption returns every text of whole blocks for every IV and all round keys |
| AesCbc.WrittenCbcRoundTripIff | KluxOS/src/security/aes.c:298-361 | as written, CBC decryption brings a text back if and only if block decryption as written brings back every block of the chain |
| SchedulerSpec.SearchFindsNextReady | KluxOS/src/kernel/process.c:139-151 | the search loop ends at the first READY process in cyclic order, or where it began |
| SchedulerSpec.ScheduleIsRoundRobin | KluxOS/src/kernel/process.c:131-154 | the process picked is the first READY one after the current, or the current one if there is none |
| SchedulerSpec.CreateKeepsInv | KluxOS/src/kernel/process.c:50-79 | creation keeps the run invariant |
| SchedulerSpec.TerminateKeepsInv | KluxOS/src/kernel/process.c:81-112 | termination keeps the run invariant |
| SchedulerSpec.TerminateKeepsOrder | KluxOS/src/kernel/process.c:81-112 | the other processes keep their order |
| SchedulerSpec.ScheduleKeepsInv | KluxOS/src/kernel/process.c:114-154 | switching keeps the run invariant |
| SchedulerSpec.RunKeepsInv | KluxOS/src/kernel/process.c:50-192 | at every time of every run: none but the current is RUNNING, each process is listed once, the latest first |
| SchedulerSpec.StatesOverRuns | KluxOS/src/kernel/process.c:50-192 | at every time of every run from `process_init` all processes but the current are READY, none BLOCKED; the current one is RUNNING while none has been terminated as current, and else READY or RUNNING |
| SchedulerSpec.SwitchedAwayWaits | KluxOS/src/kernel/process.c:114-129 | a process that is switched away from is READY and waits for its turn |
| SchedulerSpec.CurrentIsNullIff | KluxOS/src/kernel/process.c:81-112 | the current process is null if and only if it was at the start or the list has been empty |
| SchedulerSpec.NoNullDereference | KluxOS/src/kernel/process.c:131-154 | a run whose list is never empty never dereferences null |
| SchedulerSpec.StepCounts | KluxOS/src/kernel/process.c:50-192 | one event: what it does to the number of processes, the ticks and the emptying of the list, and when it dereferences a null current process |
| SchedulerSpec.NullDereferenceIff | KluxOS/src/kernel/process.c:50-192 | a run dereferences a null current process if and only if these counts say so |
| SchedulerSpec.NullDereferenceHappens | KluxOS/src/kernel/process.c:131-154 | a run in which null is dereferenced |
| SchedulerSpec.PidsDecrease | KluxOS/src/kernel/process.c:50-79 | in every run from `process_init` with fewer than 2^32 creations, pids strictly decrease along the list |
| SchedulerSpec.ScheduleBringsNearer | KluxOS/src/kernel/process.c:131-154 | each pick brings a waiting process nearer, or picks it |
| SchedulerSpec.StepSpendsBudget | KluxOS/src/kernel/process.c:182-192 | each event spends its ticks of the waiting process's budget, across the wrap of the tick count |
| SchedulerSpec.BoundedWaiting | KluxOS/src/kernel/process.c:131-192 | a READY process becomes current within ten ticks for each place it is behind or is set back by |
| SchedulerSpec.StepBringsNearer | KluxOS/src/kernel/process.c:131-192 | one event: a call of `process_schedule`, by a tick or directly, brings a waiting process one place nearer, or picks it |
| SchedulerSpec.PicksBoundWaiting | KluxOS/src/kernel/process.c:131-192 | a READY process becomes current within as many calls of `process_schedule` as places it is behind or is set back by, whatever ticks and direct calls they come from |
| SchedulerSpec.ServedGetsToRun | KluxOS/src/kernel/process.c:114-129 | while no current process is terminated, a process that becomes current is RUNNING |
| SchedulerSpec.NoDelayBehindCurrent | KluxOS/src/kernel/process.c:72-76 | creations never set back what lies behind the current process |
| SchedulerSpec.RunsWithinTenTicksPerPlace | KluxOS/src/kernel/process.c:131-192 | such a process is RUNNING within ten ticks for each place, whatever is created meanwhile |
| SchedulerSpec.PickTurns | KluxOS/src/kernel/process.c:131-154 | with all in turn, a pick passes the turn to the next in the list, around its end, whatever was picked before |
| SchedulerSpec.CallsRotate | KluxOS/src/kernel/process.c:131-192 | over any ticks and direct calls the turn goes on by exactly as many places as there are picks; everyone else is READY |
| SchedulerSpec.PicksOfBeats | KluxOS/src/kernel/process.c:182-192 | of any number of ticks exactly every tenth picks, and each at which the count wraps around: no other slice is longer or shorter than ten |
| SchedulerSpec.BeatsRotate | KluxOS/src/kernel/process.c:131-192 | so that after any number of ticks it is known whose turn it is, around the list |
| SchedulerSpec.RunsAgain | KluxOS/src/kernel/process.c:114-192 | with ticks only, from any time on, every process is RUNNING again within ten ticks for each process in the list |
| SchedulerSpec.TerminatingCurrentLeavesNoneRunning | KluxOS/src/kernel/process.c:101-103 | when the current process is terminated the head takes over and none is RUNNING |
| SchedulerSpec.StaysRunningIff | KluxOS/src/kernel/process.c:81-192 | a RUNNING current process is followed by a RUNNING one if and only if it is not terminated |
| SchedulerSpec.RunsAgainIff | KluxOS/src/kernel/process.c:81-192 | a current process that is not RUNNING is followed by a RUNNING one if and only if the event calls `process_schedule` and another process is READY |
| Scheduler.Kernel.constructor | KluxOS/src/kernel/process.c:18-48 | the list is the running kernel process with pid 0, the next pid 1 and the tick count 0 |
| Scheduler.Kernel.Create | KluxOS/src/kernel/process.c:50-79 | the linked list gains a READY process in front, with the next pid |
| Scheduler.Kernel.Switch | KluxOS/src/kernel/process.c:114-129 | the states of the old and new current process change, unless there is nothing to switch to |
| Scheduler.Kernel.Schedule | KluxOS/src/kernel/process.c:131-154 | the loop over the links ends and is the abstract search |
| Scheduler.Kernel.Tick | KluxOS/src/kernel/process.c:182-192 | the tick count wraps; every tenth tick schedules if there are two processes |
| Scheduler.Kernel.Terminate | KluxOS/src/kernel/process.c:81-112 | the process is unlinked wherever it is, and the head takes over from it if it was current |
| FrameBitmap.WriteBit | KluxOS/src/kernel/mm/memory.c:40-53 | setting or clearing the bit of a frame changes no other frame |
| FrameBitmap.Bitmap.Initialize | KluxOS/src/kernel/mm/memory.c:151-158 | of the 32768 frames exactly the first 256 are taken |
| FrameBitmap.Bitmap.SetFrame | KluxOS/src/kernel/mm/memory.c:40-45 | the set of taken frames gains this one |
| FrameBitmap.Bitmap.ClearFrame | KluxOS/src/kernel/mm/memory.c:48-53 | the set of taken frames loses this one |
| FrameBitmap.Bitmap.TestFrame | KluxOS/src/kernel/mm/memory.c:56-61 | nonzero if and only if the frame is taken |
| FrameBitmap.Bitmap.FirstFreeFrame | KluxOS/src/kernel/mm/memory.c:64-76 | the least free frame of the whole words, or 0 if there is none |
| PageTables.EntryKeepsFlags | KluxOS/src/kernel/mm/memory_ext.c:43-52 | an entry says that its page is present, has the flags given and those of the offset of the physical address, and no others; its page and that offset make up the address |
| PageTables.SamePageIff | KluxOS/src/kernel/mm/memory_ext.c:26-52 | two addresses lie in one page if and only if both indices agree |
| PageTables.Space.MapThenGet | KluxOS/src/kernel/mm/memory_ext.c:26-52 | after a mapping exactly the addresses of the same table entry are translated by it |
| PageTables.Space.SameSlotIff | KluxOS/src/kernel/mm/memory_ext.c:43-52 | if no two present directory entries share a table, these are the addresses of the same page |
| PageTables.NullAfterRunIff | KluxOS/src/kernel/mm/memory_ext.c:26-52 | after any run of mappings NULL means absent, or mapped last to physical address 0 |
| PageTables.TablesRefineMap | KluxOS/src/kernel/mm/memory_ext.c:26-52 | after any run of mappings below present directory entries every address is translated by the latest mapping of its page, or as before |
| PageTables.OneTableIsSeparate | KluxOS/src/kernel/mm/memory_ext.c:26-52 | a directory of one table and 1023 zero entries shares no table |
| PageTables.SharedTableLeaks | KluxOS/src/kernel/mm/memory_ext.c:43-52 | if two directory entries share a table, a mapping under one moves a page of the other |
| PageTables.Memory.GetPhysaddr | KluxOS/src/kernel/mm/memory_ext.c:26-41 | the walk through the arrays is the abstract translation |
| PageTables.Memory.MapPage | KluxOS/src/kernel/mm/memory_ext.c:43-52 | the store into the table is the abstract mapping |
| FrameAllocator.FlagsSay | KluxOS/src/kernel/mm/memory.c:95-97 | the flags of a page say present, writeable if asked for, and the user's unless the kernel's; no others |
| FrameAllocator.AllocatedEntry | KluxOS/src/kernel/mm/memory.c:79-102 | after an allocation the table entry of the descriptor's page is the frame with exactly these flags, and no other entry has changed |
| FrameAllocator.Pool.AllocConservesIff | KluxOS/src/kernel/mm/memory.c:79-102 | an allocation conserves frames if and only if a frame is free and no other used descriptor lies in the page of this one |
| FrameAllocator.Pool.SharingLeaks | KluxOS/src/kernel/mm/memory.c:79-102 | in the page of another used descriptor an allocation leaks the frame of that one |
| FrameAllocator.Pool.FreeConserves | KluxOS/src/kernel/mm/memory.c:105-114 | freeing conserves frames, and clears the very bit of the descriptor, found through the page tables |
| FrameAllocator.Pool.FreeUndoesAlloc | KluxOS/src/kernel/mm/memory.c:79-114 | freeing undoes allocation |
| FrameAllocator.Pool.SharedPageFreesTheOther | KluxOS/src/kernel/mm/memory.c:79-114 | of two descriptors in one page, freeing the first frees the frame of the second, and only then |
| FrameAllocator.Pool.CountTaken | KluxOS/src/kernel/mm/memory.c:79-114 | the number of taken frames is that of the reserved ones and the used descriptors |
| FrameAllocator.RunConservesIff | KluxOS/src/kernel/mm/memory.c:40-114 | over any run on descriptors in pages of their own, frames are conserved if and only if no allocation found the bitmap full |
| FrameAllocator.AlwaysConservesIff | KluxOS/src/kernel/mm/memory.c:40-114 | over any run on any descriptors, frames are conserved at every time if and only if no allocation found the bitmap full or was in the page of another used descriptor |
| FrameAllocator.SharedRunConservesIff | KluxOS/src/kernel/mm/memory.c:40-114 | over any run that finds frames free, on any descriptors, frames are conserved if and only if no allocation was in the page of another used one |
| FrameAllocator.SharingMakesUpForRunningOut | KluxOS/src/kernel/mm/memory.c:40-114 | a run that runs out of frames and shares a page, after which frames are conserved again |
| FrameAllocator.EnoughFrames | KluxOS/src/kernel/mm/memory.c:64-102 | a run with as many free frames as operations never runs out |
| FrameAllocator.NeighboursLeak | KluxOS/src/kernel/mm/memory.c:172-175 | allocating for two descriptors in one page does not conserve frames although there are enough |
| FrameAllocator.InitPagingLeaks | KluxOS/src/kernel/mm/memory.c:165-219 | with the slots that `get_page` returns as descriptors, the loop of `init_paging` does not conserve frames |
| FrameAllocator.InitialPoolIs | KluxOS/src/kernel/mm/memory.c:117-163 | the bitmap that `init_memory` makes conserves the reserved frames, with no descriptor used |
| FrameAllocator.Manager.constructor | KluxOS/src/kernel/mm/memory.c:117-163 | that bitmap beside given page tables is a valid state, in which the reserved frames 0 to 255 are conserved |
| FrameAllocator.AllocatePages | KluxOS/src/kernel/mm/memory.c:165-184 | the loop of `init_paging` takes bitmap, page tables and descriptors through the run of its allocations |
| FrameAllocator.Manager.AllocFrame | KluxOS/src/kernel/mm/memory.c:79-102 | bitmap, page tables and descriptor change as the abstract allocation says |
| FrameAllocator.Manager.FreeFrame | KluxOS/src/kernel/mm/memory.c:105-114 | bitmap and descriptor change as the abstract release says |
| KernelHeap.BlocksInRange | KluxOS/src/kernel/mm/memory.c:257-273 | all blocks of a run that stays below 2^32 lie between the old and the new end of the heap |
| KernelHeap.BlocksDisjoint | KluxOS/src/kernel/mm/memory.c:257-273 | the blocks of any run of requests that stays below 2^32 never overlap |
| KernelHeap.BlocksAreTight | KluxOS/src/kernel/mm/memory.c:257-273 | in such a run aligned blocks begin at multiples of 4096 with less than a page of padding, others without any |
| KernelHeap.FitsIff | KluxOS/src/kernel/mm/memory.c:251-273 | all blocks lie in the heap if and only if the requests with padding fit, also for requests whose sum wraps around |
| KernelHeap.WrapReusesMemory | KluxOS/src/kernel/mm/memory.c:257-273 | beyond 2^32 a block is handed out twice |
| KernelHeap.NextKeepsTables | KluxOS/src/kernel/mm/memory.c:204-273 | one request or table keeps all tables aligned, apart and below the end of the heap |
| KernelHeap.RunKeepsTables | KluxOS/src/kernel/mm/memory.c:204-273 | over any run that fits, tables stay where they are |
| KernelHeap.SlotIs | KluxOS/src/kernel/mm/memory.c:204-219 | the slot of an address is the entry of its page in the table of its 4 MB; a new table takes the next 4096 aligned bytes of the heap; NULL if and only if there is no table and none is to be made |
| KernelHeap.SlotsAreStable | KluxOS/src/kernel/mm/memory.c:204-219 | a slot once returned is returned again after any run |
| KernelHeap.SlotsAreDistinct | KluxOS/src/kernel/mm/memory.c:204-219 | different pages have slots that do not overlap |
| KernelHeap.SlotsShareAPageIff | KluxOS/src/kernel/mm/memory.c:204-219 | two slots lie in one page if and only if they are in one table |
| KernelHeap.CallsShareAPage | KluxOS/src/kernel/mm/memory.c:172-219 | the 1024 calls of `get_page` in `init_paging` return different slots in one page |
| KernelHeap.Heap.Allocate | KluxOS/src/kernel/mm/memory.c:257-273 | address, its physical address if asked for, and the new end, with 32-bit wrap-around |
| KernelHeap.PageDirectory.GetPage | KluxOS/src/kernel/mm/memory.c:204-219 | the slot, and a new cleared table with its physical entry only if asked for and missing |
| FsSpec.SpanFromIs | KluxOS/src/kernel/fs.c:217-221 | where the component loop stops is determined by slash, end and 127 characters |
| FsSpec.ComponentsArePieces | KluxOS/src/kernel/fs.c:216-259 | the components read are the parts between slashes, cut into pieces of 127 characters, without the empty ones |
| FsSpec.ShortParts | KluxOS/src/kernel/fs.c:216-226 | with parts of up to 127 characters they are the nonempty parts |
| FsSpec.ComponentsConcat | KluxOS/src/kernel/fs.c:216-259 | a slash separates the components before it from those behind it |
| FsSpec.Tree.FindsFirst | KluxOS/src/kernel/fs.c:148-153 | a lookup finds the first child with that name, of a directory only |
| FsSpec.Tree.WalkDots | KluxOS/src/kernel/fs.c:228-241 | "." stays, ".." goes to the parent, or stays where there is none |
| FsSpec.Tree.RootResolves | KluxOS/src/kernel/fs.c:200-215 | the empty path, "/" and "." are the root, and so is the parent of the root |
| FsSpec.Tree.WalkThroughLink | KluxOS/src/kernel/fs.c:244-258 | the name of a link leads to its target, also if that is a link, one hop only; without a target nowhere |
| FsSpec.Tree.WalkConcat | KluxOS/src/kernel/fs.c:228-259 | walking a list of components is walking its front and then its rest |
| FsSpec.Tree.ResolveConcat | KluxOS/src/kernel/fs.c:200-262 | resolving p/q is resolving q from what p resolves to, for all p and q |
| FsSpec.Tree.ResolveThroughLink | KluxOS/src/kernel/fs.c:200-262 | for every path behind a link: it resolves from the target of the link, and ".." there is the parent of the target |
| FsSpec.FsTestResolves | KluxOS/src/kernel/fs.c:338-352 | in a tree with the directories, link and file of `fs_test`, the path it tries resolves to the file through the link, and ".." behind the link to the root |
| FsSpec.Tree.ResolveAt | KluxOS/src/kernel/fs.c:216-259 | one pass of the loop resolves one component and leaves the path behind it |
| FsSpec.Tree.FindDirInCreated | KluxOS/src/kernel/fs.c:64-83 | a new file is found by its name in its directory if no other child has it; no other lookup changes |
| FsSpec.Tree.WalkInCreated | KluxOS/src/kernel/fs.c:228-256 | what a new file changes in one step of a walk |
| FsSpec.Tree.CreationKeepsWalks | KluxOS/src/kernel/syscall.c:241-265 | every walk that succeeded still ends at the same node |
| FsSpec.Tree.ShadowedWalks | KluxOS/src/kernel/syscall.c:241-265 | if the name was taken or the parent is no directory, no walk changes |
| FsSpec.ResolveThroughDirectory | KluxOS/src/kernel/fs.c:200-293 | a path resolves through the part before its last slash, whatever its length |
| FsSpec.CreatedFileResolvesIff | KluxOS/src/kernel/syscall.c:227-265 | a created file is what its path resolves to if and only if its parent is a directory without another child of the stored name and the name not too long; every path that resolved before resolves to the same node |
| FsSpec.CutPathResolvesIff | KluxOS/src/kernel/fs.c:265-293 | with a name of up to 127 characters this is so for directory paths of any length, if and only if the whole of it leads to the directory in which the file is created; before the creation, unless it leads through the new file and back |
| FsSpec.ParentPathIs | KluxOS/src/kernel/fs.c:265-293 | of the part before the last slash the first 255 characters are resolved |
| FsSpec.WalksAreDetours | KluxOS/src/kernel/fs.c:216-259 | with the new file, components lead where they led before, apart from those that go into it and back out |
| FsSpec.NewFileResolvesIff | KluxOS/src/kernel/syscall.c:227-265 | for every path and every name: it leads to the new file if and only if the file can be found in its directory, the components without dots at the end end with its stored name, and those before lead to that directory |
| FsSpec.AddKeepsShape | KluxOS/src/kernel/fs.c:64-83 | adding a detached node keeps parents and chains in agreement, chains free of repetition, and children to directories |
| FsSpec.RemoveKeepsShape | KluxOS/src/kernel/fs.c:85-113 | removing a child keeps them too |
| FsSpec.RemoveThenAdd | KluxOS/src/kernel/fs.c:64-113 | a child removed and added again comes last, the others in their order; nothing has changed if and only if it was last |
| FsSpec.AddKeepsForestIff | KluxOS/src/kernel/fs.c:64-83 | adding makes no loop if and only if the parent does not lie below the node |
| FsSpec.RemoveKeepsForest | KluxOS/src/kernel/fs.c:85-113 | removing makes no loop |
| FsSpec.ChildlessSeparates | KluxOS/src/kernel/fs.c:27-62 | a node without children, as created, can be added anywhere |
| FsSpec.RootIsForest | KluxOS/src/kernel/fs.c:10-25 | the root alone has the shape and is a forest |
| FsSpec.RunKeepsForest | KluxOS/src/kernel/fs.c:64-113 | every run of creations, additions and removals keeps the shape and a forest |
| FileSystem.FileSystem.constructor | KluxOS/src/kernel/fs.c:10-25 | the tree is the root directory, with read and write permission |
| FileSystem.FileSystem.CreateNode | KluxOS/src/kernel/fs.c:27-62 | a detached node with the first 127 characters of the name and the read permission |
| FileSystem.FileSystem.CreateSymlink | KluxOS/src/kernel/fs.c:180-192 | a detached link to its target, or null without one |
| FileSystem.FileSystem.ReadLink | KluxOS/src/kernel/fs.c:194-198 | the target of a link, null for anything else |
| FileSystem.FileSystem.AddNode | KluxOS/src/kernel/fs.c:64-83 | the walk to the last sibling and the links make the child the last; a parent that is no directory takes none |
| FileSystem.FileSystem.RemoveNode | KluxOS/src/kernel/fs.c:85-113 | 0 if and only if the node is a child; then it is unlinked and detached, else nothing changes |
| FileSystem.FileSystem.FindDir | KluxOS/src/kernel/fs.c:148-153 | the first child with the name, null if there is none or the node is no directory |
| FileSystem.FileSystem.ResolvePath | KluxOS/src/kernel/fs.c:200-262 | the character loop ends on every path and is the walk along its components |
| FileSystem.FileSystem.GetParentDir | KluxOS/src/kernel/fs.c:265-293 | what the part before the last slash, cut at 255 characters, resolves to |
| DescriptorSpec.WrittenByte | KluxOS/src/kernel/syscall.c:170-196 | every byte of the text after a write |
| DescriptorSpec.WriteSplicesIff | KluxOS/src/kernel/syscall.c:170-196 | a write, also behind the end of the file, lays its bytes over the text, zeros before them if need be, and changes nothing else if and only if no byte that was not copied has become another |
| DescriptorSpec.AlwaysSplicesIff | KluxOS/src/kernel/mm/memory.c:361-387 | it does so for every content of new memory if and only if it does not grow the file, or begins within 256 bytes, or the file ends within them |
| DescriptorSpec.WriteSplicesAtOffset | KluxOS/src/kernel/syscall.c:134-206 | a write at any offset: it fails if and only if the descriptor is neither standard output nor open for a file with the write permission; else the bytes are laid over the text at the offset under that condition, the offset moves behind them, and no other file or descriptor changes |
| DescriptorSpec.ReadsInsideIff | KluxOS/src/kernel/syscall.c:118-119 | the bytes read lie within the file if and only if the offset does; the size read behind the end |
| DescriptorSpec.ReadFetches | KluxOS/src/kernel/syscall.c:70-131 | a read fails if and only if the descriptor is not open or the file lacks the read permission; else every byte it returns, how many, and where the offset then stands, also behind the end of the file; nothing else changes |
| DescriptorSpec.TruncationKeepsOffsetsIff | KluxOS/src/kernel/syscall.c:274-283 | truncation keeps all offsets inside if and only if all descriptors of the file stand at its start |
| DescriptorSpec.StepKeepsOffsets | KluxOS/src/kernel/syscall.c:70-329 | every other call keeps all offsets inside, and every read returns bytes of the file |
| DescriptorSpec.Run | KluxOS/src/kernel/syscall.c:70-329 | over every orderly run, with creations, each descriptor is at least 3, has a file, and stands within it, and no file is lost |
| DescriptorSpec.RunKeepsReadOnly | KluxOS/src/kernel/syscall.c:161-164 | no run writes a file without the write permission |
| DescriptorSpec.CreatedStaysEmpty | KluxOS/src/kernel/syscall.c:241-265 | a file that O_CREAT has made is empty after every run, since it has no write permission |
| DescriptorSpec.StepKeepsOthers | KluxOS/src/kernel/syscall.c:70-329 | a call leaves all other descriptors as they are, and opening takes none that is open |
| DescriptorSpec.OpensLowestIff | KluxOS/src/kernel/syscall.c:209-300 | opening fails if and only if the 29 entries are in use, and else takes the lowest, at the start or at the end |
| DescriptorSpec.CloseFrees | KluxOS/src/kernel/syscall.c:303-329 | closing succeeds if and only if the descriptor is open; it is closed then, all others and the files stay, and the next file opened takes it or a lower one |
| DescriptorSpec.CloseUndoesOpen | KluxOS/src/kernel/syscall.c:227-329 | closing what was opened without truncation undoes the opening |
| DescriptorSpec.ReadsAreConsecutive | KluxOS/src/kernel/syscall.c:117-130 | successive reads return consecutive slices of the text, together what one read would |
| DescriptorSpec.WritesAppendIff | KluxOS/src/kernel/syscall.c:170-199 | of any writes from the end of a file each appends its bytes if and only if every new block holds the text that `krealloc` did not copy; the file then gains all their bytes |
| DescriptorSpec.AlwaysAgreeIff | KluxOS/src/kernel/mm/memory.c:361-387 | whatever new blocks hold, they all append if and only if each that has bytes begins within 256 |
| DescriptorSpec.OpenThenReadAll | KluxOS/src/kernel/syscall.c:102-300 | a file opened and read to the end gives its text |
| DescriptorSpec.WriteThenReadBack | KluxOS/src/kernel/syscall.c:102-300 | what writes have appended to an empty file is read back through a second descriptor, by any reads |
| SystemCalls.SystemCalls.constructor | KluxOS/src/kernel/syscall.c:12-19 | no descriptor is open at first |
| SystemCalls.SystemCalls.Close | KluxOS/src/kernel/syscall.c:303-329 | -1 for standard, unused and impossible descriptors, else the entry is cleared |
| SystemCalls.SystemCalls.FindFreeFd | KluxOS/src/kernel/syscall.c:209-216 | the first unused entry from 3 on, or -1 |
| SystemCalls.SystemCalls.Read | KluxOS/src/kernel/syscall.c:70-131 | the bytes of the abstract read in front of the buffer, also behind the end of the file, the rest as before, and the offset moved on |
| SystemCalls.SystemCalls.Write | KluxOS/src/kernel/syscall.c:134-206 | contents, length and offset change as the abstract write says, through `krealloc` as written, also behind the end of the file |
| SystemCalls.SystemCalls.OpenNode | KluxOS/src/kernel/syscall.c:274-300 | truncation comes first, also if the table is full; then the lowest entry is taken |
| SystemCalls.SystemCalls.CreateFile | KluxOS/src/kernel/syscall.c:241-265 | the tree gains a readable empty file behind the last slash of the path |
| SystemCalls.SystemCalls.Open | KluxOS/src/kernel/syscall.c:227-300 | all outcomes: what is found and opened, what is created, and when nothing changes |
| ScreenSpec.EntryHalves | KluxOS/src/drivers/terminal.c:15-17 | the low half of a cell is the character, the high half the colour |
| ScreenSpec.WrappedExtended | KluxOS/src/drivers/terminal.c:153-159 | one more character in a wrapped line changes one cell, and adds a row at column 80 |
| ScreenSpec.NewLineShows | KluxOS/src/drivers/terminal.c:50-56 | a newline begins a line in the layout, scrolling or not |
| ScreenSpec.PlainShows | KluxOS/src/drivers/terminal.c:153-159 | a character extends the last line of the layout |
| ScreenSpec.TabShows | KluxOS/src/drivers/terminal.c:79-83 | a tab extends it by four spaces |
| ScreenSpec.WriteShows | KluxOS/src/drivers/terminal.c:143-170 | a text without returns and backspaces written to a fresh screen is laid out line by line, wrapped at column 80 |
| ScreenSpec.ScreenIsEndOfLayout | KluxOS/src/drivers/terminal.c:50-170 | for such a text the 80 by 25 cells are the last 25 rows of the layout, and the cursor is behind its end |
| ScreenSpec.LastAtIs | KluxOS/src/drivers/terminal.c:143-163 | the character shown at a place is the last that the text puts there |
| ScreenSpec.PutShowsText | KluxOS/src/drivers/terminal.c:50-159 | one more character, newline or return changes the document as the text says |
| ScreenSpec.WriteExpanded | KluxOS/src/drivers/terminal.c:79-83 | a tab in any text is the same as four spaces |
| ScreenSpec.ScreenShowsText | KluxOS/src/drivers/terminal.c:50-170 | for every text without backspaces, with newlines, returns, tabs and wrapping: each of the 80 by 25 cells is the last character that the text puts there, or blank, and height and cursor are those at the end of the text |
| ScreenSpec.BackUndoesPlain | KluxOS/src/drivers/terminal.c:59-70 | a backspace after a character goes back to its cell and blanks it, also over a row's end and after scrolling |
| ScreenSpec.BackspacesBlank | KluxOS/src/drivers/terminal.c:59-70 | any number of backspaces blanks as many cells before the cursor, over the starts of rows, but none above the screen |
| ScreenSpec.ReturnOverwrites | KluxOS/src/drivers/terminal.c:147-148 | text after a return within a row is laid over what was there; what it does not cover stays |
| ScreenSpec.OneLine | KluxOS/src/drivers/terminal.c:143-170 | a text without newlines and tabs is one line |
| Screen.Terminal.constructor | KluxOS/src/drivers/terminal.c:20-36 | all cells blank, the cursor at the top left |
| Screen.Terminal.SetColor | KluxOS/src/drivers/terminal.c:39-41 | only what is written later changes its colour |
| Screen.Terminal.PutEntryAt | KluxOS/src/drivers/terminal.c:44-47 | one cell changes |
| Screen.Terminal.Scroll | KluxOS/src/drivers/terminal.c:86-105 | the rows move up in place and as many blank ones follow; with more lines than rows nothing changes |
| Screen.Terminal.NewLine | KluxOS/src/drivers/terminal.c:50-56 | the cells stay the last 25 rows of the document |
| Screen.Terminal.Backspace | KluxOS/src/drivers/terminal.c:59-70 | one cell back, over the start of a row, but not above the screen |
| Screen.Terminal.MoveCursor | KluxOS/src/drivers/terminal.c:194-213 | the cursor moves if the place is on the screen |
| Screen.Terminal.PutTab | KluxOS/src/drivers/terminal.c:79-83 | four spaces, with wrapping |
| Screen.Terminal.PutChar | KluxOS/src/drivers/terminal.c:143-163 | for every byte the cells stay the last 25 rows of the document, and the cursor in range |
| Screen.Terminal.Write | KluxOS/src/drivers/terminal.c:166-170 | so they do for every text |
| TokenizerSpec.OnlyDelimitersChange | KluxOS/src/shell/shell.c:141-172 | only blanks and quotes become NULs, and every other byte stays |
| TokenizerSpec.StartsIncrease | KluxOS/src/shell/shell.c:141-172 | arguments begin one behind the other within the line, no more than there is room for |
| TokenizerSpec.RoomCuts | KluxOS/src/shell/shell.c:141-172 | with less room exactly the first arguments are found |
| TokenizerSpec.NullFitsIff | KluxOS/src/shell/shell.c:134-186 | the null pointer behind the arguments lies within the vector if and only if the line has fewer of them than there is room for |
| TokenizerSpec.QuoteInWord | KluxOS/src/shell/shell.c:142-172 | a quote within a bare word neither ends it nor goes away: what follows belongs to the word, blanks too, up to the same quote, which becomes a NUL |
| TokenizerSpec.ParsePrinted | KluxOS/src/shell/shell.c:134-177 | what parsing makes of a printed list with any blanks around the arguments, for every room: the arguments, and from the last that has room on the rest of the line |
| TokenizerSpec.RoundTripIff | KluxOS/src/shell/shell.c:134-177 | such a list comes back if and only if there is room for one more, or for as many and the last is bare and ends the line |
| Tokenizer.ParseChar | KluxOS/src/shell/shell.c:142-171 | flags, line and vector after one character |
| Tokenizer.ParseArgs | KluxOS/src/shell/shell.c:134-177 | line and vector in place are the abstract parse, followed by the null pointer; all else is unchanged |
| AuditSpec.AddIs | KluxOS/src/security/audit.c:63-95 | an event is logged if and only if the level is not 0 and not below its own, and there is a log; then it is the last, with all that was asked for, the message cut at 255 characters, and a full log has lost its first |
| AuditSpec.SetLevelIs | KluxOS/src/security/audit.c:32-61 | the levels 0 to 4 are set and no others; a change to less than 3 leaves no event |
| AuditSpec.InitIs | KluxOS/src/security/audit.c:15-30 | a new log holds the boot event with identifier 1 if and only if the level is at least 3 |
| AuditSpec.RunStaysWithinLevel | KluxOS/src/security/audit.c:15-95 | over every run: while the level never exceeds a bound, no event above it is in the log, and none at all if the bound is 0 |
| AuditSpec.StepHoldsLast | KluxOS/src/security/audit.c:32-95 | one call lets a request pass or not, and drops the oldest event of a full log |
| AuditSpec.RunHoldsLast | KluxOS/src/security/audit.c:15-95 | after any calls the log is the last 1024 accepted events in order, with consecutive identifiers |
| AuditSpec.IdsIncreaseIff | KluxOS/src/security/audit.c:79-80 | identifiers increase in the log if and only if they do not wrap in it |
| AuditSpec.MatchingIs | KluxOS/src/security/audit.c:166-170 | exactly the identifiers of matching events are found |
| AuditSpec.FindIncreases | KluxOS/src/security/audit.c:156-174 | a search returns the first matching identifiers in strictly increasing order, all if there are not too many |
| Audit.AuditLog.constructor | KluxOS/src/security/audit.c:8-11 | no log yet, level INFO |
| Audit.AuditLog.Init | KluxOS/src/security/audit.c:15-30 | an empty log with the boot event if the level lets it pass |
| Audit.AuditLog.SetLevel | KluxOS/src/security/audit.c:32-61 | the level, if it is one, and the event that records it |
| Audit.AuditLog.DropFirst | KluxOS/src/security/audit.c:73-75 | the in-place shift drops the first event |
| Audit.AuditLog.Add | KluxOS/src/security/audit.c:63-95 | status, and the array shifted if full and extended by the event |
| Audit.AuditLog.FindEvents | KluxOS/src/security/audit.c:156-174 | -1 without events or results, else the identifiers found in front of the results, the rest unchanged |

## Left out

- AesCipher.WrittenDecryptsIff: for three and more rounds it has the condition that the later rounds mix only zero; whether decryption as written can return a block after passing through other states is not decided. `WrittenDecryptsIf`, `WrittenRetracesIff` and `NoScheduleRetraces` hold without it.
- FsSpec.CreatedFileResolvesIff: for directory paths of up to 255 characters, since `fs_get_parent_dir` cuts longer ones; `NewFileResolvesIff` has every path and every name.
- ScreenSpec.ScreenIsEndOfLayout: for texts without returns, which have no lines to lay out; `ScreenShowsText` has them.
- FrameAllocator.SharedRunConservesIff: for runs that find frames free; at the end of other runs frames can be conserved again, as `SharingMakesUpForRunningOut` shows. `AlwaysConservesIff` has every run.
- FileSystem.FileSystem.AddNode: for a node that is in no directory and is not its own parent; adding a node twice joins two chains, which the source does not guard against.
- FileSystem.FileSystem.FindDir: the `finddir`, `read`, `write`, `open` and `close` hooks are set to the functions that call them and would recur for ever; lookup is modelled as the first child with that name, and reading and writing as the branches over `contents`.
- KernelHeap.BlocksDisjoint: for runs that stay below 2^32; `WrapReusesMemory` shows what happens beyond. So it is with BlocksInRange and BlocksAreTight.
- SystemCalls.SystemCalls.Read: what lies in memory behind the block of a file is a parameter.
- SystemCalls.SystemCalls.Write: for writes that end below 2^32, where buffer and contents share one address space; what goes to descriptors 1 and 2 is not kept. Modification times are left out.
- FrameAllocator.Manager.AllocFrame: its test for 0xFFFFFFFF, which no answer of `first_free_frame` equals, is left out.
- Tokenizer.ParseArgs: for lines with fewer arguments than the vector has entries; with 64 arguments `shell_execute_command` writes the null pointer behind its vector, and what lies there is not modelled.
- Contents of files are sequences that the node's field takes as a whole; that `memcpy` changes them in place is not visible.
- Names, entry points, stacks and contexts of processes; null arguments of `process_create` and `syscall_open`; failing `kmalloc`, which cannot fail.
- `strcmp`, `strrchr`, `memcpy` and `memset` are not part of this model beyond their meaning.
- Readdir, permission checks by user and group, `fs_test` but for the path that it tries; standard input in `syscall_read`, which no descriptor reaches since entry 0 is never used; fork, exec, sleep, malloc and free calls.
- The other clearing functions, number printing, `terminal_printf` and line input of `terminal.c`, and the hardware cursor.
- Printing of the audit log, the other shell functions, `security.c`, firewall, access lists, the toy ciphers, keyboard and interrupt tables: easy or wiring only.
- `kfree` and the leak check, page faults, the paging registers, port input and output, drivers and boot code.
