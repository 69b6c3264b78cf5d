# Verified models of the kernel heap, page tables, hashes, terminal and string code

This project models the parts of Blacklight whose correctness is least obvious, and proves what they promise. It is
self-contained: `dafny verify dfyconfig.toml` checks all of it.

| file | what it models |
|---|---|
| `Sbrk.dfy`, `HeapModel.dfy`, `HeapOps.dfy` | the heap as a value: the break, the free ring, live blocks, chunks and tables; the operations on it; the invariant; runs |
| `HeapMemory.dfy`, `KernelHeap.dfy` | the allocator over memory: `ptr` and `size` fields at addresses, and the class whose methods are `sbrk`, `morecore`, `malloc` and `free` |
| `MemoryMap.dfy`, `PageTables.dfy`, `PageBuild.dfy` | the boot loader's memory map, the page directory and tables built from it over memory from `sbrk`, and the processor's walk |
| `Sha1Spec.dfy`, `Sha1Rounds.dfy`, `Sha1.dfy`, `Pbkdf2.dfy` | FIPS 180-4, RFC 2104 and RFC 8018 as functions, and the streaming in-place code that computes them |
| `Sha1Trace.dfy`, `KnownAnswers.dfy` | SHA-1 worked out round by round, and published results for a digest, a MAC and a derived key |
| `Base64.dfy` | RFC 4648, section 4, and the bounded encoder and decoder |
| `VgaColor.dfy`, `VgaPage.dfy`, `VgaCells.dfy` | colours, the page a terminal shows, and the cells of its buffer |
| `VgaEscapes.dfy`, `VgaSafety.dfy`, `VgaTokens.dfy`, `VgaOddities.dfy` | what a text with escape sequences means, for which texts the parser ends, well-formed texts, and others |
| `VgaReading.dfy`, `Vga.dfy` | how far the parser has come, and the terminal itself |
| `Calendar.dfy`, `CInt.dfy` | the calendar and `time_timestamp`; C's 32-bit integers |
| `Numerals.dfy`, `SignedNumerals.dfy` | numbers as text and back |
| `Strtok.dfy` | the searches in strings and the two tokenizers |

How it is arranged. Where the C code changes things step by step, the model is a method or a class with the same
branches and loops, proved equal to a function; what the code is for is then proved of that function. A long C function
may be cut into several methods, one for each of its loops or branches.

What both the code and its specification use, such as a constant, a table, a rotation or a byte order, is also stated in
plain numbers or compared with a published result, so that it cannot be wrong in both.

Conventions. Memory of the kernel is an array indexed by byte address that holds a 32-bit word at each 4-aligned address,
so a header is the two words at `a` and `a + 4`. Blocks are counted in 8-byte units and start at multiples of 4, since
the 8196-byte page directory moves the break to 4 modulo 8. `_crash` does not return: it is the outcome None. The static
header `base` lies below the arena. Signed overflow in `time_timestamp` and `itoa` is taken to wrap, as it does on the
machine. Characters are bytes, and where C compares or widens them as signed, so does the model. NULL is None or 0.

What the proofs found. These are statements of the project, each with an exact condition or a concrete case:

- `sbrk` and `morecore` are right exactly while sums and products stay below 2^32 (`Sbrk.BrkFreshIff`,
  `Sbrk.CoreIsWholeIff`, with `Sbrk.BrkWrapExample` and `Sbrk.CoreWrapExample` for cases in which they do not). The test
  of `morecore` for -1 can never succeed (`Sbrk.NeverMinusOne`, `KernelHeap.Kernel.NewChunk`), nor that of `malloc` for
  NULL (`KernelHeap.Kernel.Morecore`).
- `malloc` has room for what was asked exactly when rounding the size up does not wrap (`HeapOps.MallocInv`); for
  0xFFFFFFFF bytes it hands out a header alone (`HeapOps.MallocHuge`).
- `mm_create_mmap` halts exactly when directory and tables do not fit below 64 MiB (`PageBuild.BuildTables`).
- The padding of SHA-1 is right exactly below 2^32 bytes (`Sha1.PaddingExactIff`).
- A `[` directly after the `m` of a sequence is swallowed and opens the same sequence again (`VgaTokens.PlayIsDrawIff`).
- A broken sequence is drawn as it stands: its first two bytes, and then the inner loop goes on at the third. If that is a
  `[` and the parameters read from there break too, the loop is back where it was, and is never left
  (`VgaSafety.LoopsForEver`, `VgaSafety.EndlessIsEndless`). `VgaSafety.FateOf` says of any text, by its bytes, whether
  this happens, whether the ten parameters are overrun or one of them overflows an `int`, or neither, and
  `VgaSafety.PlayFate` that this is exact; `VgaSafety.EscapeExample` and `VgaSafety.SingleByteExample` are texts that never
  end. Parameters are not reset by the rewind, so while the loop comes back they go on growing if there are digits or
  semicolons among them; `VgaSafety.LoopsForEver` is about control, which never looks at them.
- `time_timestamp` takes February for 28 days long in the very month of a leap year before 1970, and its product is an
  `int` (`Calendar.ComputedIsInstant`).
- `itoa` of the least `int` in base 10 writes a text that ends in 28, not in 48 (`SignedNumerals.LeastText`); of the other
  bases it is right for that number in 2, 4 and 16 only (`SignedNumerals.OtherBases`).

## Model

| member | source | states |
|---|---|---|
| Sbrk.BrkMeaning | kernel/mm.c:113-128 | One call of `sbrk`, for any size and alignment: it halts exactly when no cap up to 64 MiB lies above the (wrapped) new break; otherwise it grants from the aligned old break and doubles the cap no more than needed, at most twice. |
| Sbrk.BrkInNumbers | kernel/mm.c:113-128 | The same in plain numbers: 4 KiB alignment, caps of 16, 32 and 64 MiB, sums modulo 2^32. |
| Sbrk.BrkFreshIff | kernel/mm.c:118-120 | The region granted is the fresh stretch of `size` bytes if and only if the 32-bit sum of break and size does not wrap; when it wraps, the break moves backwards. |
| Sbrk.BrkWrapExample | kernel/mm.c:118-120 | A request of 0xFFF00000 bytes with the break at 2 MiB wraps: it is granted, and the break is then at 1 MiB. |
| Sbrk.NeverMinusOne | kernel/mm.c:185-186 | No call of `sbrk` returns -1, the value `morecore` tests for; it halts instead. |
| Sbrk.CoreIsWholeIff | kernel/mm.c:185-192 | `morecore` gets all the bytes of the chunk it then believes in if and only if neither the product with the header size nor the sum wraps. |
| Sbrk.CoreWrapExample | kernel/mm.c:198-198 | A request of 0xFFFFFFF8 bytes asks for 2^29 units, whose bytes wrap to none, and `sbrk` grants them. |
| HeapOps.NextFitFinds | kernel/mm.c:204-221 | The walk from `freep` finds the first block in ring order that is big enough, and fails only when every block of the ring is too small. |
| HeapOps.TakeInv | kernel/mm.c:206-216 | Taking units from the tail of a free block, or unlinking it whole, keeps the invariant and every live block. |
| HeapOps.TakeMeans | kernel/mm.c:207-216 | The block handed out is the end of the one it is taken from; that one stays where it is with the rest, or leaves the ring; `freep` is then the block before it. |
| HeapOps.ReleaseInv | kernel/mm.c:223-245 | `free` of any live block keeps the invariant: address order, full coalescing with either or both neighbours, disjointness, and the partition of bytes and units. |
| HeapOps.ReleaseMeans | kernel/mm.c:228-244 | After `free` `freep` is the last block below the one given back, merged with it or not; nothing else is taken or given. |
| HeapModel.GapIsGap | kernel/mm.c:228-230 | The place the search of `free` looks for exists and is unique: the last block below the address. |
| HeapModel.AbsorbAscending | kernel/mm.c:232-242 | Inserting a block and merging it with its upper and lower neighbour leaves the ring in address order with no two blocks touching, though only the two neighbours are looked at. |
| HeapModel.AbsorbSums | kernel/mm.c:232-242 | Inserting and merging conserves every byte and every unit. |
| HeapOps.GrowFits | kernel/mm.c:218-219 | After growth the resumed walk always finds a block, also when the new chunk merged into `freep` itself. |
| HeapOps.GrowTakes | kernel/mm.c:182-191 | Growth takes one chunk at the old break, of the units needed but at least 1024, and halts exactly when it would end at or above 64 MiB. |
| HeapOps.MallocTakes | kernel/mm.c:198-216 | `malloc` takes from the first block after `freep`, in ring order, that has the units for the size, header included. |
| HeapOps.MallocGrows | kernel/mm.c:218-220 | Only when no block has them does it grow, and then takes from the first that has them after growth. |
| HeapOps.MallocInv | kernel/mm.c:194-221 | For every 32-bit size `malloc` keeps the invariant and every earlier live block and hands out one more, with less than a header to spare; its payload has room for `size` bytes if and only if rounding the size up does not wrap. |
| HeapOps.MallocHuge | kernel/mm.c:198-198 | A size that does wrap: for 0xFFFFFFFF bytes the heap stays intact and the block handed out is a header alone. |
| HeapOps.TakeTableInv | kernel/mm.c:113-128 | A direct page-aligned `sbrk` keeps the invariant; its region is clear of every chunk, so the arena need not be contiguous. |
| HeapOps.StepInv | kernel/mm.c:113-245 | Each of `malloc`, `free` of a live block and page-aligned `sbrk` keeps the whole invariant. |
| HeapOps.RunsKeepPartition | kernel/mm.c:113-245 | In every state any run can reach: each byte `morecore` ever obtained is in exactly one free or live block and no other byte is in any; units are conserved; no table byte is in a block; no two free blocks touch; the break is below a cap of at most 64 MiB. |
| HeapMemory.RingIsOneCycle | kernel/mm.c:194-245 | Following the `ptr` fields in memory from `freep` meets every free block and the base at exactly one step each, and then comes back. |
| HeapMemory.OneDescent | kernel/mm.c:228-230 | Round the ring in memory addresses rise at every link but exactly one. |
| HeapMemory.OwnIsPrivate | kernel/mm.c:113-245 | The allocator's own cells (the base header and the free blocks) are in no live block and in no table. |
| HeapMemory.AbsorbLinked | kernel/mm.c:232-242 | The stores that link in and merge a block leave memory holding exactly the new ring. |
| HeapMemory.TakeLinked | kernel/mm.c:207-213 | The stores that unlink or split a block leave memory holding exactly the new ring. |
| KernelHeap.Kernel.constructor | kernel/mm.c:18-19 | The start: an empty heap at the end of the kernel image, under a cap of 16 MiB. |
| KernelHeap.Kernel.Sbrk | kernel/mm.c:113-128 | The recursive method computes the specified outcome and break. |
| KernelHeap.Kernel.Seek | kernel/mm.c:228-230 | The search over the links in memory ends within one trip of the ring, at the unique gap. |
| KernelHeap.Kernel.Join | kernel/mm.c:232-242 | The stores of `free` after its search: exactly the memory `Joined`, whichever neighbours are merged with. |
| KernelHeap.Kernel.Free | kernel/mm.c:223-245 | Over the links and sizes in memory `free` does exactly what the specification `Release` says, stores into the allocator's own cells only, and alters no word of any remaining live block or table. |
| KernelHeap.Kernel.NewChunk | kernel/mm.c:178-190 | The chunk of `morecore`: granted exactly when the specification of `sbrk` grants it, made to look like a live block by one store, and never at the address -1. |
| KernelHeap.Kernel.Morecore | kernel/mm.c:178-192 | A chunk of at least 1024 units from `sbrk`, freed into the ring, past which the break has moved: exactly the specification `Grow`, halting when it does; what it returns is `freep`, which is not NULL. |
| KernelHeap.Kernel.Search | kernel/mm.c:204-221 | The loop over the links ends; it grows at most once, and only when no block of the ring is big enough; its outcome is exactly the specification's. |
| KernelHeap.Kernel.Malloc | kernel/mm.c:194-221 | Over memory, and for every 32-bit size, `malloc` does exactly what the specification says, returns the payload of the new block, and alters no word of any earlier live block or table. |
| KernelHeap.PrivateUntouched | kernel/mm.c:223-245 | A call that stores only into the allocator's own cells alters neither header nor payload of a live block, nor a table. |
| KernelHeap.StopsAtGap | kernel/mm.c:228-230 | The two exit conditions of the search of `free` hold at the gap and nowhere else. |
| MemoryMap.MarkRegions | kernel/mm.c:30-74 | The per-MiB map ends up holding the specified mark of every MiB. |
| MemoryMap.MarkLong | kernel/mm.c:50-59 | The downward loop over a region marks exactly the MiBs it covers, also when it runs round the end of the address space. |
| MemoryMap.CoversInNumbers | kernel/mm.c:39-45 | Passed over are entries of kind 0, above 4 GiB and beginning below 1 MiB; every other entry marks the MiB it begins in, and one shorter than a MiB no other. |
| MemoryMap.CoversRound | kernel/mm.c:50-59 | A longer one marks as many MiBs as it fully holds, from there on and round the end of the address space, and no other. |
| MemoryMap.MarkOfOne | kernel/mm.c:45-45 | The mark it leaves is the low byte of its kind. |
| MemoryMap.LastCoverWins | kernel/mm.c:39-74 | A MiB has the kind of the last entry that covers it. |
| MemoryMap.NoCoverNoMark | kernel/mm.c:30-31 | A MiB no entry covers stays unmarked, the first one stays 0xFF. |
| MemoryMap.CoversInterval | kernel/mm.c:50-59 | A region that does not wrap covers a plain interval of whole MiBs from the one it starts in. |
| PageTables.WalkIsIdentity | kernel/mm.c:92-106 | The processor's two-level walk of the finished tables is present for a page exactly when its MiB is marked, and then gives the same frame. |
| PageTables.RightsAreGiven | kernel/mm.c:97-103 | On the way to every page of a marked MiB both entries say present, writable and open to user code. |
| PageTables.FillMib | kernel/mm.c:99-104 | The loop over the pages of a MiB fills in its 256 entries and disturbs nothing below the tables. |
| PageBuild.NewRegion | kernel/mm.c:84-85 | A page-aligned region, cleared; it halts exactly when the region would end at or above 64 MiB, and nothing else in memory changes. |
| PageBuild.EnsureTable | kernel/mm.c:94-98 | If the stretch has its table nothing happens at all. If not, one is allocated on a page of its own, cleared, and entered in both halves of the directory, or it halts, exactly when the table does not fit below 64 MiB. |
| PageBuild.MapMib | kernel/mm.c:92-106 | One MiB of the loop: its pages are entered if it is marked, and it halts exactly when the tables of the stretches met so far do not fit. |
| PageBuild.NextStretch | kernel/mm.c:92-98 | A marked MiB asks for the table of its own 4 MiB stretch and an unmarked one for none, so the tables needed are counted by the stretches with a marked MiB. |
| PageBuild.StretchesMeans | kernel/mm.c:92-98 | The stretches counted are those with a marked MiB among their four. |
| PageBuild.HaltsInNumbers | kernel/mm.c:84-98 | When building halts, in plain numbers: 8196 bytes for the directory, 4096 for each table, all page-aligned and below 64 MiB. |
| PageBuild.BuildTables | kernel/mm.c:84-106 | It halts if and only if the directory and one table for each 4 MiB stretch with a marked MiB do not fit below 64 MiB. Otherwise the walk of what is built is the identity on exactly the marked MiBs, with all rights; directory and tables are page-aligned and disjoint; each directory entry masks back to its table's address; the heap's ring and live blocks, and all memory below the old break, are undisturbed. |
| PageTables.BuiltMeans | kernel/mm.c:84-106 | The loop's invariant, at its end, is the identity of the walk, for every page. |
| PageBuild.CreateMmap | kernel/mm.c:26-111 | From memory map to page walk: a page is present exactly when the last entry covering its MiB has a kind that is not 0 in its low byte; it halts exactly when `BuildTables` does. |
| PageBuild.NeverHalts | kernel/mm.c:84-98 | It never halts while the break is below 16 MiB, whatever the memory map. |
| Sha1Spec.RotlOne | libraries/hash/sha1.c:33-35 | A rotation by one moves the low bits up, and the bit pushed out comes in at the bottom. |
| Sha1Spec.RotlFive | libraries/hash/sha1.c:33-35 | The same by five. |
| Sha1Spec.RotlThirty | libraries/hash/sha1.c:33-35 | The same by thirty. |
| Sha1Rounds.Choice | libraries/hash/sha1.c:51-52 | The bit trick is the function Ch of FIPS 180-4, section 4.1.1. |
| Sha1Rounds.Majority | libraries/hash/sha1.c:55-56 | The bit trick is the function Maj of FIPS 180-4, section 4.1.1. |
| Sha1Rounds.Step | libraries/hash/sha1.c:51-65 | One round of the code is one round of FIPS 180-4, section 6.1.2, though it adds in another order. |
| Sha1.SlotsRead | libraries/hash/sha1.c:47-50 | The four words read from the circular buffer give the schedule word of FIPS 180-4, section 6.1.2. |
| Sha1.SlotsAdvance | libraries/hash/sha1.c:47-50 | Overwriting one word keeps the buffer holding the last sixteen words of the schedule. |
| Sha1.Sha1Info.Init | libraries/hash/sha1.c:23-31 | The state is that of an empty stream. |
| Sha1.Sha1Info.HashBlock | libraries/hash/sha1.c:37-72 | In place, in a 16-word buffer, the code computes the 80-word compression function for every state and block. |
| KnownAnswers.Sha1OfAbc | libraries/hash/sha1.c:18-72 | The digest of the three bytes of abc is the one FIPS 180-4 gives as its example, computed round by round: constants, rotations, byte order and padding included. |
| Sha1.Sha1Info.AddUncounted | libraries/hash/sha1.c:74-82 | The stream grows by one byte, placed for big-endian words; a full block is hashed at once. |
| Sha1.Sha1Info.Write | libraries/hash/sha1.c:84-91 | The stream grows by the data, and only the concatenation matters: any way of cutting it into calls is the same. |
| Sha1.Sha1Info.Pad | libraries/hash/sha1.c:93-109 | The loop ends, and the stream becomes whole blocks: 0x80, as many zeros as needed, the length bytes. |
| Sha1.PaddingExactIff | libraries/hash/sha1.c:93-109 | The code's padding is that of FIPS 180-4, section 5.1.1, if and only if the message is below 2^32 bytes. |
| Sha1Spec.PaddingIsLeast | libraries/hash/sha1.c:93-100 | Padding is 0x80, the least number of zeros that fills a block, and the length. |
| Sha1Spec.Length64Denotes | libraries/hash/sha1.c:101-108 | The eight length bytes, most significant first, write the bit length. |
| Sha1.LengthBytesAgree | libraries/hash/sha1.c:101-108 | Below 2^32 bytes the shifted byte count is the 64-bit bit length. |
| Sha1.LengthBytesDiffer | libraries/hash/sha1.c:101-108 | From 2^32 bytes on it never is. |
| Sha1.SwappedMemory | libraries/hash/sha1.c:115-126 | The swapped state words, as they lie in memory, are the digest bytes in order. |
| Sha1.Sha1Info.Result | libraries/hash/sha1.c:111-127 | The digest of everything written since the start. |
| Sha1.DigestIsSha1 | libraries/hash/sha1.c:93-127 | Below 2^32 bytes that digest is SHA-1 of FIPS 180-4, section 6.1. |
| Sha1.Sha1Info.HmacInit | libraries/hash/sha1.c:132-149 | For keys below, at and above 64 bytes: the inner hash of HMAC is under way, in the structure that was used to hash the key. |
| Sha1.Sha1Info.HmacResult | libraries/hash/sha1.c:151-160 | After any writes, the result is HMAC of RFC 2104, section 2, with the same structure reused for the outer hash. |
| Sha1Spec.KeysAlike | libraries/hash/sha1.c:132-144 | A key of exactly a block is used as it is, a shorter one with zeros behind it, a longer one through its digest. |
| KnownAnswers.HmacOfSalt | libraries/hash/sha1.c:129-160 | The MAC of salt and the number 1 under the key password is the known one, computed round by round over all four blocks: both pads and the order of key and text included. |
| Pbkdf2.Write32Be | libraries/hash/pbkdf2.c:21-26 | The four bytes written are those of the number, most significant first. |
| Pbkdf2.Int32Denotes | libraries/hash/pbkdf2.c:21-26 | Read in base 256 they give it back. |
| Pbkdf2.XorLaws | libraries/hash/pbkdf2.c:28-31 | What is mixed in twice is gone, in any order. |
| Pbkdf2.XorInto | libraries/hash/pbkdf2.c:28-31 | In place, byte by byte, the exclusive or. |
| Pbkdf2.CopyAndFinish | libraries/hash/pbkdf2.c:57-59 | Copying the keyed context and finishing the copy gives HMAC under the password, as if keyed afresh, and leaves the original as it was. |
| Pbkdf2.FSha1 | libraries/hash/pbkdf2.c:33-62 | The exclusive or of the iterates: block T of RFC 8018, section 5.2; zero iterations count as one. |
| Pbkdf2.NextRound | libraries/hash/pbkdf2.c:53-61 | Each iterate is the MAC of the one before, and is mixed into the block. |
| KnownAnswers.Rfc6070 | libraries/hash/pbkdf2.c:64-84 | The first test vector of RFC 6070: from password and salt, in one iteration, the 20 bytes that the RFC lists. |
| Pbkdf2.Pbkdf2HmacSha1 | libraries/hash/pbkdf2.c:64-84 | The output is the first bytes of T_1, T_2, ..., for every password, salt, iteration count and length. |
| Pbkdf2.ShorterKeyIsPrefix | libraries/hash/pbkdf2.c:75-83 | A shorter key is a prefix of a longer one. |
| Pbkdf2.KeyByte | libraries/hash/pbkdf2.c:75-83 | Every byte of the key is the right byte of the right block. |
| Base64.EncodedLength | libraries/hash/base64.c:33-75 | The text of n bytes has 4 times ceil(n / 3) characters, padding included. |
| Base64.Base64Encode | libraries/hash/base64.c:24-80 | It succeeds if and only if text and terminating zero fit, and then has written the text of RFC 4648, section 4, and the zero. |
| Base64.Base64Decode | libraries/hash/base64.c:82-127 | It succeeds if and only if no foreign character comes before the first pad and the bytes fit, and then has written exactly the bytes the text stands for. |
| Base64.DecodeEncode | libraries/hash/base64.c:24-127 | Decoding undoes encoding, for every byte string. |
| Base64.NewlineIgnored | libraries/hash/base64.c:91-92 | A newline inserted anywhere in any text changes nothing in what it decodes to. |
| Base64.TableUndoesAlphabet | libraries/hash/base64.c:10-22 | The decoding table undoes the alphabet. |
| Base64.AlphabetIsTable | libraries/hash/base64.c:25-25 | The alphabet is the string of 64 characters of RFC 4648, table 1. |
| Base64.TableMeans | libraries/hash/base64.c:10-22 | The decoding table knows the alphabet, '=' and the newline, and every other character as foreign. |
| Base64.ReadFails | libraries/hash/base64.c:90-98 | A text cannot be read exactly when a foreign character comes before the first '='. |
| Base64.Vectors | libraries/hash/base64.c:24-80 | Three of the test vectors of RFC 4648, section 10, one for each length modulo 3. |
| VgaCells.Memcpy | kernel/global.c:121-127 | The forward byte loop copies correctly within one array whenever the destination is not above the source, overlap included, and whenever the two do not overlap. |
| VgaCells.CollapseIsInk | kernel/vga.c:10-10 | The 16-bit cell holds character and colour for codes below 128; for the others the colour comes out as 0xFF. |
| VgaCells.CollapseInNumbers | kernel/vga.c:10-10 | The character is in the low byte and the colour in the high one, or 0xFF for characters from 128 on. |
| VgaCells.WidenIsSigned | kernel/vga.c:10-10 | Widening a character is C's conversion of a signed character to 16 unsigned bits. |
| Vga.Terminal.constructor | kernel/vga.c:12-35 | A blank screen in light grey on black, the cursor at the top left. |
| Vga.Terminal.Putchar | kernel/vga.c:51-84 | For every character the buffer shows the last rows of an unbounded page that never scrolls, on which the same character was typed; the cursor stays inside the screen; while an escape sequence is read nothing is drawn. |
| Vga.Terminal.Scroll | kernel/vga.c:72-80 | Every row moves up by one and the last is blank in the current colour. |
| VgaPage.TypeKeeps | kernel/vga.c:54-80 | On the page a character changes the cell under the cursor and no other; rows are only ever added, blank, at the end. |
| VgaPage.CursorMoves | kernel/vga.c:54-70 | Code 10 takes the cursor to the start of the next row, code 13 to that of its own, and every other character to the next cell, over the end of a row too. |
| VgaColor.ApplyCode | kernel/vga.c:128-209 | Every code sets its field of the colour byte as `AfterCode` says: the additions never carry. |
| VgaColor.MeaningAfterCode | kernel/vga.c:128-209 | Read as colours, that is what SGR promises: red, green and blue of the foreground or background, intensity, reset; each code leaves the other fields alone. |
| VgaColor.MeaningIsFaithful | kernel/vga.c:37-41 | The fields determine the colour byte. |
| Vga.Terminal.ApplyCodes | kernel/vga.c:126-210 | The codes of a sequence act from left to right. |
| VgaColor.LastCodeLast | kernel/vga.c:127-209 | The last code of a sequence acts on what the others leave. |
| VgaColor.MeaningAfterCodes | kernel/vga.c:127-209 | The same read as colours. |
| VgaColor.ResetThenRed | kernel/vga.c:127-209 | Reset and then red is red; red and then reset is light grey; bold yellow on blue is 0x1E. |
| VgaSafety.PlayFate | kernel/vga.c:96-231 | Which texts the parser survives, told from their bytes alone, in whatever colours: a text is played to its end, overruns the parameters, or loops, exactly as `FateOf` says. |
| VgaSafety.EndlessIsEndless | kernel/vga.c:101-226 | A text that loops has a sequence in which the inner loop is never left: there is a round after every number of rounds. |
| VgaSafety.LoopsForEver | kernel/vga.c:106-226 | So it is in every sequence that breaks, has a `[` for its third byte, and breaks again from there: after the second rewind the loop is where it was after the first, and its control never looks at the parameters. |
| VgaSafety.SecondBracket | kernel/vga.c:106-226 | If a `[` follows the `[` of a sequence and the sequence breaks, it does not end. |
| VgaSafety.EscapeExample | kernel/vga.c:213-218 | `ESC [ [ x` never ends. |
| VgaSafety.SingleByteExample | kernel/vga.c:103-104 | Nor does the byte 0x9B before `A [ B`, in which no `[` follows another. |
| VgaSafety.PlainIsSafe | kernel/vga.c:227-229 | Text without an escape character is safe. |
| VgaSafety.ZeroCloses | kernel/vga.c:86-88 | A string that is played to its end leaves no sequence open. |
| VgaOddities.BrightRed | kernel/vga.c:96-212 | The bytes of `ESC [ 1 ; 31 m A` draw a bright red A. |
| VgaOddities.SingleByteAlike | kernel/vga.c:103-104 | The byte 0x9B begins a sequence just as `ESC [` does, unless the sequence is broken. |
| VgaOddities.TenParameters | kernel/vga.c:116-126 | There is room for ten parameters: nine semicolons end, ten overrun. |
| VgaOddities.SpaceIgnored | kernel/vga.c:113-122 | A space, or a code 127, anywhere among the parameters changes nothing. |
| VgaOddities.BrokenIsDrawn | kernel/vga.c:213-224 | A sequence broken by a character without a place in it is drawn just as it stands, and the text goes on at that character. |
| Vga.Terminal.Inside | kernel/vga.c:112-220 | A character read as a parameter takes the specification one step further, or breaks the sequence, whose first two characters are then drawn. |
| Vga.Terminal.Turn | kernel/vga.c:106-226 | One round of the inner loop, test and rewind included, is one round of the control machine that `LoopsForEver` is about, and takes the specification `Play` one step further. |
| Vga.Terminal.Escape | kernel/vga.c:97-226 | The inner loop, with its rewinding, ends on a safe text, does what `Play` says of a text that begins with an escape character, and takes the rounds that the control machine takes. |
| Vga.Terminal.Write | kernel/vga.c:90-231 | For every safe text, well-formed or not, and any byte behind it: what is typed on the page, the colour, and whether a sequence is left open are those of `Play`; while one was open before, nothing is drawn at all. |
| Vga.Terminal.WriteString | kernel/vga.c:86-88 | The same of a string, up to its zero; no sequence is left open. |
| VgaTokens.PlayIsDraw | kernel/vga.c:90-231 | Text with printed colour sequences of up to ten codes, none included, is safe and draws exactly its characters, each in the colour that the codes before it make. |
| VgaTokens.PlayIsDrawIff | kernel/vga.c:107-110 | And it does so if and only if no sequence is directly followed by a `[`, which the inner loop would swallow. |
| VgaTokens.PlaySgr | kernel/vga.c:112-212 | A printed sequence is read back as its codes, and one without any as the code 0. |
| Calendar.MonthRule | kernel/global.c:15-15 | Months of 30 and 31 days take turns, from January and again from August on; February has 28, or 29 in the years divisible by 4 and not by 100, or by 400. |
| Calendar.DaysAreCounted | kernel/global.c:30-72 | The day number the program is compared with counts the days of the Gregorian calendar one by one, from the first of 1970. |
| Calendar.SecondsAreCounted | kernel/global.c:30-50 | The number of seconds goes up by one with every second, over every midnight, from zero at the start of 1970. |
| Calendar.KnownDays | kernel/global.c:30-50 | The first of March of 1900, 2000, 2024 and 2100 have their known day numbers. |
| Calendar.TimeTimestamp | kernel/global.c:30-72 | The loops over months and years compute the product of 86400 and that day number, wrapped to 32 bits, plus the second of the day; before 1970, with February 28 days long in its own month. |
| Calendar.ComputedIsInstant | kernel/global.c:47-67 | The result is right if and only if the day number is within 24855 of the start of 1970 and the date is not in a leap February before 1970. |
| Calendar.LeapFebruaryIsLate | kernel/global.c:62-62 | In a leap February before 1970 it is exactly a day late. |
| Calendar.FirstDayOver | kernel/global.c:47-47 | On the first day that does not fit it is exactly 2^32 seconds early. |
| Calendar.Examples | kernel/global.c:47-62 | There are such days: the first of February 1968 and the twentieth of January 2038. |
| Calendar.ComputedIncreases | kernel/global.c:30-50 | From 1970 through that limit a later date has a strictly greater result. |
| Calendar.InstantIncreases | kernel/global.c:30-72 | The number of seconds is strictly increasing over all dates. |
| Numerals.StrReverse | kernel/global.c:307-311 | The stretch is reversed in place and nothing else changes. |
| Numerals.Uitoa | kernel/global.c:330-382 | For every number, base 2 to 16 and width: the padded digits and a zero are in the buffer, and nothing behind them has changed; other bases give the empty text. |
| Numerals.TextDenotes | kernel/global.c:340-353 | That text denotes the number in its base, and its length is the greater of the width and the number of digits. |
| Numerals.DigitCount | kernel/global.c:340-344 | No fewer digits would do. |
| Numerals.KnownTexts | kernel/global.c:330-382 | 42 in base 10 to a width of five is 00042, and 255 in base 16 is FF. |
| Numerals.Atoi | kernel/global.c:318-328 | The value in base 10 modulo 2^32, as a signed number, for every text, though the power itself wraps. |
| Numerals.AtoiUndoesUitoa | kernel/global.c:318-382 | What `atoi` reads from what `uitoa` writes in base 10 is the number, for every padding. |
| SignedNumerals.Itoa | kernel/global.c:430-474 | For every signed number, base and width the text `SignedText` is in the buffer. |
| SignedNumerals.MinusSign | kernel/global.c:454-470 | In base 10 a negative number has code 45 before the digits of its magnitude; other numbers have it nowhere. |
| SignedNumerals.KnownSigned | kernel/global.c:454-470 | -42 in base 10 to a width of five is -00042. |
| SignedNumerals.SignedTextDenotes | kernel/global.c:454-470 | In base 10 that text denotes the number if and only if it is not the least of all. |
| SignedNumerals.OtherBases | kernel/global.c:439-469 | In any other base it is the text of the magnitude, without a sign, and in base 16 that of the same bits taken for unsigned, if and only if the number is not the least of all or the base is 2, 4 or 16. |
| SignedNumerals.LeastText | kernel/global.c:454-461 | For the least number it ends in 28, and so denotes another. |
| SignedNumerals.LeastDenotes | kernel/global.c:454-461 | The digits written for the least number denote 2^31 exactly in the bases 2, 4 and 16. |
| Strtok.Strchr | kernel/global.c:153-158 | The first occurrence, the terminating zero included, or none. |
| Strtok.Strspn | kernel/global.c:256-261 | The length of the longest start made of delimiters. |
| Strtok.Strcspn | kernel/global.c:183-191 | The length of the longest start without one. |
| Strtok.SkipMeaning | kernel/global.c:183-261 | Those lengths are maximal, and never pass the end of the string. |
| Strtok.Strpbrk | kernel/global.c:230-254 | The first delimiter, or none. |
| Strtok.Lfind | kernel/global.c:136-142 | The first occurrence, given that there is one. |
| Strtok.RunsAreMaximal | kernel/global.c:272-305 | The tokens meant are the maximal runs without a delimiter: apart from each other, in order, and together all that is not a delimiter. |
| Strtok.Tokenizer.Strtok | kernel/global.c:272-285 | One call: the next token, the delimiter behind it overwritten, the place to go on from. |
| Strtok.StrtokR | kernel/global.c:286-305 | The same of `strtok_r`, which stays at the end where `strtok` forgets. |
| Strtok.AllCallsFindRuns | kernel/global.c:272-305 | Called until there is no token, for every string and delimiters, they yield exactly those runs of the string as it was, and leave a zero behind each and all else alone. |
| Strtok.TheTwoAgree | kernel/global.c:272-305 | `strtok` and `strtok_r` yield the same tokens and the same buffer. |
| Strtok.TokensIntact | kernel/global.c:272-305 | Afterwards every token is a string of its own with the characters it had. |

## Left out

- KernelHeap.Kernel.Malloc: requires that the break plus the bytes of a new chunk stay below 2^32; `Sbrk.CoreIsWholeIff` says that this is exactly when `morecore` gets what it asked for, and `Sbrk.CoreWrapExample` shows a size for which it does not, after which the chunk it believes in lies over other memory. Sizes that wrap when they are rounded up are within the contract: `HeapOps.MallocInv` says what they get.
- HeapOps.MallocInv: requires the same of the break.
- KernelHeap.Kernel.Free: requires a live block; freeing anything else is outside what the C code promises.
- HeapOps.TakeTableInv: requires whole words and no wrap, as the page directory and the tables ask for.
- Base64.Base64Decode: requires 7-bit text, because the C code indexes its table with a signed character.
- Sha1.Sha1Info.HmacResult: requires an inner message below 2^32 bytes, the limit of `Sha1.PaddingExactIff`.
- Sha1.Sha1Info.Result: returns the bytes of the state rather than an address inside it, so a caller that goes on writing while it holds the address is not modelled.
- Pbkdf2.Pbkdf2HmacSha1: requires that a salt with its counter stays below that limit and the password below 2^31 bytes, the range of the C parameter.
- Vga.Terminal.Write: requires a text that `VgaSafety.FateOf` calls safe, unless a sequence was left open, when any will do; for all others the C code leaves its array of ten parameters, overflows one of them, or never ends, as `VgaSafety.PlayFate` and `VgaSafety.LoopsForEver` say.
- Vga.Terminal.Escape: requires the same.
- VgaTokens.PlayIsDrawIff: requires up to ten codes per sequence, each an `int`, since the array has no room for more.
- Calendar.TimeTimestamp: requires a proper date and time of day.
- The two-word stores of the directory and table loops are modelled on words: 1-bit and 20-bit fields of a page entry are arithmetic on the word.
- The boot loader's map is a sequence of entries; how `mmap` steps over entries by their size field, and the counters of usable memory, which only debugging output reads, are not modelled.
- `calloc`, and the start-up code that moves the break past boot modules before the first use (the model starts at any word-aligned break).
- Interrupts: handlers that call `malloc` while it runs are not modelled; the allocator is sequential.
- Port output of the cursor position, and the addresses of functions in a terminal's structure.
- `i64toa`, which cuts the sign to an `int`; `kvsnprintf`; hexadecimal output of hashes and the password string format, which only glue formatted printing to what is here.
- PCI enumeration, ACPI, VBE, descriptor tables, interrupt dispatch, fonts and the EVOfs tool: hardware effects, tables of constants, or short filters.
