# A verified model of the ELF-loader

The ELF-loader is a small bare-metal program that starts seL4. It checks the
digests of an archive of ELF files, puts the kernel and the user images into
physical memory, builds boot page tables, wakes the other cores and jumps to
the kernel. This project models the parts of it that carry an argument, in the
form they have in C: loops over byte arrays, structures updated in place,
tables filled entry by entry, and cores taking turns on shared variables.

## How the project is organised

| file | what it models |
|---|---|
| `Bytes.dfy`, `Words.dfy`, `Bits.dfy`, `Addresses.dfy`, `Paging.dfy` | bytes, byte orders, bitwise OR of numbers, truncation to a machine word, page sizes |
| `Strings.dfy` | `memset`, `memcpy`, `strcmp`, `strncmp` with addresses and alignment |
| `MerkleDamgard.dfy` | padding and block folding, shared by both digests |
| `Sha256.dfy`, `Md5.dfy` | each digest as its standard defines it, and the streaming code proved equal to it |
| `Sha256Constants.dfy` | the constants of SHA-256 as roots of primes |
| `Sha256Example.dfy`, `Md5Example.dfy` | the digests of the message "abc", worked out step by step |
| `Hash.dfy` | `get_hash`, whole runs of init, updates and sum, and injectivity of padding |
| `Elf.dfy`, `ElfLoad.dfy` | memory bounds and the two ways of loading segments |
| `Placement.dfy`, `Loader.dfy` | where images go, and `load_elf` and `load_images` with their effect on memory |
| `Mmu32.dfy`, `Mmu64.dfy` | the boot page tables and the table walks that give them meaning |
| `Smp.dfy` | multi-core bring-up on the TX1 as a state machine |
| `Printf.dfy` | the `printf` interpreter |
| `Example.dfy` | a small archive that meets all demands that the loader makes on its environment |

The number of bytes in a word is an unspecified constant, 4 or 8, so what is
proved about the digests, the string functions, the loader and `printf` holds
for the 32-bit and for the 64-bit build. Wrap-around and truncation are written
out with `%` everywhere. Bytes are integers below 256; bit-vectors appear only
inside the logical functions of the digests.

The method is the same throughout. A method does what the C function does and
is proved equal to a function of its inputs. For the digests that function is
the standard's own: section 6.2 of FIPS 180-3, section 3 of RFC 1321. For the
memory bounds, the loaders, the placement of images and the `printf`
interpreter it is a fold that takes the same steps as the loop (`Bounds`,
`Unpacked`, `Loaded`, `PlaceUsers`, `Interpret`), and lemmas then say without
loops what the fold amounts to: the tight hull of the headers, the memory image
that the headers describe, stacked and disjoint regions, the meanings of the
directives that a format was written from. For the page tables it is their
contents, and what they mean is given by the table walk of the ARM architecture
(section B3.5 of ARM DDI 0406C). What the source promises is proved for all
inputs.

## What was found

- `strncmp` decides equality of digests only up to the first zero byte. Two
  digests that agree up to a zero byte are accepted as equal. The comparison is
  exact if and only if the stated digest has no zero byte before its last one
  (`Strings.ComparisonIsExact`, `LoadImages.AcceptedIsEqual`).
- The padding of both digests is injective for messages of any length, even
  after the 64-bit length field has wrapped (`Hash.PaddingInjective`).
- `init_boot_vspace` of 32-bit ARM loses the vector page unless the kernel's
  virtual start is a multiple of 1 MiB (`Mmu32.BootMapIffAligned`).
- The comment above `init_boot_vspace` of 64-bit ARM promises a one-to-one map
  below the kernel's first address and a virtual-to-physical map from there on.
  Taken literally this is true of no kernel: at EL2 and at EL1 some translated
  address is not mapped at all (`Mmu64.HypCommentNeverMet`,
  `Mmu64.BootCommentNeverMet`). `Mmu64.HypCommentIff` and `Mmu64.BootCommentIff`
  say for every address whether the comment is met there. It is met on the low
  512 GiB (at EL2 only for a kernel above them) and, under the condition of the
  next item, from the kernel's start to the end of its GiB. It is not met at any
  other address, with one exception: at EL2 the rest of the kernel's first 2 MiB
  block is mapped one to one if both starts lie in the same block.
- The window in the kernel's GiB is the promised map under a condition that the
  source does not mention. At EL1 it always starts at a GiB: the virtual start
  modulo 1 GiB must equal the physical start modulo 2 MiB (`Mmu64.BootMapIff`).
  At EL2 both starts must agree modulo 2 MiB, and the kernel must lie above the
  low 512 GiB for these to keep their identity map (`Mmu64.HypMapIff`).
- On 64-bit machines `%u` and `%x` print an unsigned int from 2^31 on as a
  sign-extended 64-bit number, and `%d` prints a negative number as an unsigned
  one (`Printf.UnsignedIff`, `Printf.SignedIff`). A format that ends in an
  unfinished `%l` makes the interpreter read past the NUL; `Printf.Defined`
  shows that this and unsuitable arguments are the only bad cases. `sprintf`
  does not terminate its output with a NUL (`Printf.Sprintf`).
- Both ELF loaders read the headers again on every turn. They survive if and
  only if no write reaches them (`ElfLoad.HeadersSurviveUnpackIff`,
  `ElfLoad.HeadersSurviveLoadIff`). `load_elf` is safe because it keeps clear of
  the loader and its archive (`LoadImages.HeadersAreSafe`); `elf_loadFile`
  checks nothing (`Example.HeadersCanBeLost`).
- `load_images` takes the kernel's physical start from p_paddr, but `load_elf`
  lays the segments out by p_vaddr. A segment ends up at its own p_paddr if and
  only if p_paddr - p_vaddr is for it what it is for the lowest addresses
  (`LoadImages.OwnAddressIff`, `LoadImages.KernelAtOwnAddresses`).
- Bring-up on the TX1 cannot deadlock, is over after at most 8 N + 3 turns that
  do something, and ends under every fair schedule of 8 N + 3 rounds
  (`Smp.StuckIffOver`, `Smp.BoundedWork`, `Smp.FairSchedulesEnd`).

## Model

| member | source | states |
|---|---|---|
| Strings.FillWord | elfloader-tool/src/string.c:77-78 | the product of all-ones / 255 and the low byte has that byte in every position |
| Strings.Memset | elfloader-tool/src/string.c:68-97 | for every address, alignment, fill value and length the three loops set exactly the n bytes to the low byte of c, and every word store is aligned |
| Strings.MemsetBytewise | elfloader-tool/src/string.c:88-94 | the fallback loop meets the same contract, so the fast form refines it |
| Strings.CopyUnit | elfloader-tool/src/string.c:110-117 | the search ends in the largest access width on which both addresses agree |
| Strings.CopyUnits | elfloader-tool/src/string.c:124-143 | the unit loop copies up to less than a unit, every access is aligned on both sides, and the abort is unreachable |
| Strings.Memcpy | elfloader-tool/src/string.c:99-147 | for all non-overlapping ranges and alignments, also inside one array, the destination becomes the old source bytes and nothing else changes |
| Strings.MemcpyBytewise | elfloader-tool/src/string.c:148-153 | the fallback loop meets the same contract |
| Strings.Strcmp | elfloader-tool/src/string.c:39-51 | zero exactly for equal C strings, else the difference of the first bytes that differ, whose sign orders the strings |
| Strings.Strncmp | elfloader-tool/src/string.c:53-66 | zero exactly if both agree up to the first NUL within n bytes, else the difference of the first bytes that differ; negative or positive exactly as the first such byte is smaller or greater |
| Strings.ComparisonIsExact | elfloader-tool/src/string.c:53-66 | comparing buffers of one length this way decides their equality if and only if the first has no zero byte before its last |
| MerkleDamgard.ZerosIsLeast | elfloader-tool/src/utils/crypt_sha256.c:104-112 | the zero padding is the least that leaves room for exactly the length field (section 5.1.1 of FIPS 180-3) |
| MerkleDamgard.FoldPadOne | elfloader-tool/src/utils/crypt_sha256.c:112-122 | below 56 tail bytes the padded message ends in one block: tail, 0x80, zeros, length |
| MerkleDamgard.FoldPadTwo | elfloader-tool/src/utils/crypt_sha256.c:104-122 | from 56 tail bytes on it ends in two blocks, with 0x80 in the first and the length in the second |
| MerkleDamgard.PaddingIsSuffixFree | elfloader-tool/src/utils/crypt_sha256.c:102-123 | if length fields determine lengths, no padded message is a suffix of another |
| MerkleDamgard.CounterStep | elfloader-tool/src/utils/crypt_sha256.c:156 | counting on from a wrapped byte counter counts the whole message modulo 2^64 |
| MerkleDamgard.CounterLow | elfloader-tool/src/utils/crypt_sha256.c:154 | a wrapped counter still gives the fill level of the buffer |
| MerkleDamgard.CounterBits | elfloader-tool/src/utils/crypt_sha256.c:113 | and the bit count modulo 2^64 |
| MerkleDamgard.BufferShort | elfloader-tool/src/utils/crypt_sha256.c:157-161 | data that do not fill the buffer leave the block fold alone and extend the tail |
| MerkleDamgard.BufferFull | elfloader-tool/src/utils/crypt_sha256.c:162-165 | data that fill the buffer extend the fold by the compression of the buffer |
| MerkleDamgard.FoldNext | elfloader-tool/src/utils/crypt_sha256.c:167-168 | each turn of the block loop extends the fold by one block |
| MerkleDamgard.BufferRest | elfloader-tool/src/utils/crypt_sha256.c:169 | what is left over becomes the tail, whatever stale bytes the buffer held |
| Sha256Impl.MuxForms | elfloader-tool/src/utils/crypt_sha256.c:41-42 | the optimised Ch and Maj are those of section 4.1.2 of FIPS 180-3 on all words |
| Sha256Impl.LoadBigEndian | elfloader-tool/src/utils/crypt_sha256.c:64-69 | shifting and OR-ing four bytes gives the big-endian word |
| Sha256Impl.StoreBigEndian64 | elfloader-tool/src/utils/crypt_sha256.c:114-121 | the eight truncated shifts store the big-endian bytes of the length |
| Sha256Impl.Expand | elfloader-tool/src/utils/crypt_sha256.c:64-71 | the array filled in place is the recursive message schedule of the block |
| Sha256Impl.Recur | elfloader-tool/src/utils/crypt_sha256.c:70-71 | entries 16 to 63 follow the recurrence of section 6.2.2 of FIPS 180-3 |
| Sha256Impl.Scramble | elfloader-tool/src/utils/crypt_sha256.c:72-91 | eight variables assigned one after the other compute the 64 simultaneous rounds |
| Sha256Impl.Sha256State.Init | elfloader-tool/src/utils/crypt_sha256.c:125-136 | afterwards the state stands for the empty message, whatever it held before |
| Sha256Impl.Sha256State.ProcessBlock | elfloader-tool/src/utils/crypt_sha256.c:59-100 | replaces the chaining state by the compression function of the standard |
| Sha256Impl.Sha256State.Update | elfloader-tool/src/utils/crypt_sha256.c:151-170 | a state that stands for msg stands for msg followed by the data: fold over the complete blocks, tail in the buffer, length modulo 2^64 |
| Sha256Impl.Sha256State.UpdateBlocks | elfloader-tool/src/utils/crypt_sha256.c:167-168 | compresses all whole blocks straight from the data and leaves less than one |
| Sha256Impl.Sha256State.PadMessage | elfloader-tool/src/utils/crypt_sha256.c:102-123 | for every residue of the length the chaining state becomes the fold over the whole padded message |
| Sha256Impl.Sha256State.Sum | elfloader-tool/src/utils/crypt_sha256.c:138-149 | writes the SHA-256 digest of the message and nothing behind it |
| Sha256Constants.TableIsCubeRoots | elfloader-tool/src/utils/crypt_sha256.c:48-57 | entry t of K is the first 32 bits of the fraction of the cube root of the t-th prime (section 4.2.2 of FIPS 180-3) |
| Sha256Constants.InitialValueIsSquareRoots | elfloader-tool/src/utils/crypt_sha256.c:125-136 | word t of the initial value is the first 32 bits of the fraction of the square root of the t-th prime (section 5.3.3) |
| Sha256Example.DigestOfAbc | elfloader-tool/src/utils/crypt_sha256.c:40-149 | the digest of "abc" is the one of appendix B.1 of FIPS 180-2, so every table, constant and rotation amount is the standard's |
| Md5Impl.MuxForms | elfloader-tool/src/utils/crypt_md5.c:33-34 | the mux forms of F and G are those of section 3.4 of RFC 1321 on all words |
| Md5Impl.LoadLittleEndian | elfloader-tool/src/utils/crypt_md5.c:57-62 | shifting and OR-ing four bytes gives the little-endian word |
| Md5Impl.NextF | elfloader-tool/src/utils/crypt_md5.c:37-75 | one FF statement is one uniform step, with the roles of the variables rotated |
| Md5Impl.RoundF | elfloader-tool/src/utils/crypt_md5.c:70-75 | four statements a turn are steps 0 to 15 of the uniform specification |
| Md5Impl.RoundG | elfloader-tool/src/utils/crypt_md5.c:76-81 | steps 16 to 31, with words (5i+1) mod 16 |
| Md5Impl.RoundH | elfloader-tool/src/utils/crypt_md5.c:82-87 | steps 32 to 47, with words (3i+5) mod 16 |
| Md5Impl.RoundI | elfloader-tool/src/utils/crypt_md5.c:88-93 | steps 48 to 63, with words 7i mod 16 |
| Md5Impl.Scramble | elfloader-tool/src/utils/crypt_md5.c:64-93 | the four loops together are the 64 steps of section 3.4 of RFC 1321 |
| Md5Impl.Md5State.Init | elfloader-tool/src/utils/crypt_md5.c:124-131 | afterwards the state stands for the empty message |
| Md5Impl.Md5State.ProcessBlock | elfloader-tool/src/utils/crypt_md5.c:53-99 | replaces the chaining state by the compression function of the standard |
| Md5Impl.Md5State.Update | elfloader-tool/src/utils/crypt_md5.c:146-164 | a state that stands for msg stands for msg followed by the data |
| Md5Impl.Md5State.PadMessage | elfloader-tool/src/utils/crypt_md5.c:101-122 | for every residue of the length the chaining state becomes the fold over the whole padded message |
| Md5Impl.Md5State.Sum | elfloader-tool/src/utils/crypt_md5.c:133-144 | writes the MD5 digest of the message and nothing behind it |
| Md5Example.DigestOfAbc | elfloader-tool/src/utils/crypt_md5.c:33-144 | the digest of "abc" is the one of appendix A.5 of RFC 1321, which depends on every entry of the sine table and on the initial value |
| Hash.GetHash | elfloader-tool/src/utils/hash.c:29-43 | from a state with arbitrary contents, the digest of the file of the chosen kind |
| Hash.Sha256OfChunks | elfloader-tool/src/utils/crypt_sha256.c:125-170 | any list of updates gives SHA-256 of the concatenation, whatever the chunk boundaries |
| Hash.Md5OfChunks | elfloader-tool/src/utils/crypt_md5.c:124-164 | any list of updates gives MD5 of the concatenation, even if the byte counter wraps |
| Hash.PaddingInjective | elfloader-tool/src/utils/crypt_sha256.c:102-123 | messages with the same padded form are equal, for all lengths and both digests |
| Hash.PaddingSuffixFree | elfloader-tool/src/utils/crypt_md5.c:101-122 | below 2^61 bytes no padded message even ends in another one |
| Elf.GetMemoryBounds | elfloader-tool/src/binaries/elf/elf.c:263-300 | the loop computes the fold over the headers, or reports an invalid file |
| Elf.BoundsEncloseIffNoWrap | elfloader-tool/src/binaries/elf/elf.c:281-294 | the bounds enclose every non-empty header if and only if no header wraps around |
| Elf.BoundsTight | elfloader-tool/src/binaries/elf/elf.c:266-297 | both ends are attained by some header, and the result is (UINT64_MAX, 0) exactly when none is non-empty |
| Elf.LowIsLeast | elfloader-tool/src/binaries/elf/elf.c:281-294 | the lower bound is the least p_vaddr, or p_paddr, of the headers that are not empty, even if headers wrap |
| Elf.HighIsGreatest | elfloader-tool/src/binaries/elf/elf.c:287-291 | without wrap the upper bound is the greatest virtual end of the headers that are not empty |
| ElfLoad.UnpackElfToPaddr | elfloader-tool/src/common.c:63-98 | zeroing and the copies, with all word arithmetic, make memory the fold of the headers over the zeroed region, and on every turn the headers in memory are still those of the file |
| ElfLoad.UnpackKeepsHeaders | elfloader-tool/src/common.c:80-97 | if no write reaches the ELF header or the header table, every turn reads the headers that the file had at the start |
| ElfLoad.HeadersSurviveUnpackIff | elfloader-tool/src/common.c:76-97 | the headers survive for every content of memory if and only if the region and the destinations miss them |
| ElfLoad.SameHeadersIff | elfloader-tool/src/common.c:80 | that the headers are the same means that the ELF header and the program header table are the same byte for byte |
| ElfLoad.CoveredByte | elfloader-tool/src/common.c:80-97 | a byte in the file part of a loadable header is the byte of the last such header |
| ElfLoad.UncoveredByte | elfloader-tool/src/common.c:76-97 | any other byte is zero in the region and unchanged outside |
| ElfLoad.ImageIffConsistent | elfloader-tool/src/common.c:63-98 | every loadable segment arrives byte for byte, the rest of the region is zero and nothing else changes, if and only if overlapping segments agree |
| ElfLoad.DisjointIsImage | elfloader-tool/src/common.c:63-98 | a well-formed file with disjoint loadable segments is loaded as it should be, whatever other headers it has |
| ElfLoad.SegmentInRegion | elfloader-tool/src/common.c:72-96 | without wrap, each segment lies at its place inside the region |
| ElfLoad.OutsideRegionKept | elfloader-tool/src/common.c:63-98 | a well-formed file changes nothing outside the region of its image |
| ElfLoad.LoadSegment | elfloader-tool/src/binaries/elf/elf.c:335-349 | one turn of the loop puts the file part and zeros up to the memory size |
| ElfLoad.LoadFile | elfloader-tool/src/binaries/elf/elf.c:326-352 | an invalid file is reported and changes nothing, a valid one is loaded header by header, and on every turn the headers in memory are still those of the file |
| ElfLoad.LoadKeepsHeaders | elfloader-tool/src/binaries/elf/elf.c:335-349 | if no segment lies over the ELF header or the header table, every turn reads the headers that the file had at the start |
| ElfLoad.HeadersSurviveLoadIff | elfloader-tool/src/binaries/elf/elf.c:335-349 | the headers survive for every content of memory if and only if all segments miss them |
| Example.HeadersCanBeLost | elfloader-tool/src/binaries/elf/elf.c:335-349 | a concrete file whose first segment overwrites the header table that the next turn reads |
| ElfLoad.OccupiedByte | elfloader-tool/src/binaries/elf/elf.c:335-349 | a byte of a segment is that of the last header that occupies it: file byte, then zero |
| ElfLoad.UnoccupiedByte | elfloader-tool/src/binaries/elf/elf.c:335-349 | a byte that no header occupies is unchanged |
| ElfLoad.LoadersAgree | elfloader-tool/src/binaries/elf/elf.c:326-352 | zeroing tails and zeroing everything first put the same byte at corresponding addresses of every loadable segment |
| Example.BothLoadersSuit | elfloader-tool/src/binaries/elf/elf.c:326-352 | all demands of both loaders can be met by one file: a concrete kernel |
| ElfLoad.LoadedAtTranslation | elfloader-tool/src/binaries/elf/elf.c:302-352 | after a load at physical addresses the file's byte of a virtual address, or zero beyond the file part, is found at its translation, the physical address with the same offset in the segment |
| Placement.RegionsOverlap | elfloader-tool/src/common.c:33-43 | true exactly if two closed intervals have a common address |
| Placement.RoundUp64IsLeast | elfloader-tool/include/elfloader_common.h:26 | rounding up to a page gives the least multiple that is not below |
| Placement.RegionSizeIsPages | elfloader-tool/src/common.c:113-116 | the region is whole pages and holds the image with less than a page to spare |
| Placement.PlacedConsistent | elfloader-tool/src/common.c:200-206 | virtual start plus offset is the physical start and both regions have the same length, modulo the word size, even with wrapping addresses |
| Placement.Placed | elfloader-tool/src/common.c:118-233 | the region starts page aligned at the destination, and the next free address is its end, one page further with headers kept |
| Placement.PlacedClear | elfloader-tool/src/common.c:51-58 | an accepted region that does not wrap is disjoint from the loader |
| Placement.PlacedDescribes | elfloader-tool/src/common.c:200-206 | the recorded information in the file's own terms: lowest virtual address, entry point, the offset that takes one to the physical start, and a region of whole pages with less than a page to spare |
| Placement.PlacedIff | elfloader-tool/src/common.c:118-192 | an image that fits the address space is placed if and only if destination and lowest address are page aligned, the file is valid and the region misses the loader |
| Placement.StackedIffFits | elfloader-tool/src/common.c:299-312 | any number of user images is stacked upwards with exactly one page after each if and only if the space they need ends below the top of the address space |
| Placement.StackedOrder | elfloader-tool/src/common.c:299-312 | stacked regions are in increasing order and pairwise disjoint, header pages included |
| Placement.UsersPlacedWell | elfloader-tool/src/common.c:299-312 | every user image is page aligned, disjoint from the loader and described consistently |
| LoadImages.CheckDigest | elfloader-tool/src/common.c:131-174 | accepts exactly if hashing is off, or the digest file exists and agrees as far as the comparison looks |
| LoadImages.CompareDigests | elfloader-tool/src/common.c:155-171 | compares the stated digest with the digest of the file's bytes in memory, up to the first NUL |
| LoadImages.AcceptedIsEqual | elfloader-tool/src/common.c:167-171 | for a stated digest without an early zero byte, acceptance means that the first 32 or 16 bytes of the digest file are SHA-256 or MD5 of the bytes of the image file |
| LoadImages.AcceptedWithoutDigest | elfloader-tool/src/common.c:131-144 | without hashing everything is accepted, and with hashing nothing whose digest file is missing |
| LoadImages.Find | elfloader-tool/src/common.c:275-279 | the file looked up is the first of its name |
| LoadImages.WriteHeaders | elfloader-tool/src/common.c:211-232 | the header page starts with the count, the entry size and the table, and nothing else is written |
| LoadImages.LoadElf | elfloader-tool/src/common.c:105-234 | all checks in order: either it aborts with memory untouched or it returns the placement and memory is the image plus the header page; then the information describes the file, adding the offset takes every virtual address of a segment and the entry point to the file's byte for it, and the header page holds count, size and table |
| LoadImages.ImageIsMapped | elfloader-tool/src/common.c:200-206 | for disjoint loadable segments, memory at v + offset modulo the word size holds the file's byte for every v in a file part, zero for every v beyond it, and at the recorded entry plus offset the file's byte of the entry point |
| LoadImages.HeadersTold | elfloader-tool/src/common.c:211-231 | the page behind the region holds the number of headers and their size as little-endian words and then the program header table of the file |
| LoadImages.HeadersAreSafe | elfloader-tool/src/common.c:194-198 | headers that lie in the archive are not overwritten by the image, because its region is clear of the loader |
| LoadImages.WrittenElsewhere | elfloader-tool/src/common.c:195-232 | loading an image changes nothing outside the image and the contents of its header page, the tails of the pages included |
| LoadImages.WrittenKeepsLoader | elfloader-tool/src/common.c:51-58 | the loader and its archive survive every load |
| LoadImages.ImageFromArchive | elfloader-tool/src/common.c:63-98 | the image depends on nothing but the archive |
| LoadImages.LoadedIntact | elfloader-tool/src/common.c:195-232 | a load in the middle of a run produces the image that it would produce at the start |
| LoadImages.StaysIntact | elfloader-tool/src/common.c:299-312 | a later load further up leaves an image and its header page intact |
| LoadImages.DigestFromArchive | elfloader-tool/src/common.c:131-174 | earlier loads do not change the outcome of later digest checks |
| LoadImages.NextFree | elfloader-tool/src/common.c:299-312 | the next free address is the sum of the space used so far |
| LoadImages.ProgressStep | elfloader-tool/src/common.c:299-312 | each turn keeps the kernel and all earlier images intact and adds one more |
| LoadImages.OthersKeptStep | elfloader-tool/src/common.c:299-312 | each turn leaves all memory unchanged that belongs to no image and no header table loaded so far |
| LoadImages.LoadUser | elfloader-tool/src/common.c:300-312 | one turn of the loop: the next image is placed, checked and loaded, or the run is given up for a reason |
| LoadImages.LoadUsers | elfloader-tool/src/common.c:299-312 | the loop over the user images, for any number of them |
| LoadImages.LoadImages | elfloader-tool/src/common.c:264-313 | returns exactly if the kernel is the first file and all placements and digests are accepted; then the infos are the placements, in the end all images and header tables are intact at once, every other byte of memory is as it was, and the system is the one that `Booted` describes: the kernel at its least p_paddr, every segment byte and entry point found through the information |
| LoadImages.RunHoldsFiles | elfloader-tool/src/common.c:264-313 | in the end every image with disjoint loadable segments holds its file byte for byte, and zeros between the segments |
| LoadImages.KernelLaidOut | elfloader-tool/src/common.c:284-286 | after a return the kernel starts at the truncation of its least p_paddr, is page aligned, disjoint from the loader and described consistently |
| LoadImages.KernelStarts | elfloader-tool/src/common.c:284-286 | the kernel's physical start is the truncation of the least p_paddr of its headers that are not empty |
| LoadImages.KernelAtOwnAddresses | elfloader-tool/src/common.c:284-286 | if p_paddr - p_vaddr is the same for all headers that are not empty, every byte of a loadable segment lies at that segment's own p_paddr |
| LoadImages.OwnAddressIff | elfloader-tool/src/common.c:63-98 | a segment lies at its own p_paddr if and only if its p_paddr - p_vaddr is the difference of the lowest addresses, modulo the word size |
| LoadImages.UsersLaidOut | elfloader-tool/src/common.c:299-312 | after a return the user images follow the kernel in increasing order, one header page after each, page aligned, disjoint from the loader and described consistently |
| LoadImages.RunIsBooted | elfloader-tool/src/common.c:264-313 | the end of a run in the terms of the archive: the first file is the kernel at its least physical address, the next ones up to the maximum are the user images, all are loaded and described as their files say, and no other byte of memory has changed |
| LoadImages.AcceptsIff | elfloader-tool/src/common.c:264-313 | load_images returns if and only if the first file is named kernel.elf, everything can be placed, and the digests of the kernel and of all user images agree with kernel.bin and app.bin |
| Example.DemandsCanBeMet | elfloader-tool/src/common.c:264-313 | the demands on the environment can be met: a concrete kernel and user image are accepted and placed |
| Example.KernelOfExample | elfloader-tool/src/common.c:264-313 | for a kernel linked away from its physical address, with its entry point inside: start, entry and all bytes end up where its headers say |
| Mmu32.InitBootVspace | elfloader-tool/src/arch-arm/32/mmu.c:24-56 | the loops make each directory entry what its position demands and write nothing else |
| Mmu32.DirectoryIffStart | elfloader-tool/src/arch-arm/32/mmu.c:38-46 | the entry that follows the second loop lies in the directory if and only if the virtual start is positive and at most 0xfff00000 |
| Mmu32.WalkIsMap | elfloader-tool/src/arch-arm/32/mmu.c:24-56 | for aligned starts the walk is identity below the kernel, the window up to the last MiB, the vector page and nothing else, and everything mapped is for the kernel only |
| Mmu32.LastMib | elfloader-tool/src/arch-arm/32/mmu.c:45-55 | in the last MiB only the vector page is mapped |
| Mmu32.UnalignedLosesVectors | elfloader-tool/src/arch-arm/32/mmu.c:38-49 | with an unaligned virtual start the vector page is not mapped |
| Mmu32.TablesBitForBit | elfloader-tool/src/arch-arm/32/mmu.c:24-56 | every bit of both tables for aligned starts |
| Mmu32.BootMapIffAligned | elfloader-tool/src/arch-arm/32/mmu.c:19-56 | the documented map holds for all addresses if and only if the starts are multiples of 1 MiB |
| Mmu32.InitHypBootVspace | elfloader-tool/src/arch-arm/32/mmu.c:63-87 | the loops fill the four table pointers and the 2048 block entries |
| Mmu32.FlatIndex | elfloader-tool/src/arch-arm/32/mmu.c:69-74 | the two-level walk through four concatenated tables uses entry v >> 21 of one array |
| Mmu32.LpaeWalkIsMap | elfloader-tool/src/arch-arm/32/mmu.c:63-87 | for starts aligned to 2 MiB the walk, which faults without the access flag, is identity below the kernel and the window above |
| Mmu32.LpaeTablesBitForBit | elfloader-tool/src/arch-arm/32/mmu.c:63-87 | every bit of the LPAE tables for aligned starts |
| Mmu32.LpaeMapIffAligned | elfloader-tool/src/arch-arm/32/mmu.c:58-87 | this map holds for all addresses if and only if the starts are multiples of 2 MiB and the virtual one is not zero |
| Mmu32.BothFormatsAgree | elfloader-tool/src/arch-arm/32/mmu.c:58-87 | both table formats translate every address below the last MiB alike |
| Mmu64.Arrays.InitBootVspace | elfloader-tool/src/arch-arm/64/mmu.c:23-54 | the five arrays become the tables described entry by entry |
| Mmu64.Arrays.InitHypBootVspace | elfloader-tool/src/arch-arm/64/mmu.c:56-87 | the same for the tables of EL2, with the window starting at the index of the kernel |
| Mmu64.TableDecodes | elfloader-tool/src/arch-arm/64/mmu.c:28-43 | a table descriptor is the address of the table with bits 1 and 0 set |
| Mmu64.GibIsSum | elfloader-tool/src/arch-arm/64/mmu.c:32-36 | a 1 GiB descriptor is its address, the access flag, memory type 0 and the valid bit |
| Mmu64.BlockIsSum | elfloader-tool/src/arch-arm/64/mmu.c:45-53 | a 2 MiB descriptor is its address, the access flag, memory type 4, shareability 3 on multiprocessors, and the valid bit |
| Mmu64.WindowWalk | elfloader-tool/src/arch-arm/64/mmu.c:39-53 | the walk through three levels, which faults at a block without the access flag, reaches the block that the last table names, with memory type 4 and shareability 3 on multiprocessors |
| Mmu64.IdentityWalk | elfloader-tool/src/arch-arm/64/mmu.c:30-37 | the 1 GiB blocks have the access flag and translate the low 512 GiB to themselves, with memory type 0 |
| Mmu64.HypIdentity | elfloader-tool/src/arch-arm/64/mmu.c:62-72 | with a PGD index other than 0 the EL2 tables keep the low 512 GiB accessible and identical, as memory type 0 |
| Mmu64.BootIdentity | elfloader-tool/src/arch-arm/64/mmu.c:30-37 | the EL1 tables map the low 512 GiB to themselves for every kernel, accessible and as memory type 0 |
| Mmu64.HypWindow | elfloader-tool/src/arch-arm/64/mmu.c:71-86 | the exact translation from the start of the kernel's first block to the end of its GiB, for all page-aligned physical starts, as memory type 4 |
| Mmu64.HypFaults | elfloader-tool/src/arch-arm/64/mmu.c:71-86 | outside the identity map and the window every address faults; with PGD index 0 outside the window alone |
| Mmu64.LowKernelLosesIdentity | elfloader-tool/src/arch-arm/64/mmu.c:62-72 | with PGD index 0 the kernel's table replaces the identity map: a concrete address faults |
| Mmu64.HypMapIff | elfloader-tool/src/arch-arm/64/mmu.c:56-87 | identity on the low 512 GiB and the map from the kernel's start to the end of its GiB hold if and only if the virtual start is not below 512 GiB and both starts agree modulo 2 MiB |
| Mmu64.HypCommentIff | elfloader-tool/src/arch-arm/64/mmu.c:17-87 | the exact set of addresses at which the EL2 tables give the map of the comment, for all page-aligned physical starts |
| Mmu64.HypCommentNeverMet | elfloader-tool/src/arch-arm/64/mmu.c:17-87 | for every kernel some 48-bit address, which the comment says is mapped, faults |
| Mmu64.BootWindow | elfloader-tool/src/arch-arm/64/mmu.c:39-53 | the exact translation of the kernel's GiB through the EL1 tables, as memory type 4 |
| Mmu64.BootFaults | elfloader-tool/src/arch-arm/64/mmu.c:30-43 | through the EL1 tables every address outside the low 512 GiB and the kernel's GiB faults |
| Mmu64.BootMapIff | elfloader-tool/src/arch-arm/64/mmu.c:23-54 | identity on the low 512 GiB and the map from the kernel's start to the end of its GiB hold if and only if the virtual start modulo 1 GiB is the physical start modulo 2 MiB |
| Mmu64.BootCommentIff | elfloader-tool/src/arch-arm/64/mmu.c:17-54 | the exact set of addresses at which the EL1 tables give the map of the comment |
| Mmu64.BootCommentNeverMet | elfloader-tool/src/arch-arm/64/mmu.c:17-54 | the address 512 GiB, below every kernel, faults |
| Smp.BootStepInv | elfloader-tool/src/plat/tx1/smp.c:39-61 | every step of the boot core keeps the invariant |
| Smp.CoreStepInv | elfloader-tool/src/arch-arm/armv/armv8-a/64/smp.c:27-43 | every step of a secondary keeps the invariant |
| Smp.RunInv | elfloader-tool/src/plat/tx1/smp.c:39-61 | the invariant holds after every schedule, for any number of cores and any maximum |
| Smp.MailboxIsForReader | elfloader-tool/src/plat/tx1/smp.c:47-57 | in every interleaving the mailbox holds the stack of core i when core i reads it |
| Smp.IdsAreOwnNumbers | elfloader-tool/src/arch-arm/armv/armv8-a/64/smp.c:27-38 | the id a core derives is its own number, so all ids are distinct |
| Smp.StacksAreApart | elfloader-tool/src/arch-arm/armv/armv8-a/64/smp.c:21 | the stacks of the secondaries are aligned to 16 bytes, lie in core_stacks and have no byte in common |
| Smp.NobodyLeavesEarly | elfloader-tool/src/arch-arm/smp_boot.c:28-69 | once any secondary is past the lock, all are up with their ids and init_cpus has completed |
| Smp.OneInTransit | elfloader-tool/src/plat/tx1/smp.c:47-57 | at most one core is powered on but not up: the one the boot core polls |
| Smp.StepUsesWork | elfloader-tool/src/arch-arm/smp_boot.c:28-69 | every turn either changes nothing or uses up work that is left |
| Smp.BoundedWork | elfloader-tool/src/plat/tx1/smp.c:39-61 | bring-up is over after at most 8 N + 3 turns that change something |
| Smp.StuckIffOver | elfloader-tool/src/arch-arm/smp_boot.c:28-69 | no turn changes anything if and only if bring-up is complete or was given up, with the cores brought up so far waiting |
| Smp.RoundWorks | elfloader-tool/src/arch-arm/smp_boot.c:28-69 | a round in which every core gets a turn uses up work unless nothing can move any more |
| Smp.AbortedForAReason | elfloader-tool/src/plat/tx1/smp.c:42-54 | bring-up is never given up while there are enough cores and psci_cpu_on succeeds |
| Smp.TooFewCores | elfloader-tool/src/plat/tx1/smp.c:42-46 | with more nodes than cores nothing happens but the abort |
| Smp.FailureIsFinal | elfloader-tool/src/plat/tx1/smp.c:50-54 | after a failed psci_cpu_on for core i no schedule brings up core i or a later one, and nobody is released |
| Smp.FairSchedulesEnd | elfloader-tool/src/arch-arm/smp_boot.c:28-69 | every schedule of at least 8 N + 3 such rounds ends with bring-up complete or given up; it is complete if there are enough cores and psci_cpu_on never fails, and given up if there are too few cores |
| Printf.Payload.WriteChar | elfloader-tool/src/printf.c:222-227 | appends one character and leaves what lies behind it |
| Printf.Payload.WriteString | elfloader-tool/src/printf.c:31-37 | appends the text before the NUL |
| Printf.Payload.WriteNum | elfloader-tool/src/printf.c:44-69 | appends the numeral of any unsigned long in any base from 2 to 16 |
| Printf.FillDigits | elfloader-tool/src/printf.c:57-66 | the digits are written from the end without ever leaving the 80-byte buffer |
| Printf.WordDigits | elfloader-tool/src/printf.c:17-22 | no word has more than 64 digits in any base |
| Printf.NumeralIff | elfloader-tool/src/printf.c:44-69 | the output is the one string of digits without leading zero that decodes to n |
| Printf.HexDigit | elfloader-tool/src/printf.c:47 | digit r is the ASCII character 48 + r, from ten on 87 + r, and decodes to r |
| Printf.PrintDirective | elfloader-tool/src/printf.c:92-180 | the switch writes what the directive means and takes at most one argument |
| Printf.Vxprintf | elfloader-tool/src/printf.c:74-182 | on every format with a defined result, appends that result and touches nothing behind it |
| Printf.Sprintf | elfloader-tool/src/printf.c:229-237 | returns the number of characters written; the rest of the buffer is unchanged, so no NUL is added |
| Printf.ModifiersAreIgnored | elfloader-tool/src/printf.c:94-107 | any digits, dashes and dots after the percent sign make no difference |
| Printf.ItemIsInterpreted | elfloader-tool/src/printf.c:82-180 | a literal or directive prints its meaning and takes exactly one argument if it has a value, none otherwise |
| Printf.FormatIsInterpreted | elfloader-tool/src/printf.c:74-182 | a format written from a list of items prints the concatenation of their meanings and takes one argument for each value, if and only if the arguments fit |
| Printf.EveryFormat | elfloader-tool/src/printf.c:80-181 | every format is such a list, perhaps followed by an escape that is cut off |
| Printf.CutOffPrintsNothing | elfloader-tool/src/printf.c:157-172 | an escape that is cut off prints nothing, but one cut off after l reads past the NUL |
| Printf.Defined | elfloader-tool/src/printf.c:74-182 | the result is defined if and only if the arguments fit and the format does not end in an unfinished l; then it is the meaning of its items |
| Printf.SignedIff | elfloader-tool/src/printf.c:141-147 | an int is printed as itself if and only if it is not negative |
| Printf.UnsignedIff | elfloader-tool/src/printf.c:134-147 | an unsigned int is printed as itself if and only if it is below 2^31 or the machine is a 32-bit one |
| Printf.LongsAreExact | elfloader-tool/src/printf.c:128-166 | for every word, %p and %lx print the one base 16 numeral, and %lu the one base 10 numeral, that decodes to it |
| Printf.IntsAreConverted | elfloader-tool/src/printf.c:134-147 | for every int, %d and %u print the base 10 numeral and %x the base 16 numeral of its conversion to an unsigned long |
| Printf.TextsArePrinted | elfloader-tool/src/printf.c:121-154 | %s prints the text before the NUL, and %c the character with that code, below 128 the code itself |
| Printf.OthersTakeNothing | elfloader-tool/src/printf.c:81-177 | a doubled percent sign prints one, any other letter and any other letter after l a question mark, a modifier nothing; none takes an argument |

## Left out

- The byte layout of ELF headers, `elf_checkFile` and the header accessors: a file is a value with its fields widened to 64 bits and a flag for validity.
- The CPIO library is not part of this model: the archive is a list of named files lying inside the loader.
- `strlen` is not modelled, nor are `puts` and `printf` with their count and `__fputc`, `print_hash`, and the messages printed before and after an abort: an abort is a result without a value.
- UART drivers, GIC, SCU, monitor mode, assembly entry code, EFI, device trees, RISC-V and the other platforms' `init_cpus`: register access and plumbing.
- Cryptographic strength of the digests.
- Lines of C that are one loop or one switch inside a function are sometimes a method of their own here (`CopyUnits`, `Expand`, `UpdateBlocks`, `RoundF`, `FillDigits`, `PrintDirective`); the statements are the same.
- Strings.Memcpy: addresses do not wrap around the address space, as for any C object.
- Sha256Impl.Sha256State.Update: the data do not lie in the buffer of the state itself; the same holds for the MD5 state.
- ElfLoad.UnpackElfToPaddr: memory is plain memory from address 0 on, without caches and devices; that no segment is overwritten before it is read and that no write reaches the ELF header or the header table are preconditions, which the source does not check.
- ElfLoad.LoadFile: the same preconditions; `Example.HeadersCanBeLost` shows what goes wrong without the second.
- ElfLoad.LoadersAgree: is stated where no virtual address wraps, loadable segments are disjoint and the places the in-place loader writes to are disjoint (`Example.BothLoadersSuit` shows that this can be met).
- LoadImages.LoadElf: the source checks only the image region against the loader, so that the header page fits a page and misses the loader and its archive is a precondition; the bytes between the end of an image and its page round-up are not zeroed by the source, so they keep what they held.
- LoadImages.LoadImages: each file's headers lie in the archive; memory ends below the top of the address space, and images that are placed lie inside it (`Example.DemandsCanBeMet` shows that this and the other demands can be met).
- Hash.PaddingSuffixFree: is stated below 2^61 bytes, where the length field has not wrapped.
- Smp.RunInv: the maximum of 4 cores is a parameter; memory is sequentially consistent, `psci_cpu_on` starts exactly the named core or fails, the entry code hands the mailbox to `core_entry` unchanged, and the stack of core 1, which grows down from its own address into the page of the mailbox, does not reach the mailbox word at the start of that page; barriers are therefore not modelled. An up-flag outside the array, which no run reaches, is modelled as a store without effect.
- Mmu32.InitBootVspace: above 0xfff00000, and for a virtual start of zero, the second loop of the source runs outside the directory (`Mmu32.DirectoryIffStart`), which has no meaning in C; both are excluded. Access permissions of short descriptors and the access flag of long ones are interpreted by the walk; domain, memory type and shareability are pinned down bit by bit (`Mmu32.TablesBitForBit`, `Mmu32.LpaeTablesBitForBit`) but not interpreted.
- Mmu64.HypMapIff: the virtual start is in the range that TTBR0 translates and the physical start is a page with a GiB of physical addresses from there on; what MAIR says about memory types 0 and 4 is not part of this model.
- Printf.Vxprintf: the output function is the one of `sprintf`; its count and the indices stay below 2^31, and passing an argument of the wrong type or too few arguments has no meaning.
