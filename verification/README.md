# libelf, twice, and the data structures it rests on

The repository carries two independent implementations of libelf, the library that reads and writes ELF object files
(the elftoolchain one and the elfutils one), and the small data structures they are built with.  This project models
what is hard about them and proves it:

* **elftoolchain's `elf_update()`**: the layout pass, the sorted list of extents, and the writers that build the new
  file.  The image that is written is *the* image that the updated headers describe (`ElfImage.IsImage` says what that
  is without naming the writers, and there is only one), the layout is a fixed point, no extent is ever refused or
  overlaps another, and the run-time asserts of the writer hold.  `ElfContents` and `ElfFields` say which bytes the file
  holds and what layout stores and refuses in terms of buffers, fields and translators alone.
* **elfutils' `updatenull`, `updatefile` and `updatemmap`**: the layout loop with its dirty flags, the writer that goes
  through a file descriptor with its lazily initialised fill buffer, and the writer that moves sections about inside
  the mapping that still holds their old contents.  Both writers are proved to leave one specified output
  (`EuImage.FileOut`), in full and in incremental mode, where the section header table of `updatefile` may come from an
  array in memory; `AddedIff` says exactly when it is then the table of the sections.  `EuPlaces` says of every part of
  the file, for any set of dirty flags, what ends up in it, and `EuFields` what layout stores.  Relocation in the mapping
  loses no byte; on a dirty descriptor the two leave the same file, `CoveredIff` says exactly when that file is the
  image, and `CleanWritersAgreeIff` when the two agree with nothing dirty.
* **uthash**: two views of one set of elements (bucket chains and application order), kept in agreement by adding,
  deleting, expanding and sorting; `HASH_FIND` is right and does not depend on the Bloom filter.
* **fixedsizehash and `next_prime`**: open addressing whose lookups end because the table size is prime; the whole
  number theory that this needs is proved, including when `is_prime` and `next_prime` are wrong, and that two primes of
  63 and 64 bits are prime, so that every table can be made.
* **Sorting and hashing**: `STAILQ_SORT` and `HASH_SRT` are the one stable sort, on linked lists updated in place;
  the fast ELF hash agrees with the plain one on the low 32 bits.
* **ar(1) archives**: parsing a symbol table undoes encoding it, walking an archive as it is written finds the contents
  of its members, every ordinary member is visited once, and descriptors are released exactly when nothing needs them.

Code that changes things in place is modelled by classes, arrays and loops: each method is proved against a function or
predicate over values, and the properties are proved about those.  Abstract parts are parameters: record sizes and
translators (`ElfObject.Codec`, `EuObject.Format`), hash and comparison functions, and the test that `elf_memory()`
applies to a member.

Module names starting with `Elf` belong to elftoolchain's libelf, with `Eu` to elfutils' libelf, with `Ut` to uthash.
`dfyconfig.toml` lists the sources; `dafny verify dfyconfig.toml` checks them all.

## Where the code does not do what one would expect

Each of these is proved, with the exact condition and an input that meets it.

| what happens | condition | input |
|---|---|---|
| `_libelf_write_scn()` asserts that a section starts at a multiple of its type's alignment; a header whose `sh_addralign` is not such a multiple can violate it | `ElfUpdateFacts.TypeAlignmentIff` | `ElfUpdateCases.HalfwordBreaksAssert` |
| writing an untouched section whose raw data was not fetched before can fail, because `elf_rawdata()` compares the rewritten header with the size of the old file | `ElfUpdateFacts.WriteSucceedsIff` | `ElfUpdateCases.MovedCannotBeWritten` |
| `e_shoff` of a class-32 file is cut off at 4 GiB | `ElfLayoutFacts.TableOffsetIff` | `ElfUpdateCases.TableTooFar` |
| `elf_strptr()` pads for no empty buffer, though the layout does | `StringTable.ScanAgreesIff` | `StringTable.EmptyBufferDisagrees` |
| `is_prime()` is wrong for 1 and 3; `next_prime()` of a seed past the last prime wraps and returns 1 | `Primes.IsPrimeOdd`, `Primes.NextPrime` | 1 and 3, in the same contracts; `Primes.NoPrimeAtTheTop` |
| `fshash_init()` accepts sizes for which three times the number of entries wraps, and makes a table too small | `FixedHash.SlotsIff` | `FixedHash.WrappedSlots` |
| an entry whose hash is zero is lost | `FixedHash.StoredIsLast` | any key with that hash |
| looking up a key whose hash is zero can compare it with an entry that is not there | `FixedHash.Table.Lookup` | `FixedHash.ZeroHashMeetsEmpty` |
| `elf_hash()` on a 64-bit `unsigned long` can carry into bit 32, and then differs from `_dl_elf_hash()` | `ElfHash.WithinIff` | `ElfHash.CarryDiffers` |
| `STAILQ_SORT` of an empty queue leaves the tail pointer in a local variable | `StailqSort.Sort` | the empty queue |
| `updatenull` cuts offsets to 32 bits for either file class | `EuLayoutFacts.OffsetsTrueIff` | `EuLayoutFacts.FarTable` |
| a data block with `d_align` 0 is placed over those before it | `EuLayoutFacts.ZeroAlignIff` | `EuLayoutFacts.ZeroAlignOverlaps` |
| with the section header table in front of a section, `fill_mmap` leaves gaps unfilled or overwrites data | `EuMmap.MapFillsGapIff` | `EuMmap.EarlyTableOverwrites` |
| the gap between two sections without a data list is not filled, even on a dirty descriptor | `EuTheorems.CoveredIff` | any gap there, by `EuTheorems.UncoveredKeeps` |
| with nothing dirty, `updatemmap` still fills the gaps in front of sections with a data list; `updatefile` does not | `EuClean.CleanWritersAgreeIff` | `EuClean.GapDiffers` |
| after a section was added to a file read without a mapping, `updatefile` can take the section header table from the array of the old headers, and write what lies behind it in memory as the header of the new section | `EuTable.TableTrueIff`, `EuTable.AddedIff` | `EuAdded.BssIsLost` |
| an SVR4 symbol table with no entries is refused | `ArSymtab.RoundTripIff` | `ArSymtab.EmptyRefused` |
| the first `elf_begin()` on an archive of special members only reads a header behind the end of the file | `ArOpen.FirstBeginInsideIff` | `ArOpen.OnlyStringTable` |
| an empty member, or one that cannot be opened, ends a walk over an archive | `ArWalk.OpenableIff`, `ArOpen.WalkVisitsAll` | any such member |

## Model

| member | source | states |
|---|---|---|
| `Extents.ExtentList.IsUnused` | elftoolchain_libelf/libelf/elf_update.c:359-395 | a range is free exactly if no listed extent clashes with it, and the position found has all earlier extents before the range and all later ones behind it |
| `Extents.ExtentList.Insert` | elftoolchain_libelf/libelf/elf_update.c:401-436 | the list stays sorted; an insertion is refused exactly on a clash and then changes nothing; a range behind everything is appended and never refused |
| `Extents.ClashIsOverlap` | elftoolchain_libelf/libelf/elf_update.c:365-383 | for nonempty ranges the comparison of end points is sharing a byte |
| `Extents.SortedIsDisjoint` | elftoolchain_libelf/libelf/elf_update.c:401-436 | no two members of a sorted list share a byte |
| `ElfLayoutFacts.DataInOrder` | elftoolchain_libelf/libelf/elf_update.c:192-265 | descriptors of a section do not overlap, come in order, and each sits at a multiple of its own alignment |
| `ElfLayoutFacts.DataAlignedInFile` | elftoolchain_libelf/libelf/elf_update.c:192-333 | with a power of two in the header, every buffer lands at a file offset divisible by its `d_align` |
| `ElfLayoutFacts.PlacedTwice` | elftoolchain_libelf/libelf/elf_update.c:192-265 | placing descriptors again changes neither offsets, size, alignment nor errors |
| `ElfLayoutFacts.LayoutScnTwice` | elftoolchain_libelf/libelf/elf_update.c:290-333 | laying out a section again at the same place gives it back unchanged |
| `ElfLayoutFacts.LayoutScnsPacked` | elftoolchain_libelf/libelf/elf_update.c:442-479 | `rc` bounds the end of every extent so far, through the whole section loop |
| `ElfLayoutFacts.LayoutScnsLists` | elftoolchain_libelf/libelf/elf_update.c:442-479 | the extent list is the header extents followed by one extent for each section with contents, in list order |
| `ElfLayoutFacts.NoOverlap` | elftoolchain_libelf/libelf/elf_update.c:503-706 | no two extents of a laid-out object share a byte, and the image ends where the last one does |
| `ElfLayoutFacts.NeverRefused` | elftoolchain_libelf/libelf/elf_update.c:402-436 | in library layout the extent of a section never clashes with those listed before it |
| `ElfLayoutFacts.LayoutIsFixedPoint` | elftoolchain_libelf/libelf/elf_update.c:503-706 | laying out a laid-out object gives back the same object (offsets, sizes, alignments, `d_off`, `e_phoff`, `e_shoff`), size and extents |
| `ElfLayoutFacts.TableOffsetIff` | elftoolchain_libelf/libelf/elf_update.c:695-703 | `e_shoff` is the place of the section header table exactly if that fits the file class |
| `Arith.PowerIff` | elftoolchain_libelf/libelf/elf_update.c:215-219 | the alignments that are accepted are the powers of two |
| `ElfFields.FileAlignments` | elftoolchain_libelf/libelf/libelf_align.c:100-125 | which types have which alignment in a file of either class |
| `ElfFields.DescriptorErrors` | elftoolchain_libelf/libelf/elf_update.c:192-235 | descriptors are accepted exactly if each has a type, the version of the object, a power of two as alignment and a size that is a multiple of its type; else the first that is not is refused, for its version exactly if it has a type |
| `ElfFields.HeaderErrors` | elftoolchain_libelf/libelf/elf_update.c:544-571 | which of the four tests of the header fails first, with its code |
| `ElfFields.ContentsRead` | elftoolchain_libelf/libelf/elf_data.c:65-162 | what is read of a section, from which bytes of the file, or which test fails first |
| `ElfFields.ScnErrors` | elftoolchain_libelf/libelf/elf_update.c:149-235 | a section cannot be laid out exactly if its contents cannot be read or a descriptor is refused, and then with that error |
| `ElfFields.LayoutErrors` | elftoolchain_libelf/libelf/elf_update.c:503-706 | a layout fails with the error of the header, or else of the first section that cannot be laid out |
| `ElfFields.DescriptorsPacked` | elftoolchain_libelf/libelf/elf_update.c:236-265 | the first descriptor is at zero, each other one at the least multiple of its alignment from the end of the one before, and the size of the section is the end of the last |
| `ElfFields.ScnFields` | elftoolchain_libelf/libelf/elf_update.c:111-336 | a section starts at the least multiple, from the end of what comes before, of the widest of its own and its descriptors' alignments; that, its offset, its size and the entry size of its type are stored, and nothing else of its header changes |
| `ElfFields.HeaderFields` | elftoolchain_libelf/libelf/elf_update.c:578-599 | sizes and counts in the header, with the limits from which a count is kept elsewhere; the rest stays |
| `ElfFields.SectionZero` | elftoolchain_libelf/libelf/libelf_extended.c:48-134 | counts that do not fit are in `sh_info` and `sh_size` of section zero, which otherwise stays |
| `ElfFields.PhdrPlace` | elftoolchain_libelf/libelf/elf_update.c:601-636 | the program headers start at the next multiple of an address behind the header |
| `ElfFields.TablePlace` | elftoolchain_libelf/libelf/elf_update.c:663-682 | the section headers start at the next multiple of an address behind everything else, and the file ends with them |
| `ElfImage.ImageIsUnique` | elftoolchain_libelf/libelf/elf_update.c:988-1003 | headers and contents determine every byte of the file: there is at most one image of a given size |
| `ElfImage.EncodedAt` | elftoolchain_libelf/libelf/elf_update.c:788-827 | each descriptor's translation is at its `d_off` in the bytes written for its section |
| `ElfImage.EncodedElsewhere` | elftoolchain_libelf/libelf/elf_update.c:788-827 | a byte written for a section that is not fill belongs to a descriptor |
| `ElfImage.ImageHas` | elftoolchain_libelf/libelf/elf_update.c:1022-1062 | after any number of extents each one's bytes are at its start, the length is its end, and other bytes are fill |
| `ElfImage.LayoutIsLaid` | elftoolchain_libelf/libelf/elf_update.c:503-706 | a layout gives the writers all they rely on: extents in order, offsets stored whole in the headers, aligned tables, data in place |
| `ElfImage.ExtentFilled` | elftoolchain_libelf/libelf/elf_update.c:1056-1056 | every writer writes exactly as many bytes as its extent holds |
| `ElfImage.PartInImage` | elftoolchain_libelf/libelf/elf_update.c:1022-1062 | every header, table entry and descriptor is in the built image where the headers say |
| `ElfImage.FillOutsideParts` | elftoolchain_libelf/libelf/elf_update.c:1025-1028 | a byte that is not fill lies in one of those parts |
| `ElfImage.BuiltImageIsImage` | elftoolchain_libelf/libelf/elf_update.c:1005-1062 | what the writers build is the image that the laid-out headers describe |
| `ElfContents.DescriptorInImage` | elftoolchain_libelf/libelf/elf_update.c:795-823 | the translation of the buffer of each descriptor is in the image at the offset of its section plus its `d_off` |
| `ElfContents.RawInImage` | elftoolchain_libelf/libelf/elf_update.c:758-786 | so are the bytes of the old file for a section that was not read |
| `ElfContents.HeaderInImage` | elftoolchain_libelf/libelf/elf_update.c:834-869 | the image starts with the translated header |
| `ElfContents.PhdrInImage` | elftoolchain_libelf/libelf/elf_update.c:875-926 | each program header is at its place in the table at `e_phoff` |
| `ElfContents.ShdrInImage` | elftoolchain_libelf/libelf/elf_update.c:932-986 | each translated section header is at its place in the table at `e_shoff` |
| `ElfContents.FillInImage` | elftoolchain_libelf/libelf/elf_update.c:1025-1028 | and bytes outside of all these are fill |
| `ElfContents.ContentsWritten` | elftoolchain_libelf/libelf/elf_update.c:712-827 | from an object to its image: what a descriptor held before layout is, translated, where the section header and its `d_off` say, and a section that was not touched has the bytes it had in the old file |
| `ElfUpdateFacts.SupportedLayout` | elftoolchain_libelf/libelf/elf_update.c:712-827 | laying out a supported object keeps it writable: sections readable from the old file or their buffers, and aligned for their type |
| `ElfUpdateFacts.TypeAlignmentIff` | elftoolchain_libelf/libelf/elf_update.c:744-748 | from any point of the file on, the alignment assert of the section writer holds wherever the section falls exactly if the section's alignment is a multiple of its type's |
| `ElfUpdateFacts.WriteSucceedsIff` | elftoolchain_libelf/libelf/elf_update.c:758-824 | writing succeeds exactly if each section in the image has its raw data within the old file, or descriptors that can all be translated |
| `ElfUpdateCases.HalfwordBreaksAssert` | elftoolchain_libelf/libelf/elf_update.c:744-748 | a class-32 object whose layout puts a section of words at offset 54, where that assert fails |
| `ElfUpdateCases.MovedCannotBeWritten` | elftoolchain_libelf/libelf/elf_data.c:212-276 | a class-32 file that cannot be written once program headers are added: its untouched section moves behind the end of the old file, where its raw data is not to be had |
| `ElfUpdateCases.TableTooFar` | elftoolchain_libelf/libelf/elf_update.c:695-703 | a class-32 object with a section of almost 4 GiB: its table goes to 4 GiB, and `e_shoff` says 0 |
| `ElfUpdate.Elf.constructor` | elftoolchain_libelf/libelf/libelf_ehdr.c:166-206 | a descriptor starts with what reading the executable header gave, a section zero included, and is ready for the operations below |
| `ElfUpdate.Elf.LoadSectionHeaders` | elftoolchain_libelf/libelf/elf_scn.c:44-127 | succeeds exactly if the table lies in the file with the right entry size; afterwards list position is index and every header is the translation of its record, a section zero read before being kept |
| `ElfUpdate.Elf.NeedSections` | elftoolchain_libelf/libelf/elf_update.c:643-646 | section headers are read once, and only for an object that came from a file |
| `ElfUpdate.Elf.TableInFileIff` | elftoolchain_libelf/libelf/elf_scn.c:61-85 | the table can be read exactly if it lies in the file and its entries have the expected size |
| `ElfUpdate.Elf.FromFile` | elftoolchain_libelf/libelf/elf_scn.c:107-122 | a section read from the file has the translated header of its row, and its contents are at the offset given there |
| `ElfUpdate.Elf.ResyncedIs` | elftoolchain_libelf/libelf/elf_update.c:643-646 | updating is refused for section headers that are not in the file, and else exactly if layout is |
| `ElfUpdate.Elf.NewScn` | elftoolchain_libelf/libelf/elf_scn.c:169-222 | reads the sections first if need be, adds section zero to an empty list, and keeps list position equal to index with `e_nscn` the length |
| `ElfUpdate.Elf.PlaceDescriptors` | elftoolchain_libelf/libelf/elf_update.c:192-265 | the loop reports the first bad descriptor, or else places all of them as the layout specification does |
| `ElfUpdate.Elf.ComputeSectionExtents` | elftoolchain_libelf/libelf/elf_update.c:111-336 | lays out one section as specified, or returns the specified error, and touches no other |
| `ElfUpdate.Elf.ResyncSections` | elftoolchain_libelf/libelf/elf_update.c:442-479 | the section loop refines the layout of the section list, extents included; no insertion fails |
| `ElfUpdate.Elf.LayoutHeaders` | elftoolchain_libelf/libelf/elf_update.c:572-636 | places the header and the program header table and sets the fixed header fields, nothing else |
| `ElfUpdate.Elf.LayoutTable` | elftoolchain_libelf/libelf/elf_update.c:663-682 | puts the section header table last, aligned, if there are sections |
| `ElfUpdate.Elf.GetScn0` | elftoolchain_libelf/libelf/libelf_extended.c:37-46 | a section zero is there afterwards, made if there was none |
| `ElfUpdate.Elf.SetPhnum` | elftoolchain_libelf/libelf/libelf_extended.c:107-134 | a count from `PN_XNUM` on goes to `sh_info` of section zero, which is made if need be |
| `ElfUpdate.Elf.SetShnum` | elftoolchain_libelf/libelf/libelf_extended.c:48-76 | a count from `SHN_LORESERVE` on goes to `sh_size` of section zero, which is made if need be |
| `ElfUpdate.Elf.ResyncElf` | elftoolchain_libelf/libelf/elf_update.c:503-706 | the layout pass refines the layout of the object, whose sections it reads if need be: same error, or same size, object and extents |
| `ElfUpdate.Elf.ResyncRest` | elftoolchain_libelf/libelf/elf_update.c:648-705 | the part of that pass after the headers: sections, table, extended counts and the two offsets |
| `ElfUpdate.Elf.StoreCounts` | elftoolchain_libelf/libelf/elf_update.c:686-703 | the header ends up with the stored offsets and counts, and section zero with counts too large for it |
| `ElfUpdate.Elf.FillGap` | elftoolchain_libelf/libelf/elf_update.c:802-805 | the bytes between two descriptors become fill, and no others change |
| `ElfUpdate.Elf.WriteScn` | elftoolchain_libelf/libelf/elf_update.c:712-828 | puts the section's bytes at its place and nothing anywhere else, ending where its extent ends; or fails exactly if they cannot be had |
| `ElfUpdate.Elf.WriteDescriptors` | elftoolchain_libelf/libelf/elf_update.c:794-827 | the descriptor loop writes the encoding of the section, gaps filled |
| `ElfUpdate.Elf.WriteDescriptor` | elftoolchain_libelf/libelf/elf_update.c:795-826 | one more descriptor: the bytes of the section so far grow by fill up to its offset and its translation, or translating it fails |
| `ElfUpdate.Elf.WriteEhdr` | elftoolchain_libelf/libelf/elf_update.c:834-869 | the translated executable header is at the start, nothing else changes, and the end returned is its length |
| `ElfUpdate.Elf.WritePhdr` | elftoolchain_libelf/libelf/elf_update.c:875-926 | the program headers are at `e_phoff` one after the other, and nothing else changes |
| `ElfUpdate.Elf.WriteShdr` | elftoolchain_libelf/libelf/elf_update.c:932-986 | writes each section header at the place of its index, which fills the table without a gap |
| `ElfUpdate.Elf.WriteExtent` | elftoolchain_libelf/libelf/elf_update.c:1030-1056 | whatever the kind of extent, its writer ends where the extent does |
| `ElfUpdate.Elf.WriteElf` | elftoolchain_libelf/libelf/elf_update.c:1005-1162 | the asserts on `nrc`, `rc` and `newsize` hold on every run, and the file becomes the image; on failure it is left alone |
| `ElfUpdate.Elf.Update` | elftoolchain_libelf/libelf/elf_update.c:1168-1215 | the error or the size of the specified layout; after a write the file is the image of the laid-out object, and without one it is unchanged; every descriptor's buffer is in the file, translated, where the new section header and its `d_off` say |
| `ElfUpdate.HeadersReadBack` | elftoolchain_libelf/libelf/elf_scn.c:106-122 | loading the section header table of a written image gives back the headers it was written from |
| `StringTable.StrPtr` | elftoolchain_libelf/libelf/elf_strptr.c:40-132 | the scan succeeds exactly if some buffer covers the offset at the scan's own positions, and returns the place in it |
| `StringTable.ScanIsLayout` | elftoolchain_libelf/libelf/elf_strptr.c:99-125 | for nonempty byte buffers the positions that the scan counts are those of the layout |
| `StringTable.ScanFindsWhatLayoutPut` | elftoolchain_libelf/libelf/elf_strptr.c:71-128 | a lookup finds exactly what the stored `d_off` values say, and fails exactly on alignment holes and past the end |
| `StringTable.ScanAgreesIff` | elftoolchain_libelf/libelf/elf_strptr.c:93-127 | with empty buffers, the scan looks for every other buffer where the layout put it exactly if the bytes laid out before each of them fit in front of its place in the scan |
| `StringTable.EmptyBufferDisagrees` | elftoolchain_libelf/libelf/elf_strptr.c:103-115 | a table with an empty aligned buffer on which scan and layout disagree |
| `Primes.IsPrimeOdd` | elfutils_libelf/lib/next_prime.c:34-54 | right on an odd candidate exactly if it is above 3; the early exit on overflow of the square loses nothing |
| `Primes.NextPrime` | elfutils_libelf/lib/next_prime.c:56-66 | returns the least prime not below `seed \| 1` exactly if the seed is at least 4 and such a prime fits; ends in every case |
| `Primes.FromOdd` | elfutils_libelf/lib/next_prime.c:60-60 | starting at the next odd number misses no prime from 4 on |
| `Primes.PrimeIs` | elfutils_libelf/lib/next_prime.c:35-51 | a prime leaves a remainder for every divisor between one and itself |
| `Primes.NoPrimeAtTheTop` | elfutils_libelf/lib/next_prime.c:55-66 | no prime fits when the search starts at the last odd number of the range |
| `Primes.PrimeBySquare` | elfutils_libelf/lib/next_prime.c:39-53 | trial division up to the square root decides primality |
| `Primes.NoZeroDivisor` | elfutils_libelf/lib/next_prime.c:34-66 | a prime divides no product of two smaller numbers |
| `FixedHash.ProbesDiffer` | elfutils_libelf/lib/fixedsizehash.h:153-160 | in a table of prime size a probe sequence does not come back to a slot before it has gone round |
| `FixedHash.FullCycle` | elfutils_libelf/lib/fixedsizehash.h:141-166 | and so it visits every slot |
| `FixedHash.ProbeIs` | elfutils_libelf/lib/fixedsizehash.h:141-160 | the slot of each probe, as the first one less so many times one plus the hash modulo the size less two, around the table |
| `FixedHash.CompositeMisses` | elfutils_libelf/lib/fixedsizehash.h:141-166 | with a size that is not prime, a probe sequence can miss slots for ever |
| `FixedHash.Init` | elfutils_libelf/lib/fixedsizehash.h:97-125 | no table exactly if the number of entries is out of range, else an empty one whose size is the least prime not below the number asked for; there always is one |
| `FixedHash.Table.constructor` | elfutils_libelf/lib/fixedsizehash.h:112-124 | an empty table of prime size |
| `FixedHash.WantedIff` | elfutils_libelf/lib/fixedsizehash.h:106-113 | the size asked for is not below the number of entries exactly up to a third of the range of `size_t` |
| `FixedHash.SlotsIff` | elfutils_libelf/lib/fixedsizehash.h:106-113 | the table has no fewer slots than entries it was made for exactly up to a third of the range of `size_t` |
| `FixedHash.WrappedSlots` | elfutils_libelf/lib/fixedsizehash.h:106-113 | for the first seven numbers above that third it has 11 slots |
| `FixedHash.PrimeIsThere` | elfutils_libelf/lib/fixedsizehash.h:112-113 | `next_prime` finds a prime for every number of entries that is let through |
| `LargePrimes.PrimeByRoot` | elfutils_libelf/lib/next_prime.c:56-66 | an odd number with an element that squares to -1 often enough is prime, since every factor needs room for all its powers |
| `LargePrimes.LargePrimesArePrime` | elfutils_libelf/lib/next_prime.c:56-66 | two primes that between them bound the number of slots of every table, by 31 squarings each |
| `FixedHash.Table.Lookup` | elfutils_libelf/lib/fixedsizehash.h:137-170 | ends whenever a slot is empty or the key is there, with the slot of the key, or an empty one if and only if the key is absent; an entry that is not there is compared with the key exactly if the hash is zero, the first slot is used, and no entry was ever stored in the slot where the search ends |
| `FixedHash.Table.Search` | elfutils_libelf/lib/fixedsizehash.h:152-166 | the probe loop does the same from a used first slot with another key on |
| `FixedHash.ZeroHashMeetsEmpty` | elfutils_libelf/lib/fixedsizehash.h:143-162 | a table with one entry, in the first slot of a key whose hash is zero, and no entry in any other slot |
| `FixedHash.LookupDone` | elfutils_libelf/lib/fixedsizehash.h:143-169 | a probe that stops has found the entry of the key, or the place where it belongs |
| `FixedHash.AbsentAfter` | elfutils_libelf/lib/fixedsizehash.h:166-169 | an empty slot on the way proves that the key is absent |
| `FixedHash.StoreStands` | elfutils_libelf/lib/fixedsizehash.h:182-192 | storing where a lookup ended keeps every other entry findable and the slots equal to the map |
| `FixedHash.RoomLeft` | elfutils_libelf/lib/fixedsizehash.h:102-113 | fewer entries than slots leave an empty slot |
| `FixedHash.Table.Store` | elfutils_libelf/lib/fixedsizehash.h:187-192 | the map gains the entry, or stays as it is if the hash is zero |
| `FixedHash.Table.Insert` | elfutils_libelf/lib/fixedsizehash.h:173-195 | refines inserting into a map: -1 and no change exactly if the key is there |
| `FixedHash.Table.Overwrite` | elfutils_libelf/lib/fixedsizehash.h:223-242 | refines updating a map |
| `FixedHash.Table.Find` | elfutils_libelf/lib/fixedsizehash.h:245-260 | refines looking up in a map |
| `FixedHash.StoreAll` | elfutils_libelf/libelf/nlist.c:132-171 | a table made for a number of entries takes that many, and still has room |
| `FixedHash.StoredIsLast` | elfutils_libelf/libelf/nlist.c:163-170 | a key is found exactly if it was stored and its hash is not zero, and with its last entry |
| `ElfHash.Hash` | elftoolchain_libelf/libelf/elf_hash.c:37-54 | the loop computes the plain hash of the name |
| `ElfHash.DlHash` | elfutils_libelf/libelf/dl-hash.h:26-73 | for every NUL-terminated name, the low 32 bits of the plain hash, though clearing is left to the end |
| `ElfHash.ByteIs` | elftoolchain_libelf/libelf/elf_hash.c:40-47 | bytes of a name are unsigned |
| `ElfHash.LowWord` | elfutils_libelf/libelf/dl-hash.h:64-67 | the low 32 bits, as a mask |
| `ElfHash.HashOfMore` | elftoolchain_libelf/libelf/elf_hash.c:46-51 | with one more byte, the hash is sixteen times what it was plus the byte, with the four bits from bit 28 on moved to bit 4 |
| `ElfHash.MovedWord` | elftoolchain_libelf/libelf/elf_hash.c:46-51 | within 32 bits that is the lower 28 bits, combined with the upper four from bit 4 on |
| `ElfHash.HashOfFprintf` | elftoolchain_libelf/libelf/elf_hash.c:39-54 | the hash of a name of seven letters whose last two bytes fold |
| `ElfHash.FastIsPlain` | elfutils_libelf/libelf/dl-hash.h:45-67 | after every byte the two forms agree on the 28 bits that are kept, and the plain form has no others below bit 32 |
| `ElfHash.CarryDiffers` | elftoolchain_libelf/libelf/elf_hash.c:44-51 | a name whose plain hash has bit 32 set |
| `ElfHash.WithinIff` | elftoolchain_libelf/libelf/elf_hash.c:46-51 | the plain hash of any bytes stays within 32 bits, and so equals the fast one, exactly if none of the last eight bytes carries into bit 32 |
| `ElfHash.DigitsAreCarries` | elftoolchain_libelf/libelf/elf_hash.c:46-51 | the lowest digits of the upper half are zero exactly if as many of the last bytes carry nothing |
| `MergeSpec.SortKeeps` | elftoolchain_libelf/common/_elftc.h:214-272 | sorting keeps the elements, with multiplicity |
| `MergeSpec.SortSorts` | elftoolchain_libelf/common/_elftc.h:214-272 | passes over runs of doubling length end in a sorted sequence |
| `MergeSpec.SortStable` | elftoolchain_libelf/common/_elftc.h:252-256 | elements that compare equal keep their order |
| `MergeSpec.StableSortUnique` | elftoolchain_libelf/common/_elftc.h:210-213 | there is only one sorted sequence with the same elements in the same order within each class |
| `MergeSpec.SortIsStableSort` | elftoolchain_libelf/common/_elftc.h:214-272 | sorted, a permutation, and stable |
| `StailqSort.Queue.Init` | elftoolchain_libelf/common/_elftc.h:145-150 | an empty queue |
| `StailqSort.Queue.InsertTail` | elftoolchain_libelf/common/_elftc.h:160-166 | appends a node, tail link included |
| `StailqSort.Queue.RemoveHead` | elftoolchain_libelf/common/_elftc.h:202-208 | takes off the first node, and mends the tail link when it was the last |
| `StailqSort.TakeRun` | elftoolchain_libelf/common/_elftc.h:226-236 | moves the first nodes, as many as asked for or there are |
| `StailqSort.MergeRuns` | elftoolchain_libelf/common/_elftc.h:237-265 | merges the two runs onto the output, and loses or repeats no node |
| `StailqSort.SortPass` | elftoolchain_libelf/common/_elftc.h:222-266 | one pass refines the pass on the sequence of nodes, with the number of merges |
| `StailqSort.Sort` | elftoolchain_libelf/common/_elftc.h:214-272 | terminates with the very nodes in the order that the sort of sequences gives them; the head is a proper queue afterwards exactly if it was not empty |
| `StailqSort.SortedQueue` | elftoolchain_libelf/common/_elftc.h:214-272 | so the nodes are sorted, the same as before, and those that compare equal keep their order |
| `UtBuckets.MaskIsModulus` | elftoolchain_libelf/common/uthash.h:646-649 | masking with a power of two less one is the remainder |
| `UtBuckets.PushFront` | elftoolchain_libelf/common/uthash.h:596-602 | an element at the head of its bucket keeps chains, counts and back links right, and every other bucket as it was |
| `UtBuckets.UnlinkChain` | elftoolchain_libelf/common/uthash.h:615-620 | the chain without the element, linked both ways |
| `UtBuckets.Unlink` | elftoolchain_libelf/common/uthash.h:610-620 | the bucket without the element: head, count and links |
| `UtBuckets.MoveChain` | elftoolchain_libelf/common/uthash.h:669-684 | moving an old chain puts each of its elements in its new bucket once, and counts the nonideal ones |
| `UtBuckets.Redistribute` | elftoolchain_libelf/common/uthash.h:656-685 | expansion keeps the elements, all in their own buckets; `nonideal_items` is the sum of what exceeds the ideal length, and each `expand_mult` is right |
| `UtBuckets.CountsAre` | elftoolchain_libelf/common/uthash.h:645-694 | the counters are the number of elements, and of those that have as many in front of them in their chain as are ideal |
| `UtHash.IdealIsCeiling` | elftoolchain_libelf/common/uthash.h:662-664 | the shift and mask compute the quotient rounded up, which is not zero when it divides |
| `UtBloom.SetBit` | elftoolchain_libelf/common/uthash.h:126-127 | sets one bit of the filter and no other |
| `UtBloom.BitSet` | elftoolchain_libelf/common/uthash.h:126-127 | one bit of a byte is set by or-ing, and no other |
| `UtBloom.IndexFits` | elftoolchain_libelf/common/uthash.h:110-133 | every hash value has its bit inside the filter |
| `UtOrder.Append` | elftoolchain_libelf/common/uthash.h:167-178 | the application order gains the element at its end, linked both ways |
| `UtOrder.Remove` | elftoolchain_libelf/common/uthash.h:217-233 | the application order without the element, head and tail included |
| `UtOrder.MergeRuns` | elftoolchain_libelf/common/uthash.h:729-768 | merges two runs into the emitted list, `prev` links included |
| `UtOrder.SortPass` | elftoolchain_libelf/common/uthash.h:714-771 | one pass refines the pass on the sequence of elements |
| `UtOrder.Sort` | elftoolchain_libelf/common/uthash.h:704-781 | the list from the new head to the new tail is linked both ways and has the very elements in the order that the sort of sequences gives them |
| `UtOrder.SortedOrder` | elftoolchain_libelf/common/uthash.h:704-781 | so the elements are sorted, the same as before, and those that compare equal keep their order |
| `UtHash.Hash.constructor` | elftoolchain_libelf/common/uthash.h:170-173 | no elements, no table |
| `UtHash.Hash.MakeTable` | elftoolchain_libelf/common/uthash.h:142-159 | 32 empty buckets and an empty filter |
| `UtHash.Hash.MakeFilter` | elftoolchain_libelf/common/uthash.h:112-119 | an empty filter of the right size |
| `UtHash.Hash.Rehash` | elftoolchain_libelf/common/uthash.h:651-689 | twice as many buckets hold the same elements; `ideal_chain_maxlen` is the number of elements over the new buckets rounded up |
| `UtHash.Hash.Expand` | elftoolchain_libelf/common/uthash.h:651-697 | and `noexpand` is set after two expansions in a row that helped too little |
| `UtHash.Hash.ExpandIff` | elftoolchain_libelf/common/uthash.h:596-607 | buckets are expanded exactly if the bucket of the new element, by its hash modulo their number, reaches ten times its multiplier plus one, unless expanding was given up |
| `UtHash.Hash.BucketsHold` | elftoolchain_libelf/common/uthash.h:189-192 | every element keeps its hash, is in the bucket that it selects, and has its bit set in the filter |
| `UtHash.Hash.BucketsOnly` | elftoolchain_libelf/common/uthash.h:596-607 | buckets count and link just the elements that belong there |
| `UtHash.Hash.AddToBucket` | elftoolchain_libelf/common/uthash.h:596-607 | the element is in its bucket, and the table has been expanded exactly if the threshold was reached |
| `UtHash.Hash.AddToFilter` | elftoolchain_libelf/common/uthash.h:129-130 | the filter lets the new element pass, and still all others |
| `UtHash.Hash.Enter` | elftoolchain_libelf/common/uthash.h:164-182 | the element is counted, hashed and last in application order, in a new table if it is the first |
| `UtHash.Hash.Add` | elftoolchain_libelf/common/uthash.h:164-187 | the element comes last in application order, and both views agree |
| `UtHash.Hash.FindInBucket` | elftoolchain_libelf/common/uthash.h:582-593 | the first element of the chain with the key, or none |
| `UtHash.Hash.ChainsHold` | elftoolchain_libelf/common/uthash.h:96-107 | looking in the one bucket is looking everywhere, and the filter never stops a key that is there |
| `UtHash.Hash.Find` | elftoolchain_libelf/common/uthash.h:96-107 | nothing exactly if no element has the key, else an element with it, the only one if keys differ; the result is determined without the filter |
| `UtHash.Hash.LeaveOrder` | elftoolchain_libelf/common/uthash.h:217-233 | the list half of deletion |
| `UtHash.Hash.TakeFromBucket` | elftoolchain_libelf/common/uthash.h:234-236 | the bucket half of deletion |
| `UtHash.Hash.Leave` | elftoolchain_libelf/common/uthash.h:216-237 | deletion of one element of several |
| `UtHash.Hash.Delete` | elftoolchain_libelf/common/uthash.h:206-239 | the application order without the element, the last one taking the table along; both views agree |
| `UtHash.Hash.Sort` | elftoolchain_libelf/common/uthash.h:704-781 | the application order becomes what the stable sort of its elements gives; chains, buckets, counts and filter are left alone |
| `UtHash.FsckBucket` | elftoolchain_libelf/common/uthash.h:272-288 | a chain passes exactly if all its links back are right, and is then counted |
| `UtHash.FsckOrder` | elftoolchain_libelf/common/uthash.h:295-311 | so does the application order |
| `UtHash.Hash.Fsck` | elftoolchain_libelf/common/uthash.h:263-313 | as long as links forward can be walked, `HASH_FSCK` accepts a table exactly if all links back and all counts are right |
| `UtHash.Hash.ValidIsConsistent` | elftoolchain_libelf/common/uthash.h:263-313 | and so every table that the operations leave |
| `EuLayout.DefaultEhdr` | elfutils_libelf/libelf/elf32_updatenull.c:98-168 | the header fields and the program header offset, and the header flagged exactly if one of them changed |
| `EuLayout.PlaceData` | elfutils_libelf/libelf/elf32_updatenull.c:271-329 | the first error among the data blocks, or all of them placed, with size, alignment and whether an offset changed |
| `EuLayout.PlaceScn` | elfutils_libelf/libelf/elf32_updatenull.c:206-402 | the body of the section loop refines the placing of one section |
| `EuLayout.PlaceScns` | elfutils_libelf/libelf/elf32_updatenull.c:202-409 | the section loop refines the placing of all sections, the error of the first bad one included |
| `EuLayout.NumberScns` | elfutils_libelf/libelf/elf32_updatenull.c:178-186 | a section count from `SHN_LORESERVE` on goes to section zero |
| `EuLayout.StoreTable` | elfutils_libelf/libelf/elf32_updatenull.c:412-434 | a moved section header table flags the whole descriptor |
| `EuLayout.UpdateNull` | elfutils_libelf/libelf/elf32_updatenull.c:125-443 | the layout pass refines the layout of the object: its error, or its total size and every field and flag |
| `EuLayoutFacts.DirtyIff` | elfutils_libelf/libelf/elf32_updatenull.c:317-376 | a section is left dirty exactly if it was, or if it or a section before it has been moved, resized or rearranged |
| `EuLayoutFacts.DataInOrder` | elfutils_libelf/libelf/elf32_updatenull.c:311-320 | data blocks with an alignment follow each other, aligned |
| `EuLayoutFacts.ZeroAlignIff` | elfutils_libelf/libelf/elf32_updatenull.c:311-320 | no block starts before the end of those in front of it exactly if every block with an alignment of zero has nothing in front of it |
| `EuLayoutFacts.ZeroAlignOverlaps` | elfutils_libelf/libelf/elf32_updatenull.c:290-319 | two blocks with an accepted alignment of 1 and 0 that are put in the same place |
| `EuLayoutFacts.ScnAlignFits` | elfutils_libelf/libelf/elf32_updatenull.c:211-217 | an accepted section gets a power of two that all its blocks' alignments divide |
| `EuLayoutFacts.RunningIsIdeal` | elfutils_libelf/libelf/elf32_updatenull.c:355-374 | below 4 GiB the running size is what unbounded arithmetic gives |
| `EuLayoutFacts.OffsetsTrueIff` | elfutils_libelf/libelf/elf32_updatenull.c:355-433 | the stored offsets are the intended ones exactly if the section header table starts below 4 GiB |
| `EuLayoutFacts.FarTable` | elfutils_libelf/libelf/elf32_updatenull.c:350-376 | with a section of 4 GiB the stored offsets are not the intended ones, for either class |
| `EuLayoutFacts.LayoutInOrder` | elfutils_libelf/libelf/elf32_updatenull.c:202-437 | sections are aligned, in index order, disjoint, behind the headers; `SHT_NOBITS` takes no space; the table comes last and ends the file |
| `EuLayoutFacts.DataAligned` | elfutils_libelf/libelf/elf32_updatenull.c:276-376 | every data block lies in its section behind those before it, at a file offset divisible by its alignment |
| `EuFields.DataErrors` | elfutils_libelf/libelf/elf32_updatenull.c:290-303 | data is accepted exactly if every block has version 1 and a power of two or zero as alignment; else the first that has not is refused, for its version first |
| `EuFields.ScnErrors` | elfutils_libelf/libelf/elf32_updatenull.c:186-400 | what is tested of a section, in this order, on values of 32 bits |
| `EuFields.LayoutErrors` | elfutils_libelf/libelf/elf32_updatenull.c:186-400 | the layout fails exactly if something is wrong with a section other than section zero, with the error of the first |
| `EuFields.EhdrFields` | elfutils_libelf/libelf/elf32_updatenull.c:60-134 | section count, program header offset and sizes in the header, and which changes flag the header and which the descriptor |
| `EuFields.EmptyFields` | elfutils_libelf/libelf/elf32_updatenull.c:60-134 | without sections there is the header, and the program headers behind it |
| `EuFields.ZeroFields` | elfutils_libelf/libelf/elf32_updatenull.c:98-127 | a count from 0xff00 on is in `sh_size` of section zero, whose header is flagged if it changes |
| `EuFields.ScnOffset` | elfutils_libelf/libelf/elf32_updatenull.c:350-376 | a section goes to the least multiple, from the end of the one before, of the widest of its own and its blocks' alignments |
| `EuFields.ScnStored` | elfutils_libelf/libelf/elf32_updatenull.c:186-376 | the size of its contents and the entry size of its type are stored, a change of alignment or entry size flags its header, and nothing else of it changes |
| `EuFields.BlockOffset` | elfutils_libelf/libelf/elf32_updatenull.c:325-336 | a block goes to the least multiple of its alignment from the end of the one before |
| `EuFields.TablePlace` | elfutils_libelf/libelf/elf32_updatenull.c:424-438 | the table goes to the next multiple of an address behind the last section, and ends the file |
| `EuImage.CompareOrders` | elfutils_libelf/libelf/elf32_updatefile.c:52-81 | `compare_sections` is a total order on offset, size and index |
| `EuImage.CompareIs` | elfutils_libelf/libelf/elf32_updatefile.c:53-86 | sections are ordered by offset, then size, then index |
| `EuImage.SortedKeys` | elfutils_libelf/libelf/elf32_updatefile.c:90-100 | the sorted array has every section once |
| `EuImage.SortUnique` | elfutils_libelf/libelf/elf32_updatefile.c:90-100 | any sort would give the same array |
| `EuImage.SortedIsAscending` | elfutils_libelf/libelf/elf32_updatefile.c:84-89 | sections that are apart come in the order of their bytes |
| `EuImageFacts.DataOutLength` | elfutils_libelf/libelf/elf32_updatefile.c:737-819 | the output ends where the last data block of the section does |
| `EuImageFacts.ScnsOutLength` | elfutils_libelf/libelf/elf32_updatefile.c:718-833 | what has been written always ends before the next section, and before the table |
| `EuFile.Writer.constructor` | elfutils_libelf/libelf/elf32_updatefile.c:539-543 | nothing of the fill buffer is initialised |
| `EuFile.Writer.Prepare` | elfutils_libelf/libelf/elf32_updatefile.c:505-515 | afterwards as much of the buffer as is needed holds fill bytes |
| `EuFile.Writer.Fill` | elfutils_libelf/libelf/elf32_updatefile.c:503-534 | terminates, and writes exactly `len` fill bytes from the buffer, in pieces |
| `EuFile.Writer.FillTo` | elfutils_libelf/libelf/elf32_updatefile.c:740-757 | the output grows up to a position, by fill bytes or by the old ones |
| `EuFile.Writer.WriteBlock` | elfutils_libelf/libelf/elf32_updatefile.c:740-815 | the output grows by one data block, written exactly if it is dirty, and by the gap before it, filled exactly if the block is dirty or first in its section after a changed one; bytes behind it stay |
| `EuFile.Writer.WriteData` | elfutils_libelf/libelf/elf32_updatefile.c:737-819 | the output grows by all data blocks of a section, their flags are cleared, and a change is reported exactly if one was written |
| `EuFile.Writer.WriteScn` | elfutils_libelf/libelf/elf32_updatefile.c:720-836 | the output grows by one section: not at all for section zero and `SHT_NOBITS`, and without a data list by its old bytes behind a gap; the flag of the section itself stays |
| `EuFile.WriteEhdr` | elfutils_libelf/libelf/elf32_updatefile.c:548-591 | the file starts with the header if it or the descriptor is dirty, and with its old bytes otherwise |
| `EuFile.WritePhdr` | elfutils_libelf/libelf/elf32_updatefile.c:602-664 | the output grows by the program header table and a filled gap before it, or by the old bytes in their place |
| `EuFile.WriteHeaders` | elfutils_libelf/libelf/elf32_updatefile.c:548-673 | the output starts with the header and the program header table, and the position behind them is noted |
| `EuFile.WriteScns` | elfutils_libelf/libelf/elf32_updatefile.c:718-849 | the output grows by all sections in sorted order, and their header flags are cleared; a dirty one among them is noticed; headers are collected at their index if there is no array of headers or the descriptor is dirty |
| `EuFile.WriteTable` | elfutils_libelf/libelf/elf32_updatefile.c:851-868 | the output grows by the last gap, and by a whole table exactly if any header or the descriptor is dirty: the collected headers, or as many bytes from the start of the array on |
| `EuFile.WriteSections` | elfutils_libelf/libelf/elf32_updatefile.c:676-873 | sections, gap and table together, with the array as the source of the table when there is one and the descriptor is not dirty |
| `EuFile.UpdateFile` | elfutils_libelf/libelf/elf32_updatefile.c:537-878 | the file holds the specified output, for any memory behind the array of section headers, and is otherwise as it was; flags are cleared |
| `EuObject.Elf.NewScn` | elfutils_libelf/libelf/elf_newscn.c:60-139 | one section more, with a header of its own that is dirty, behind a section zero that is made if there was none |
| `EuTable.TableTrueIff` | elfutils_libelf/libelf/elf32_updatefile.c:691-704 | through a descriptor the file is what it would be with collected headers exactly if the descriptor is dirty, no section header is, or the memory from the array on holds the headers of all sections |
| `EuTable.AddedIff` | elfutils_libelf/libelf/elf32_getshdr.c:60-77 | and, for all that may lie behind an array made for the first `n` sections, exactly if the descriptor is dirty, no section header is, or `n` is the number of sections |
| `EuTable.BehindIsWritten` | elfutils_libelf/libelf/elf32_updatefile.c:842-868 | otherwise the entries of the sections outside the array are the bytes behind it |
| `EuAdded.TableStays` | elfutils_libelf/libelf/elf32_updatenull.c:350-376 | a section that takes no space, added last, does not move the section header table |
| `EuAdded.AddedScnIsLost` | elfutils_libelf/libelf/elf32_updatenull.c:430-434 | so adding it to a laid-out object leaves the descriptor not dirty, and writing it does not always give the table of the sections |
| `EuAdded.BssIsLost` | elfutils_libelf/libelf/elf_newscn.c:108-139 | a file of a header and section zero, to which a `SHT_NOBITS` section is added |
| `EuMmap.FillMmap` | elfutils_libelf/libelf/elf32_updatefile.c:103-124 | which bytes `fill_mmap` overwrites, for every place of the table |
| `EuMmap.MapFillsGapIff` | elfutils_libelf/libelf/elf32_updatefile.c:109-123 | it fills the gap, all of it and nothing else, exactly under a condition on where the table ends |
| `EuMmap.EarlyTableOverwrites` | elfutils_libelf/libelf/elf32_updatefile.c:117-123 | a place of the table for which it overwrites data |
| `EuMmap.FillBeforeTable` | elfutils_libelf/libelf/elf32_updatefile.c:109-115 | in front of the table it fills the gap |
| `EuMmap.SavedIsSettled` | elfutils_libelf/libelf/elf32_updatefile.c:280-305 | after the save pass no data is in the mapping in front of where its section will be |
| `EuMmap.SavedScnOut` | elfutils_libelf/libelf/elf32_updatefile.c:252-306 | saving does not change what is to be written |
| `EuMmap.Mapper.Fill` | elfutils_libelf/libelf/elf32_updatefile.c:338-346 | the output grows by a filled gap in front of the table |
| `EuMmap.Mapper.Move` | elfutils_libelf/libelf/elf32_updatefile.c:399-404 | the bytes moved are those that were there at the start, since nothing has been written that far |
| `EuMmap.Mapper.WriteBlock` | elfutils_libelf/libelf/elf32_updatefile.c:332-416 | the output grows by one data block with the gap before it, though its bytes may still be in the mapping |
| `EuMmap.Mapper.WriteData` | elfutils_libelf/libelf/elf32_updatefile.c:330-418 | the output grows by all data blocks of a section, and a change is reported exactly if one was written |
| `EuMmap.Mapper.WriteScn` | elfutils_libelf/libelf/elf32_updatefile.c:312-434 | the output grows by one section, whose flags are cleared |
| `EuMapUpdate.MapEhdr` | elfutils_libelf/libelf/elf32_updatefile.c:135-167 | the mapping starts with the header if it or the descriptor is dirty, also when the header is edited in the mapping, and with its old bytes otherwise |
| `EuMapUpdate.CopyPhdr` | elfutils_libelf/libelf/elf32_updatefile.c:205-208 | the program header table comes to its place whole, also from an overlapping place in the mapping |
| `EuMapUpdate.MapPhdr` | elfutils_libelf/libelf/elf32_updatefile.c:173-215 | the output grows by the program header table and a filled gap before it, or by the old bytes in their place |
| `EuMapUpdate.SaveScn` | elfutils_libelf/libelf/elf32_updatefile.c:256-305 | header and data of one section are copied out exactly if they are in the way |
| `EuMapUpdate.SaveScns` | elfutils_libelf/libelf/elf32_updatefile.c:252-306 | the save pass treats every section once |
| `EuMapUpdate.MapScns` | elfutils_libelf/libelf/elf32_updatefile.c:308-435 | the in-place section loop writes what is specified, though source and destination share the mapping |
| `EuMapUpdate.TailGap` | elfutils_libelf/libelf/elf32_updatefile.c:437-444 | the gap before the table is filled exactly if the descriptor is dirty |
| `EuMapUpdate.MapEntry` | elfutils_libelf/libelf/elf32_updatefile.c:449-474 | one entry becomes the header of its section if that is dirty, and the others stay |
| `EuMapUpdate.MapTable` | elfutils_libelf/libelf/elf32_updatefile.c:446-475 | writing entries in sorted order gives the table in index order |
| `EuMapUpdate.EntriesFlat` | elfutils_libelf/libelf/elf32_updatefile.c:446-475 | the table is its entries one after the other |
| `EuMapUpdate.MapSections` | elfutils_libelf/libelf/elf32_updatefile.c:224-477 | the save pass, the sections, the gap and the table together |
| `EuMapUpdate.UpdateMmap` | elfutils_libelf/libelf/elf32_updatefile.c:126-491 | the mapping holds the specified output and is otherwise as it was; flags are cleared |
| `EuTheorems.ImageUnique` | elfutils_libelf/libelf/elf32_updatefile.c:537-878 | headers, data and the contents of sections that were not read leave no byte of the file open |
| `EuTheorems.DirtyWritesImage` | elfutils_libelf/libelf/elf32_updatefile.c:537-878 | with everything dirty, either writer leaves that image: headers and data in place, sections without a data list as they were, fill elsewhere, if no two of the latter have a gap between them |
| `EuTheorems.DataInPlace` | elfutils_libelf/libelf/elf32_updatefile.c:308-435 | in either writer and mode, a dirty block ends up with the bytes it had at the start, also when they were in the mapping; one that is not dirty leaves its place alone |
| `EuTheorems.ListlessInPlace` | elfutils_libelf/libelf/elf32_updatefile.c:419-429 | in either writer and mode, the contents of a section that was not read stay |
| `EuPlaces.EhdrInPlace` | elfutils_libelf/libelf/elf32_updatefile.c:548-580 | in either writer and mode, the header is written exactly if it or the descriptor is dirty |
| `EuPlaces.PhdrInPlace` | elfutils_libelf/libelf/elf32_updatefile.c:602-664 | so is the program header table |
| `EuPlaces.PhdrGap` | elfutils_libelf/libelf/elf32_updatefile.c:610-616 | and the gap in front of it is filled in the same cases |
| `EuPlaces.StateIs` | elfutils_libelf/libelf/elf32_updatefile.c:672-836 | before each section a writer is where the last one that takes space ends, and knows whether that, or else the headers, has been written |
| `EuPlaces.BlockInPlace` | elfutils_libelf/libelf/elf32_updatefile.c:759-811 | a block has its own bytes, as they were before anything was written, exactly if the section, the block or the descriptor is dirty, and else stays |
| `EuPlaces.GapInPlace` | elfutils_libelf/libelf/elf32_updatefile.c:740-757 | the gap in front of it is filled in these cases, before the first block also after a written section, and in the mapping in any case |
| `EuPlaces.ListlessGap` | elfutils_libelf/libelf/elf32_updatefile.c:821-831 | in front of a section without a data list it is filled exactly after a written section |
| `EuPlaces.TailInPlace` | elfutils_libelf/libelf/elf32_updatefile.c:851-858 | in front of the section header table exactly if the descriptor is dirty |
| `EuPlaces.EntryInPlace` | elfutils_libelf/libelf/elf32_updatefile.c:838-868 | an entry of the table is the header of its section, or comes from the array of headers, if any header is dirty, in the mapping if it is, or if the descriptor is; else it stays |
| `EuPlaces.EndInPlace` | elfutils_libelf/libelf/elf32_updatefile.c:851-868 | what is specified ends with the table |
| `EuImage.FlushedFields` | elfutils_libelf/libelf/elf32_updatefile.c:813-849 | the flags of all that may have been written are cleared, those of sections only in the mapping, and nothing else changes |
| `EuTheorems.UncoveredKeeps` | elfutils_libelf/libelf/elf32_updatefile.c:419-429 | such a gap keeps a byte of the old file |
| `EuTheorems.CoveredIff` | elfutils_libelf/libelf/elf32_updatefile.c:737-833 | the file is the image, whatever it held before, exactly if there is no gap between a section without a data list and a following one without a data list |
| `EuTheorems.WritersAgree` | elfutils_libelf/libelf/elf32_updatefile.c:126-878 | on a dirty descriptor both writers leave the same file, wherever the data is kept and whatever the files held elsewhere, if there is no such gap |
| `EuTheorems.WritersAgreeOnSameFile` | elfutils_libelf/libelf/elf32_updatefile.c:126-878 | and on the same old file even if there is one |
| `EuClean.DataOldIff` | elfutils_libelf/libelf/elf32_updatefile.c:338-346 | when nothing is dirty, the blocks of a section leave its place as it was exactly if the writer is not the mapped one or the gap in front was filled |
| `EuClean.CleanOldIff` | elfutils_libelf/libelf/elf32_updatefile.c:126-878 | with nothing dirty a file is left as it was, always by the writer through a descriptor, and by the mapped one exactly if each gap in front of a section with a data list holds fill bytes |
| `EuClean.CleanWritersAgreeIff` | elfutils_libelf/libelf/elf32_updatefile.c:338-346 | and exactly then the two agree |
| `EuClean.GapDiffers` | elfutils_libelf/libelf/elf32_updatefile.c:740-757 | a clean file with one byte of contents after a gap that is not filled, on which the two writers differ |
| `EuUpdate.LayoutIsWritable` | elfutils_libelf/libelf/elf32_updatenull.c:125-443 | what the layout pass leaves is what the writers need |
| `EuUpdate.ReadIsCovered` | elfutils_libelf/libelf/elf32_updatenull.c:361-367 | none is if every section has been read |
| `EuUpdate.LaidOutImage` | elfutils_libelf/libelf/elf32_updatefile.c:537-878 | layout followed by either writer on a dirty descriptor gives the image, of the size that was computed, exactly if no gap between two sections that were not read is missed |
| `ArSymtab.SkipString` | elftoolchain_libelf/libelf/libelf_ar.c:447-448 | the loop stops behind the terminator, or at the end of the table |
| `ArSymtab.ProcessSvr4` | elftoolchain_libelf/libelf/libelf_ar.c:398-466 | the parse loops refine the parsing function, with an error exactly for a table that is too short, empty, or names an offset outside the file |
| `ArSymtab.EncodedIsTable` | elftoolchain_libelf/libelf/libelf_ar.c:378-386 | an encoded table has its count, offsets and names where the format says |
| `ArSymtab.TableSyms` | elftoolchain_libelf/libelf/libelf_ar.c:432-449 | every entry of such a table is returned with its name, hash and offset |
| `ArSymtab.RoundTrip` | elftoolchain_libelf/libelf/libelf_ar.c:398-466 | parsing an encoded table gives back exactly its entries, in order, and one sentinel |
| `ArSymtab.EmptyRefused` | elftoolchain_libelf/libelf/libelf_ar.c:421-422 | a table without entries is refused, whatever the size of the file |
| `ArSymtab.OutsideRefused` | elftoolchain_libelf/libelf/libelf_ar.c:436-438 | so is one that names an offset outside the file |
| `ArSymtab.RoundTripIff` | elftoolchain_libelf/libelf/libelf_ar.c:398-466 | an encoded table is accepted, and then read back as it was written, exactly if it has entries and all their offsets are in the file |
| `ArSymtab.ParsedIff` | elftoolchain_libelf/libelf/libelf_ar.c:412-456 | any bytes are accepted exactly if they have room for a nonzero count, that many offsets and a byte more, each name starts in them, and each offset is in the file; what comes out is one entry for each and the sentinel |
| `ArSymtab.SkipIs` | elftoolchain_libelf/libelf/libelf_ar.c:447-448 | the next name starts right behind the first NUL, or at the end of the table |
| `ArSymtab.WordIsBig` | elftoolchain_libelf/libelf/libelf_ar.c:387-393 | words are stored with the highest byte first |
| `ArWalk.GetNumber` | elftoolchain_libelf/libelf/libelf_ar_util.c:41-74 | the digit loop refines reading a number, errors included |
| `ArWalk.NumberRoundTrip` | elftoolchain_libelf/libelf/libelf_ar_util.c:41-74 | a decimal number padded with blanks is read as it was written |
| `ArWalk.BadNumber` | elftoolchain_libelf/libelf/libelf_ar_util.c:41-74 | a number that runs into another character is refused |
| `ArWalk.MembersInOrder` | elftoolchain_libelf/libelf/libelf_ar.c:220-248 | members lie in the file, in order and apart |
| `ArWalk.OpenableIff` | elftoolchain_libelf/libelf/libelf_ar.c:250-251 | the members before the first that cannot be opened are all members exactly if all can be opened |
| `ArWalk.OpensIff` | elftoolchain_libelf/libelf/libelf_ar.c:220-251 | a member is opened exactly if it is not empty without its long name, and its bytes are accepted |
| `ArWalk.Archive.constructor` | elftoolchain_libelf/libelf/libelf_ar_util.c:344-350 | the cursor is at a member |
| `ArWalk.Archive.Begin` | elftoolchain_libelf/libelf/libelf_ar.c:198-261 | the member at the cursor, or nothing at the end, if its numbers cannot be read, or if it cannot be opened |
| `ArWalk.Archive.Next` | elftoolchain_libelf/libelf/elf_next.c:53-61 | the cursor is at the next member, or zero after the last |
| `ArWalk.Archive.Walk` | elftoolchain_libelf/libelf/elf_next.c:35-64 | the loop over begin and next ends, and visits each member once and in file order, up to one that cannot be opened |
| `ArOpen.ReadHeader` | elftoolchain_libelf/libelf/libelf_ar_util.c:261-271 | a header is read exactly if it lies in the file, has its magic bytes and a size |
| `ArOpen.Open` | elftoolchain_libelf/libelf/libelf_ar_util.c:228-360 | exactly which archives are opened, and where their tables and first ordinary member are |
| `ArOpen.StartsAtOrdinary` | elftoolchain_libelf/libelf/libelf_ar_util.c:273-348 | walking starts right behind the special members |
| `ArOpen.TablesAreMembers` | elftoolchain_libelf/libelf/libelf_ar_util.c:273-341 | the symbol table is the contents of the first member, the string table those of the first or, behind a symbol table, the second |
| `ArOpen.OpenedBy` | elftoolchain_libelf/libelf/libelf_ar_util.c:261-341 | which bytes make a first member a table, and which a file an archive that can be opened |
| `ArLayout.MemberIs` | elftoolchain_libelf/libelf/libelf_ar.c:211-248 | in a header of sixty bytes as it is written, size and long name are found, and the next header |
| `ArLayout.ArchiveIs` | elftoolchain_libelf/libelf/elf_next.c:53-61 | of an archive as it is written, walking finds the contents of its members, in their order |
| `ArOpen.WalkVisitsAll` | elftoolchain_libelf/libelf/libelf_ar_util.c:273-348 | from opening to the end, all ordinary members are visited once and in order exactly if all can be opened |
| `ArOpen.FirstBeginInsideIff` | elftoolchain_libelf/libelf/libelf_ar.c:209-231 | in a file of members, the first `elf_begin()` after opening reads a header in the file exactly if there is a member besides the special ones; else the cursor is at the end of the file or behind it |
| `ArOpen.OnlyStringTable` | elftoolchain_libelf/libelf/libelf_ar_util.c:273-348 | an archive of 70 bytes with a string table only opens, with the cursor at its end |
| `Lifetime.CountGrows` | elftoolchain_libelf/libelf/libelf_ar.c:257-258 | a new descriptor is one more child of its parent, and of no other |
| `Lifetime.CountShrinks` | elftoolchain_libelf/libelf/elf_end.c:88-91 | a released one is one child less |
| `Lifetime.Library.constructor` | elftoolchain_libelf/libelf/libelf_allocate.c:41-67 | no descriptors |
| `Lifetime.Library.Open` | elftoolchain_libelf/libelf/elf_begin.c:83-84 | a new descriptor, in use once |
| `Lifetime.Library.OpenMember` | elftoolchain_libelf/libelf/libelf_ar.c:250-260 | a new child of the archive, counted |
| `Lifetime.Library.Activate` | elftoolchain_libelf/libelf/elf_begin.c:87-88 | one more use |
| `Lifetime.Library.Release` | elftoolchain_libelf/libelf/elf_end.c:88-91 | one descriptor goes, and no one that stays has it as its parent |
| `Lifetime.Library.End` | elftoolchain_libelf/libelf/elf_end.c:39-95 | the release loop ends; every live descriptor stays in use or has open members, with exact child counts; those released were neither, and no live one has a released parent |

## Left out

- Application-controlled layout (`ELF_F_LAYOUT`), in both libraries.
- Compression, checksums, the `gelf_*` accessors, flag functions, error strings, byte-order translators and record size tables: the last two are parameters.
- System calls, `msync`, locks and failures of allocation; a file is a sequence or an array of bytes.
- Reading the executable header of a file, with its extended numbering: header and counts are given to the constructor of `ElfUpdate.Elf`.
- Bit masks with powers of two in the layout code are modelled by the arithmetic they stand for (`Arith.PowerOfTwo`, `Arith.RoundUp`).
- Mapping of section type numbers to ELF types in elftoolchain: a section has its type's kind, and only known types are modelled.
- 64-bit wrap-around of file sizes in elftoolchain: sizes are unbounded, and a write is modelled for images within `off_t`.
- Identity of section and data descriptors: they are values in sequences that the methods of `ElfUpdate.Elf` and `EuObject.Elf` reassign; lists, buffers, mappings and hash tables are modelled with their aliasing.
- What `elf_update()` leaves of a descriptor after a write, beyond its sections being dropped and its raw contents being the new file.
- The byte order that `elf_update()` takes over from the header of an object opened for writing; changing byte order in the elfutils writers.
- ElfUpdate.Elf.Update: assumes a buffer in each descriptor, known section types, header alignments that suit the type (`ElfUpdateFacts.TypeAlignmentIff` is the exact condition of the assert), and a section zero if there are 65535 program headers or more.
- ElfUpdate.Elf.WriteScn: assumes the alignment that the source asserts on entry.
- ElfUpdate.Elf.WritePhdr: program headers are kept in file form, so that translating them cannot fail.
- EuLayout.DefaultEhdr: does not model the identification bytes and version of the header, which are set to constants, nor the byte order test.
- EuLayout.PlaceData: does not model that the first block of a section read from the file is measured by its raw data.
- EuLayout.PlaceScn: does not model the entry size check of compressed sections, nor raw data that cannot be read.
- EuLayout.PlaceScns: says nothing of the sections after an error.
- EuLayout.UpdateNull: says nothing of the object after an error, when some sections have been placed and others not.
- EuMapUpdate.MapPhdr: assumes that a program header table in the mapping is not in front of its place, where the header and the fill would overwrite it first.
- EuMapUpdate.UpdateMmap: assumes a layout without overlap and the header table last, as in `EuImage.Writable`, and what `EuMapUpdate.Mapped` says, since header and program header table are written before the save pass: data in the mapping lies behind them. Where section headers are kept afterwards is not modelled.
- EuFile.UpdateFile: assumes a layout without overlap and the header table last, as in `EuImage.Writable`; a start offset other than zero is not modelled, and neither are short writes. Memory behind the array of section headers is taken to be readable as far as the table would reach; reading the section headers, which makes that array, is not modelled, only its length (`EuObject.Elf.count`).
- UtHash.Hash.Add: keys are compared as values, and sorting compares elements by what does not change; the hash function, `HASH_SELECT` and the 32-bit width of the counters are not modelled.
- FixedHash.Table.Lookup: `COMPARE` is equality of keys, and a comparison with an entry that is not there, which nlist() would not survive, comes out unequal; hash values have no fixed width.
- ArSymtab.ProcessSvr4: assumes a NUL at or after the last byte of the table, since hashing a name does not stop at the end of the table.
- ArWalk.Archive.Begin: assumes that the header at the cursor lies in the file (`ArOpen.FirstBeginInsideIff` says when it first does), and the member too if its numbers can be read.
- ArWalk.GetNumber: `size_t` does not wrap; the fields of a member header are too short for that.
- The BSD symbol table, names of members, and the other fields of member headers.
- Lifetime.Library.End: what is freed along with a descriptor is not modelled.
