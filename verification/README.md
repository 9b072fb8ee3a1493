# Dancy, modelled and proved

Dancy is an operating system for x86 written from scratch in C. This project models those of its parts that are
algorithms on plain data, in Dafny, and proves what they are for. Each C structure that is changed step by step is a
class with the same fields, loops are loops, and each method is proved against a function or predicate that says what
the caller gets.

| Part | Files |
|---|---|
| Deflate: bit streams, canonical Huffman codes, fixed-block inflate | `BitStrings`, `BitArray`, `Canonical`, `Huffman`, `HuffmanRoundTrip`, `FixedCode`, `Deflate`, `Inflate` |
| Physical memory and two-level paging (the 32-bit form) | `Mm`, `PageTables`, `Ownership`, `Paging` |
| FAT: cells, table window, clusters and chains, reading and seeking, path names | `FatCells`, `FatTable`, `FatChains`, `FatBuffers`, `FatVolume`, `FatFile`, `FatTidy`, `FatContents`, `FatRuns`, `FatPath` |
| Kernel heap | `Heap` |
| Memory maps of the boot programs, and the sort that they use | `BootMap`, `UefiMap`, `Sorting` |
| Terminal | `ConsoleCells`, `ConsoleEscape`, `ConsoleView`, `ConsoleScreen`, `Console` |
| Line walk, calendar, UTF-8 | `Bresenham`, `Epoch`, `Utf8` |
| Bytes and pages; facts about quotients and sequences | `Machine`, `Arithmetic`, `Sequences` |

How the parts of C that have no counterpart are written down:

- Unsigned arithmetic that can wrap is written with its modulus; sums and differences that the code keeps in range are
  plain integers, and that they stay in range is proved where it matters.
- Shifts and masks by constants are quotients and remainders, except for the attributes of the terminal, the bits of
  page-table entries and the color of drawn points, which are bit vectors.
- A structure that the source updates by `memmove` is an array where it has a fixed size and a sequence field where it
  grows.
- Reads of memory that the code does not own give an arbitrary value (behind the parameters of `CSI m`); that it makes
  no difference is proved.

Places where the code does less than one would expect, each with the exact condition:

- `set_table_value` (common/fat.c:826) marks the second sector of a 12-bit word only at the first sector boundary, so
  that a changed byte may never reach the disk: `FatTables.MarksCoverIff`, `FatTables.CleanWithWord` and, at an input,
  `FatTables.UnwrittenByte`.
- `heap_aligned_alloc` (kernel/base/heap.c:146) lets its list grow into the block that it has just chosen:
  `KernelHeap.Heap.AlignedAlloc` and, from the start of the smallest heap, `KernelHeap.SqueezedRun`.
- `CSI m` (kernel/base/console.c:657) takes a 5 behind a color of three numbers for another color:
  `ConsoleEscape.ColorIgnored` and `ConsoleEscape.BoldLost`.
- `CSI ? h` and `CSI ? l` (kernel/base/console.c:1099) reuse the loop counter, so that parameters behind 1049 are not
  looked at: `Consoles.Console.SetModes` and `Consoles.Console.ResetModes`.

Places where a function by itself does less, but no caller lets it happen:

- `append_cluster` (common/fat.c:1041) tests for a link with `> 2`, so that a link to cluster 2 would pass and the chain
  would be cut there (`FatChains.AppendInTheMiddle`). Both callers (common/fat.c:1465 and 2818) pass a cluster whose
  entry is no link, and then the cluster is the last one of its chain: `FatChains.CallersAppendAtEnd`.
- `fix_memory_map` (boot/init/memory.c:200) would keep several entries at 4 GiB (`BootMaps.FixedStrictIff` and
  `BootMaps.TwoAtFourGib`). The manager's invariant, which every operation keeps, leaves at most one:
  `BootMaps.KeptHasOne`.
- `memory_init` refuses equal bases only up to the first entry at 0; flagged entries behind it would belong to the map
  whatever their bases are (`BootMaps.CheckEntries` and, at an input, `BootMaps.FlaggedBehind`). The map that the boot
  program for UEFI exports has none, so that it is accepted with strictly rising bases: `UefiMaps.ExportedIsAccepted`.

## Model

| member | source | states |
|---|---|---|
| BitArrays.BitArray.Fetch | kernel/lib/bitarray.c:61-80 | The next bits of the stream as a number, low bit first, whatever windows the callback cuts the stream into; refused exactly when the stream is too short. |
| BitArrays.BitArray.Shove | kernel/lib/bitarray.c:82-104 | The bits shoved so far grow by the low bits of the value, over any change of windows; it fails exactly when a whole byte finds no room. |
| BitArrays.BitArray.Written | kernel/lib/bitarray.c:106-114 | The last byte is padded with zeros and the count is that of the bytes stored. |
| BitArrays.BitArray.Clear | kernel/lib/bitarray.c:42-48 | Nothing is pending afterwards. |
| BitStrings.FromBitsOfBitList | kernel/lib/bitarray.c:61-80 | Reading a number back from the bits that were written gives the number. |
| BitStrings.CodeBitsInjective | kernel/lib/huffman.c:127-167 | Different numbers of the same width are different code words. |
| Canonical.PrefixFree | kernel/lib/huffman.c:22-95 | Whenever the lengths are accepted no code word begins another. |
| Canonical.LeftIsKraft | kernel/lib/huffman.c:64-72 | The running check of the code space is negative exactly when the Kraft sum exceeds one and zero exactly when it equals one. |
| Canonical.WordOfLength | kernel/lib/huffman.c:97-125 | A number below the bound of its length is the code word at the place that the decoder looks up. |
| Canonical.NoWordOfLength | kernel/lib/huffman.c:97-125 | A number at or above the bound begins no code word of that length. |
| Canonical.SortedAt | kernel/lib/huffman.c:74-93 | The k-th symbol of a length is at the place of its rank behind the symbols of shorter lengths. |
| Canonical.PlacesDiffer | kernel/lib/huffman.c:74-93 | Different symbols have different places. |
| Canonical.SameLengthCountsUp | kernel/lib/huffman.c:127-167 | Code words of the same length count up in the order of their symbols, one by one (the first rule of section 3.2.2 of RFC 1951). |
| Canonical.ShorterComesFirst | kernel/lib/huffman.c:127-167 | Shorter code words come in front of longer ones (the second rule). |
| Huffmans.Huffman.Init | kernel/lib/huffman.c:22-95 | Refused with -1 or -2 exactly for lengths out of range or a Kraft sum above one; else the caller's array is, in place, the coded symbols by length and value and then zeros, and the code is marked complete exactly if the Kraft sum is one. |
| Huffmans.Huffman.CountLengths | kernel/lib/huffman.c:35-40 | Counts of the lengths, refused exactly when a length is above 15. |
| Huffmans.Huffman.CodeSpaceLeft | kernel/lib/huffman.c:64-72 | The result is negative exactly if too many code words are asked for. |
| Huffmans.Huffman.PlaceSymbols | kernel/lib/huffman.c:74-93 | Symbols and lengths share the array during the counting sort; the result is the sorted list of symbols. |
| Huffmans.Huffman.Fetch | kernel/lib/huffman.c:97-125 | The one symbol whose code word the stream starts with, and exactly that word is consumed; otherwise no code word starts the stream, and the error tells a short stream from a bad one. |
| Huffmans.Huffman.Table | kernel/lib/huffman.c:127-167 | For every coded symbol the length and the reversed code word; a table of the wrong size is refused. |
| Huffmans.ReverseBits | kernel/lib/huffman.c:127-167 | The low bits in the opposite order. |
| HuffmanRoundTrips.Pack | kernel/lib/bitarray.c:82-104 | A list of symbols shoved by table appends exactly their code words, and fails exactly when their whole bytes find no room. |
| HuffmanRoundTrips.Unpack | kernel/lib/huffman.c:97-125 | From any stream that starts with the code words of a list, the symbols of the list are fetched one by one. |
| HuffmanRoundTrips.AnyCut | kernel/lib/bitarray.c:61-80 | How the bytes are cut into non-empty windows does not change the stream. |
| HuffmanRoundTrips.EveryCut | kernel/lib/bitarray.c:61-80 | Every cut into non-empty windows is one of those that are read back. |
| HuffmanRoundTrips.Send | kernel/lib/bitarray.c:82-114 | What has been packed and flushed is the code words and fewer than eight zero bits, exactly if the windows have room. |
| HuffmanRoundTrips.Receive | kernel/lib/huffman.c:97-125 | From any windows with these bytes the symbols come back. |
| HuffmanRoundTrips.ReadBack | kernel/lib/huffman.c:22-167 | huffman_init on the lengths, huffman_table, bitarray_shove symbol by symbol into windows of any sizes, bitarray_written, the bytes cut in any way, and huffman_fetch: it gets through exactly if the lengths are accepted, the table has the right size and the bytes find room, and then all symbols come back in order. |
| FixedCodes.CodeWords | kernel/lib/inflate.c:101-110 | The code words of the literal and length code are those tabulated in section 3.2.6 of RFC 1951. |
| FixedCodes.DistWords | kernel/lib/inflate.c:112-113 | The distance code words are the plain five-bit numbers of section 3.2.6 of RFC 1951. |
| FixedCodes.CodeIsFeasible | kernel/lib/inflate.c:101-110 | The fixed lengths ask for no more code words than there are. |
| FixedCodes.RangesOfTable | kernel/lib/inflate.c:101-110 | The code words and lengths at the ends of the four ranges of the table in section 3.2.6 of RFC 1951, and that they count up in between. |
| Deflate.SayableTokens | kernel/lib/inflate.c:27-91 | Exactly the literals and the matches of length 3 to 258 and distance 1 to 32768 can be said with the tables (section 3.2.5 of RFC 1951). |
| Deflate.TablesInRange | kernel/lib/inflate.c:27-91 | The sizes of the tables, and no symbol has more than 13 extra bits. |
| Deflate.BasesInRange | kernel/lib/inflate.c:27-91 | No symbol with its extra bits says a length outside of 3 to 258 or a distance outside of 1 to 32768. |
| Deflate.LengthTable | kernel/lib/inflate.c:27-57 | The lengths as section 3.2.5 of RFC 1951 has them, in closed form: the number of extra bits of each symbol, the first length, that each symbol begins where the one before ends, and that 258 has a symbol of its own. |
| Deflate.DistanceTable | kernel/lib/inflate.c:59-91 | The same for the distances. |
| Deflate.TwelveTimes | kernel/lib/inflate.c:125-190 | Four bytes that are the block with a letter and a copy of length 11, which says twelve times that letter. |
| Deflate.RepeatPeriod | kernel/lib/inflate.c:179-183 | A copy continues the output with the period of its distance, even where it overlaps itself. |
| Inflates.Inflater.Init | kernel/lib/inflate.c:93-123 | After it both codes are the fixed ones. |
| Inflates.Inflater.NextSymbol | kernel/lib/inflate.c:144-149 | A symbol of the literal and length code, in terms of the tabulated words. |
| Inflates.Inflater.ReadCopy | kernel/lib/inflate.c:159-177 | 0 or 4 with the copy that the stream starts with, 4 exactly if its distance leads beyond the beginning, and 5 exactly if the stream starts with no copy that fits. |
| Inflates.Inflater.ReadDistance | kernel/lib/inflate.c:168-177 | 5 exactly if the stream starts with no distance; else that distance, and 4 exactly if it leads beyond the beginning. |
| Inflates.SameCopy | kernel/lib/inflate.c:159-177 | A stream starts with at most one copy of a given length symbol. |
| Inflates.Inflater.RepeatBytes | kernel/lib/inflate.c:179-183 | The copy loop extends the output by the repeated bytes and touches nothing behind. |
| Inflates.Inflater.Round | kernel/lib/inflate.c:144-183 | One round turns the bits of one item into its bytes; on a sender's stream it takes exactly the next item; the error 3 is given exactly if the stream starts with no symbol. |
| Inflates.Inflater.Inflate | kernel/lib/inflate.c:125-190 | On the encoding of any well-formed list of literals and matches whose expansion has the expected size it returns 0 and the output is the expansion; a result of 0 or 1 is given only for such a block, and nothing behind the room is written. |
| Inflates.Inflater.ReadHeader | kernel/lib/inflate.c:138-142 | Accepted exactly for one final block with fixed codes. |
| Inflates.Expect | kernel/lib/inflate.c:125-190 | What a sender's stream holds behind the items decoded so far. |
| PhysicalMemory.Mm.BitmapClear | kernel/base/mm.c:29-42 | Exactly the given number of frames from the given one become free. |
| PhysicalMemory.Mm.BitmapSet | kernel/base/mm.c:44-57 | Exactly the given number of frames from the given one become taken. |
| PhysicalMemory.Mm.BitmapTest | kernel/base/mm.c:59-75 | Tells whether one of the frames, which lie within the bitmap, is taken. |
| PhysicalMemory.Mm.SkipFull | kernel/base/mm.c:385-391 | Full bytes at the top are skipped now and from now on; no frame changes. |
| PhysicalMemory.Mm.AllocPage | kernel/base/mm.c:374-414 | The highest free frame above 0 that a scan of the whole bitmap would find, or nothing if there is none; exactly that frame becomes taken. |
| PhysicalMemory.Mm.AllocPages | kernel/base/mm.c:416-482 | The highest aligned free block of the order below the limit of the type, never at frame 0, or nothing if there is none; exactly its frames become taken. |
| PhysicalMemory.Mm.FreePage | kernel/base/mm.c:484-506 | Exactly the named frame becomes free. |
| PhysicalMemory.Mm.FreePages | kernel/base/mm.c:508-532 | Exactly the frames of an aligned block within the bitmap become free. |
| PhysicalMemory.Mm.AvailablePages | kernel/base/mm.c:317-372 | The number of free frames below the limit of the type. |
| PhysicalMemory.AvailableAfterTake | kernel/base/mm.c:317-532 | Taking a block lowers the number of available frames by exactly its size, and freeing it restores the number. |
| PhysicalMemory.HintAsFrames | kernel/base/mm.c:374-506 | The hint says that all frames above it are taken. |
| PhysicalMemory.BlocksAbove | kernel/base/mm.c:416-482 | No free block starts in the region that the hint skips. |
| PhysicalMemory.OrdersDouble | kernel/base/mm.c:77-89 | A block of order k has 2 to the power of k frames, for the orders 0 to 10 and no others. |
| PhysicalMemory.TypesByWidth | kernel/base/mm.c:433-462 | The types of memory by the width of their addresses, in bytes. |
| PhysicalMemory.BitIsShifted | kernel/base/mm.c:59-75 | The bit of a frame in its byte is the one of that weight. |
| Paging.AddressSpaces.CreateCr3 | kernel/base/pg.c:48-58 | A new directory that maps no user page, from a free frame; other directories keep their pages; nothing exactly if no frame is free below the 32-bit limit. |
| Paging.AddressSpaces.FreePte | kernel/base/pg.c:60-80 | The pages of one table are freed, with the marked ones kept on request, and the result is zero only if the table is empty. |
| Paging.AddressSpaces.DeleteCr3 | kernel/base/pg.c:82-115 | Everything under a directory is freed, or everything that is not marked; other directories keep their pages and the shared kernel entries are never freed. |
| Paging.AddressSpaces.TableFor | kernel/base/pg.c:199-212 | The table for a virtual page exists afterwards, or, exactly if there was none and no frame is free, it does not; what is mapped stays. |
| Paging.AddressSpaces.MapVirtual | kernel/base/pg.c:192-241 | The page in flight becomes the one mapped at the virtual page, what was mapped there is freed and no longer charged, and no other page of any directory changes; the page is readable for a task exactly unless blocked, writable exactly unless blocked or read-only, and marked exactly if arctic; it fails exactly if there is no table and no free frame for one, and then nothing changes. |
| Paging.AddressSpaces.GetEntry | kernel/base/pg.c:243-264 | The entry that decides the virtual page, if there is a table for it. |
| Paging.AddressSpaces.MapFresh | kernel/base/pg.c:1171-1188 | One fresh, cleared page is mapped with the access of its type and nothing else changes, or the mapping stays and at most one frame is left free; the mapped pages keep their contents. |
| Paging.LeavesAreMapped | kernel/base/pg.c:1171-1188 | Where no page that a process has is written to, all mapped pages keep their contents. |
| Paging.PageBitsGrant | kernel/base/pg.c:219-229 | The bits of a mapped page: present exactly unless it is blocked, writable exactly unless it is read-only, bit 11 exactly if it is arctic, and always a page for users with the accessed bit and no other. |
| Paging.BitsAreDetermined | kernel/base/pg.c:219-229 | Only one word says this of a type. |
| Ownership.AccessIsOfPage | kernel/base/pg.c:186-241 | The entries of the directory allow everything, so that the processor lets a task read or write exactly what the entry of the page allows. |
| Paging.ArcticStays | kernel/base/pg.c:60-80 | A page that was mapped as arctic stays when arctic pages are synchronized, from then on as one that is not; other pages go, and so does every page that is not synchronized. |
| PageTables.WalkFromAddress | kernel/base/pg.c:192-211 | The upper ten bits of an address choose the entry of the directory and the next ten that of the table. |
| Paging.EndPageIs | kernel/base/pg.c:1168 | A page lies in front of the end exactly if the range reaches into it or beyond. |
| Paging.AddressSpaces.MapUser | kernel/base/pg.c:1146-1193 | From the end of the range down to some page every page is mapped and is cleared, readable for a task exactly unless blocked, writable exactly unless blocked or read-only, and marked exactly if arctic, and nothing else changes, be it the mapping or the contents of other pages; the address is returned exactly if this is the whole range; otherwise at most one frame is left free. |
| Paging.AddressSpaces.UnmapUser | kernel/base/pg.c:1195-1239 | No page of the range is mapped afterwards and nothing else changes; bad ranges are refused. |
| Paging.AddressSpaces.Create | kernel/base/pg.c:944-960 | A process without a directory gets one that maps no user page; the error tells a process that has one from the lack of a free frame, exactly. |
| Paging.AddressSpaces.Delete | kernel/base/pg.c:962-980 | Afterwards no frame is taken but those taken for other purposes, and nothing is charged. |
| Paging.AddressSpaces.SyncArctic | kernel/base/pg.c:982-992 | Unmarked pages are freed and marked ones stay without their mark, in the active directory only. |
| Paging.AddressSpaces.AltCreate | kernel/base/pg.c:1022-1043 | The directory is set aside with all its pages for a new one that maps nothing; it fails exactly for a process without a directory or with one set aside, and for the lack of a free frame. |
| Paging.AddressSpaces.AltAccept | kernel/base/pg.c:1045-1061 | The directory that was set aside goes with its pages; those of the active one stay. |
| Paging.AddressSpaces.AltDelete | kernel/base/pg.c:1063-1080 | The process is back in the directory that was set aside, with the pages it had. |
| Paging.AddressSpaces.Run | kernel/base/pg.c:944-1239 | Over any run of the operations every frame has at most one owner, charges are exact and the kernel's frames and entries stay; deleting then gives back every frame. |
| Ownership.NoFrameMappedTwice | kernel/base/pg.c:192-241 | No frame is mapped at two places, in one directory or two. |
| Ownership.ChargedForMappedPages | kernel/base/pg.c:192-241 | The charge is 4096 times the number of pages mapped under the two directories. |
| Ownership.StepCreate | kernel/base/pg.c:48-58 | A new directory keeps the ownership invariant. |
| Ownership.StepTable | kernel/base/pg.c:199-212 | A new table keeps the ownership invariant. |
| Ownership.StepLink | kernel/base/pg.c:214-232 | A page put into an unused entry gets an owner and a charge. |
| Ownership.StepReplace | kernel/base/pg.c:233-238 | A page put into a used entry frees the one that was there; the charge stays. |
| Ownership.StepUnlink | kernel/base/pg.c:1195-1239 | A page taken out of its entry is free and no longer charged. |
| Ownership.StepDropTable | kernel/base/pg.c:82-115 | An empty table is given back. |
| Ownership.StepDropDirectory | kernel/base/pg.c:82-115 | A directory without tables is given back. |
| PageTables.WriteShowsOnce | kernel/base/pg.c:192-241 | A write into a table shows at one virtual page of one directory only. |
| PageTables.LinkLeaf | kernel/base/pg.c:220-241 | Linking a page keeps every frame referenced at most once. |
| PageTables.UnlinkLeaf | kernel/base/pg.c:60-80 | Unlinking a page keeps every frame referenced at most once. |
| FatCells.CellReadBack | common/fat.c:763-875 | A stored value is read back, for packed 12-bit, 16-bit and 28-bit cells. |
| FatCells.CellElsewhere | common/fat.c:804-875 | Storing a value changes no other cell, even one that shares a byte. |
| FatCells.TopBitsKept | common/fat.c:855-870 | The top four bits of a 32-bit cell stay. |
| FatCells.StoredIsSame | common/fat.c:763-875 | Links and the end mark are stored as they are. |
| FatCells.CellLayout | common/fat.c:69-70 | Which bytes a cell is made of and with which weights, for packed 12-bit, 16-bit and 28-bit cells, end marks included: its value is the one that the bytes spell, and no other. |
| FatCells.EndsOfChains | common/fat.c:763-802 | A chain ends at the last eight values of a cell of its width. |
| FatCells.StoredLayout | common/fat.c:72-80 | What storing a value makes of each byte; all bits beside the cell stay. |
| FatCells.RespelledIsStored | common/fat.c:826-875 | Bytes of which this can be said are those that storing the value leaves. |
| FatTables.MarksCoverIff | common/fat.c:826-830 | The marks cover the bytes that were written except for 12-bit words across a sector boundary other than the first: exactly then a written sector is not marked. |
| FatTables.CleanWithWord | common/fat.c:804-875 | A word that is written leaves the unmarked sectors as they are on disk exactly if no changed byte of it is in one. |
| FatTables.UnwrittenByte | common/fat.c:826-832 | The end mark of cluster 682 with sectors of 512 bytes: byte 1024 is not on disk after the marked sectors have been written. |
| FatTables.Table.constructor | common/fat.c:662-688 | A table as it is mounted reads as the disk. |
| FatTables.Table.WriteRuns | common/fat.c:582-660 | Runs of marked sectors go to disk and nothing else does. |
| FatTables.Table.WriteTable | common/fat.c:582-660 | What every reader sees stays, no sector is marked, both copies agree, and the disk is what readers see exactly if the unmarked sectors were on disk. |
| FatTables.Table.ReadTableBuffer | common/fat.c:690-761 | Moving the window loses nothing: readers see the same table. |
| FatTables.Table.Get | common/fat.c:763-802 | The value that the bytes of the cell spell in one flat table, whatever the window shows, or 1 outside of the table. |
| FatTables.Table.Set | common/fat.c:804-875 | In the flat table exactly one cell changes, to the stored value, and exactly its bits do in its bytes; the hint for the next free cluster is the cell in which a link is stored while the number of free clusters is known; a known number of free clusters stays right; outside of the table nothing happens; unmarked sectors are still on disk, except exactly for a 12-bit word with a changed byte in an unmarked sector. |
| FatTables.CleanIsWrittenOut | common/fat.c:582-660 | Writing the marked sectors makes the disk the flat table exactly if the unmarked ones agree with the disk. |
| FatTables.FreeCountWith | common/fat.c:855-867 | How one store changes the number of free clusters. |
| FatChains.FreedIsVisited | common/fat.c:1072-1092 | On every table, even with loops and crossings, exactly the visited clusters are free afterwards and nothing else changes. |
| FatChains.VisitedChain | common/fat.c:1072-1092 | From the start of a chain exactly the chain is visited. |
| FatChains.FreedChain | common/fat.c:1072-1092 | Exactly the clusters of the chain become free. |
| FatChains.FreedKeepsOthers | common/fat.c:1072-1092 | Chains without a common cluster stay chains. |
| FatChains.AppendedChain | common/fat.c:1034-1070 | Behind the last cluster exactly one cluster is added, which was free. |
| FatChains.AppendedKeepsOthers | common/fat.c:1034-1070 | Other chains stay and do not contain the new cluster. |
| FatChains.AppendInTheMiddle | common/fat.c:1034-1041 | The check in front of linking misses exactly a link to cluster 2: then an append in the middle would cut the chain. |
| FatChains.CallersAppendAtEnd | common/fat.c:1450-1465 | Where the entry is no link, as both callers have found out (also line 2814), a chain has its end: they are never refused and cut no chain. |
| FatChains.TruncatedChain | common/fat.c:1094-1159 | The first clusters stay a chain and the others are free. |
| FatChains.EndThenFree | common/fat.c:1129-1159 | Ending the chain and deleting what was linked behind it is truncating. |
| FatVolumes.CutChain | common/fat.c:1094-1159 | On a chain that is long enough exactly the clusters that the file size calls for stay. |
| FatVolumes.Volume.ReadCluster | common/fat.c:923-956 | In terms of the clusters of the disk: the buffer holds the cluster; clusters that there are not are refused. |
| FatVolumes.Volume.WriteCluster | common/fat.c:958-979 | In terms of the clusters of the disk: exactly the selected one changes, and both buffers stay right. |
| FatVolumes.Volume.AllocateCluster | common/fat.c:1010-1032 | A free cluster exactly if there is one: the first at or above the hint, or else the first of all; the table stays. |
| FatVolumes.Volume.AppendCluster | common/fat.c:1034-1070 | Refused, out of space, or a free cluster linked behind the given one and cleared; the case is told by the table, and the table is on disk in the careful mode. |
| FatVolumes.Volume.DeleteClusters | common/fat.c:1072-1092 | It ends on every table; every cluster that it comes by is free and all zeros, nothing else changes, and the table is on disk. |
| FatVolumes.FreeStep | common/fat.c:1078-1088 | Each round stops or lowers the number of used entries. |
| FatVolumes.Volume.DeleteExtraClusters | common/fat.c:1094-1159 | The table and the clusters afterwards, for every table, file size and first cluster; the hint is dropped. |
| FatBuffers.Buffers.ReadBlock | common/fat.c:877-906 | The sector is in the block buffer, be it from the disk or from one of the two buffers. |
| FatBuffers.Buffers.WriteBlock | common/fat.c:908-921 | Exactly the sector changes; the block buffer is right afterwards exactly if it was said to hold this sector, or was right; the cluster buffer holds nothing. |
| FatBuffers.Buffers.ReadCluster | common/fat.c:923-956 | The cluster is in the cluster buffer, or, to be filled, the buffer holds nothing. |
| FatBuffers.Buffers.WriteCluster | common/fat.c:958-979 | Exactly the cluster changes; the cluster buffer is right afterwards exactly if it was said to hold this cluster, or was right; the block buffer holds nothing. |
| FatBuffers.Buffers.Do | common/fat.c:877-1008 | A sector or a cluster is looked at, or read, changed and written at once: it shows and does what it would without buffers. |
| FatBuffers.Buffers.Run | common/fat.c:877-1008 | Over any interleaving of such uses the two buffers agree with one disk, and every look and the disk in the end are those of a disk without buffers. |
| FatBuffers.ClustersPatched | common/fat.c:923-979 | Writing a cluster to its place on the disk of sectors changes that cluster and no other. |
| FatBuffers.ClustersInOrder | common/fat.c:923-936 | The clusters lie on the disk in the order of their numbers, from cluster 2 at the first sector of the data on, without gaps. |
| FatTidy.TidyAppended | common/fat.c:1034-1070 | Files that share no cluster and cover exactly the used ones, but for those of no file, still do after an append. |
| FatTidy.TidyCreated | common/fat.c:2748-2759 | They still do after a free cluster has become the first of a file. |
| FatTidy.TidyFreed | common/fat.c:1072-1092 | They still do after a deletion. |
| FatTidy.TidyTruncated | common/fat.c:1094-1159 | They still do after a truncation. |
| FatContents.CreatedHolds | common/fat.c:2748-2759 | A new file has no bytes, and all others keep theirs. |
| FatContents.AppendedHolds | common/fat.c:1034-1070 | With a cluster more for one of them all files keep their bytes. |
| FatContents.FreedHolds | common/fat.c:1072-1092 | When a file goes all others keep their bytes. |
| FatContents.TruncatedHolds | common/fat.c:1094-1159 | A file that is cut keeps its bytes up to the cut, and all others keep theirs. |
| FatRuns.Run | common/fat.c:1010-1159 | Over any run of creating, appending, deleting and truncating no two files share a cluster, none is lost, every file keeps its bytes but for what is cut off, clusters that are marked as bad or belong to no file stay as they are, and a right number of free clusters stays right; the chains and the files afterwards are functions of the operations and their results. |
| FatRuns.Step | common/fat.c:1010-1159 | When one operation has which result, and what it makes of the chains and the bytes of all files; the table keeps what it says about clusters of no file. |
| FatFiles.FindCluster | common/fat.c:2280-2313 | From the hint or from the record, the cluster that the links from the first one lead to, or the finding that they do not lead there. |
| FatFiles.CopyOut | common/fat.c:2346-2356 | The bytes of the cluster buffer go to their place in the destination and nowhere else. |
| FatFiles.ReadClusters | common/fat.c:2326-2364 | The bytes taken are those that walking the links from the record takes; the status tells an end mark from a broken link; the hint stays right. |
| FatFiles.Read | common/fat.c:2201-2390 | What is delivered, the status, the zeros behind it and the new offset depend on the record, the offset, the table and the clusters only, on any table. |
| FatFiles.TakenIsSlice | common/fat.c:2326-2364 | Within a file on a long enough chain a read is the slice of the concatenated clusters. |
| FatFiles.DeliversSlice | common/fat.c:2201-2390 | The slice is cut at the file size and at the requested size, and the status is good. |
| FatFiles.Seek | common/fat.c:2593-2666 | Which seeks are allowed, and the offset they lead to, for all arguments including the most negative offset; a refused one changes nothing. |
| FatFiles.Run | common/fat.c:2201-2666 | Every run of reads and seeks answers as the plain bytes of the file with an offset would. |
| FatFiles.SeekAndRead | common/fat.c:2612-2666 | Seeks with 0 count from the start, with 1 from the current offset and with 2 from the end. |
| FatFiles.LastBytes | common/fat.c:2612-2666 | Seeking to n bytes in front of the end and reading n bytes gives the last n bytes. |
| FatFiles.AppendKeepsContents | common/fat.c:1034-1070 | A cluster more changes no byte of the file. |
| FatFiles.DeleteKeepsContents | common/fat.c:1072-1092 | Deleting a chain with no cluster in common changes no byte of a file. |
| FatFiles.CutKeepsContents | common/fat.c:1094-1159 | Truncation keeps the file to the last byte in as few clusters as it takes. |
| FatFiles.CutDataIs | common/fat.c:1129-1159 | Clusters behind the end are all zeros, and the last one is zeros behind the file. |
| FatPaths.PathBuffer.AddChar | common/fat.c:1198-1218 | A character is refused exactly if it is not allowed, comes behind the last slot or behind the twelfth of a name; else it is added, a small letter as the one 32 places below it. |
| FatPaths.PathBuffer.ScanChar | common/fat.c:1198-1260 | One character extends a name or ends it, with the meaning that an empty name, a period and two periods have. |
| FatPaths.ScanName | common/fat.c:1189-1260 | The slots hold the names of the path, split at the slashes, as pieces of the path with capital for small letters, and the scan fails exactly if the meaning of the path says so. |
| FatPaths.CheckReservedName | common/fat.c:1161-1187 | True exactly for a device name without an extension. |
| FatPaths.Format | common/fat.c:1262-1320 | The 8.3 form exactly of names that have one. |
| FatPaths.FillPathBuffer | common/fat.c:1189-1324 | It succeeds exactly for paths with at least one name and with a short form for each, and then the slots hold these forms, without small letters, and the directory marks. |
| FatPaths.ParentCancels | common/fat.c:1237-1248 | A name with two periods behind it cancels out. |
| FatPaths.SpelledScans | common/fat.c:1189-1260 | Canonical names that are spelled out scan to themselves. |
| FatPaths.ScanTwice | common/fat.c:1189-1260 | Spelling out what was scanned and scanning it again changes nothing. |
| FatPaths.ScannedIsUpper | common/fat.c:1205-1206 | Each name of a successful scan is a piece of the path, with every small letter replaced by the one 32 places below it; no small letter is left. |
| FatPaths.CaseDoesNotMatter | common/fat.c:1205-1206 | Paths that differ only in the case of letters have the same scan. |
| FatPaths.LegalIs | common/fat.c:1202-1211 | The characters of names: those of ASCII that are printed, but for the blank and eight others. |
| FatPaths.CurrentCancels | common/fat.c:1220-1234 | An empty name and a period do nothing. |
| FatPaths.NameSplits | common/fat.c:1276-1297 | A name is its base and, behind the last period, an extension without one. |
| FatPaths.ReservedIs | common/fat.c:1161-1187 | The device names: four of three letters, and COM and LPT with a digit from 1 to 9. |
| FatPaths.ReadmeIs | common/fat.c:1189-1332 | An example: readme.txt is looked for as README in eight places and TXT in three, and con is refused. |
| KernelHeap.LiveDisjoint | kernel/base/heap.c:94-174 | Blocks in use are aligned, lie in the heap and do not overlap. |
| KernelHeap.LiveDetermines | kernel/base/heap.c:176-208 | Two well-formed lists with the same bounds and the same blocks in use are the same list. |
| KernelHeap.TakeKeeps | kernel/base/heap.c:158-172 | Taking the end of a free block keeps the list well-formed and adds exactly one block in use. |
| KernelHeap.AfterIff | kernel/base/heap.c:146-172 | With a full list, taking a block keeps the heap sound exactly unless it is cut from the first block within a page of its start. |
| KernelHeap.SqueezedRun | kernel/base/heap.c:94-174 | The smallest heap, from its start: after 1022 allocations of 16 bytes the list is full, and the next block is handed out inside of the list. |
| KernelHeap.JoinKeeps | kernel/base/heap.c:190-207 | Joining two free neighbours changes no block in use. |
| KernelHeap.SumsAreAll | kernel/base/heap.c:63-92 | Used and free bytes add up to the heap. |
| KernelHeap.TakeMovesBytes | kernel/base/heap.c:63-174 | An allocation moves exactly its bytes from free to used. |
| KernelHeap.Heap.constructor | kernel/base/heap.c:29-61 | The heap starts as one free block behind a list of one page. |
| KernelHeap.Heap.FindRoom | kernel/base/heap.c:117-142 | The highest free block that holds an aligned range of the size, at its highest such range, or nothing exactly if there is none. |
| KernelHeap.Heap.AlignedAlloc | kernel/base/heap.c:94-174 | No block exactly for bad arguments, without room, or with a full list that cannot grow; else the highest aligned range that was free; and the heap stays sound exactly unless the list is full, can grow, and only the first block has room, whose range starts within a page of its start. |
| KernelHeap.Heap.Free | kernel/base/heap.c:176-208 | Exactly the block that starts at the address is no longer in use, free neighbours are joined, and any other address is ignored. |
| KernelHeap.Heap.AllocThenFree | kernel/base/heap.c:94-208 | Freeing what was just allocated restores the identical list. |
| KernelHeap.Heap.AllocStaticPage | kernel/base/heap.c:210-241 | The list moves up by a page and the page that it leaves is the caller's; blocks in use stay. |
| KernelHeap.Heap.Usage | kernel/base/heap.c:63-92 | The bytes in used and in free blocks, which add up to the heap. |
| KernelHeap.AlignmentsArePowers | kernel/base/heap.c:102-106 | The alignments that are allowed are the powers of two up to 0x2000. |
| BootMaps.FixedMeaning | boot/init/memory.c:183-225 | Fixing the map changes what it says about no address, numbers of allocations apart. |
| BootMaps.FixedStrictIff | boot/init/memory.c:196-224 | The bases rise strictly afterwards exactly if at most one entry was at 4 GiB. |
| BootMaps.TwoAtFourGib | boot/init/memory.c:200-203 | A map with two entries at 4 GiB would keep both. |
| BootMaps.KeptHasOne | boot/init/memory.c:183-225 | A map of the manager has at most one entry at 4 GiB, so that fixing it leaves strictly rising bases. |
| BootMaps.CheckBases | boot/init/memory.c:49-58 | The first loop: accepted exactly if the bases rise strictly up to an entry at 0; then at most one of these entries is at 4 GiB. |
| BootMaps.CheckEntries | boot/init/memory.c:49-90 | Both loops: accepted exactly if the bases rise strictly up to an entry at 0 and flagged entries, if any, end with one at 0; the map that is accepted rises strictly exactly if there are no flagged entries. |
| BootMaps.FlaggedBehind | boot/init/memory.c:82-90 | A map with a flagged entry behind the first one at 0: it is accepted with two entries at 0. |
| BootMaps.FixedApart | boot/init/memory.c:189-195 | No two allocations have the same number afterwards. |
| BootMaps.FixedIsKept | boot/init/memory.c:183-225 | The invariant of the manager holds again after fixing. |
| BootMaps.CutMeaning | boot/init/memory.c:275-302 | After an allocation the map says something else about exactly the range from the result to the end of the block. |
| BootMaps.AllocatedEntry | boot/init/memory.c:275-302 | The new entry is not merged away: it starts at the result and ends with the block. |
| BootMaps.ReleaseUndoesCut | boot/init/memory.c:457-487 | Freeing what was allocated makes the map say what it said before, about every address. |
| BootMaps.MemoryMap.Fix | boot/init/memory.c:183-225 | The two loops on the array compute the fixed map. |
| BootMaps.MemoryMap.FindBlock | boot/init/memory.c:238-261 | The topmost free block that ends below 4 GiB and the map and has room, or nothing exactly if there is none. |
| BootMaps.TopAddrIs | boot/init/memory.c:238-261 | The highest aligned address from which a block of the size ends in time. |
| BootMaps.MemoryMap.AlignedAlloc | boot/init/memory.c:227-303 | When nothing is returned, and otherwise which range changes its kind, with everything else as before; the invariant stays. |
| BootMaps.MemoryMap.Free | boot/init/memory.c:457-487 | The allocation that starts at the address becomes free memory; any other address changes no meaning. |
| BootMaps.MemoryMap.AllocThenFree | boot/init/memory.c:227-487 | The map says again what it said before, about every address. |
| Sorting.SortedIsSorted | kernel/lib/stdlib.c:22-57 | The result is in order and holds the same values. |
| Sorting.SortedIsStable | kernel/lib/stdlib.c:22-57 | Values that compare equal keep their order. |
| Sorting.Qsort | kernel/lib/stdlib.c:22-57 | The first n values are sorted in place and the others stay. |
| UefiMaps.SortedIsOrdered | boot/uefi/memory.c:81-107 | Sorted by rising base, and by falling priority for the same base, with "not reported" last. |
| UefiMaps.PriorityIs | boot/uefi/memory.c:81-107 | Of two kinds the greater number has priority, but 0xFFFFFFFF, which stands for "not reported", is below all others. |
| UefiMaps.DedupedWins | boot/uefi/memory.c:286-301 | One entry is left for each base, and at every address it is one of the highest priority. |
| UefiMaps.JoinedSays | boot/uefi/memory.c:303-329 | Merging changes what the map says about no address. |
| UefiMaps.JoinedShape | boot/uefi/memory.c:303-329 | Bases rise strictly, the entry at 4 GiB stays, and no other entry repeats its predecessor. |
| UefiMaps.ExportedIs | boot/uefi/memory.c:284-329 | The exported map starts at the lowest base, rises strictly, keeps 4 GiB, and says at every address what a winning entry of the unsorted list says. |
| UefiMaps.Check | boot/uefi/memory.c:331-353 | Accepted exactly if the bases rise strictly and four zero entries follow. |
| UefiMaps.FinishExport | boot/uefi/memory.c:284-355 | Sorting, the two passes and the check on the array give the exported map, and the check never fails. |
| UefiMaps.ExportedIsAccepted | boot/uefi/memory.c:284-355 | A map that is exported from address 0 on, with a zero entry behind it, passes the tests of the bases and flags without flagged entries behind its end, so that it rises strictly. |
| ConsoleCells.ScrollUp | kernel/base/console.c:465-488 | The lines of the region move up, the last one is blank, and no cell outside changes. |
| ConsoleCells.ScrollDown | kernel/base/console.c:490-518 | The lines of the region move down, the first one is blank, and no cell outside changes. |
| ConsoleCells.DownUndoesUp | kernel/base/console.c:465-518 | Scrolling up and down again loses exactly one line. |
| ConsoleCells.DeleteUndoesInsert | kernel/base/console.c:736-756 | Deleting what was inserted loses only what had to leave the line. |
| ConsoleEscape.ParseParameters | kernel/base/console.c:531-566 | The numbers between the semicolons, clamped and at most 16, or the finding that the sequence is malformed; no character behind the sequence is read. |
| ConsoleEscape.ParseJoined | kernel/base/console.c:531-566 | Numbers that are written out with semicolons come back. |
| ConsoleEscape.SelectOne | kernel/base/console.c:577-650 | The bits after one parameter mean what the parameter says about intensity, underline, reversal and colors, and nothing else changes. |
| ConsoleEscape.SelectGraphics | kernel/base/console.c:570-665 | The parameters apply in order, but for those that extended colors jump over; what is found behind the last one makes no difference. |
| ConsoleEscape.AppliedInOrder | kernel/base/console.c:570-665 | The parameters that apply are a subsequence of those given. |
| ConsoleEscape.AllApplied | kernel/base/console.c:570-665 | Without extended colors all of them apply. |
| ConsoleEscape.ColorIgnored | kernel/base/console.c:652-662 | An extended color is ignored as a whole and what is behind it applies, except for a 5 and the next parameter behind a color of three numbers. |
| ConsoleEscape.BoldLost | kernel/base/console.c:657-660 | Such parameters: bold is lost behind a color and a 5. |
| ConsoleEscape.ColorsAre | kernel/base/console.c:625-655 | The eight colors and the eight bright ones, for text and for the background, and the colors that 39 and 49 go back to. |
| ConsoleEscape.StyleDetermines | kernel/base/console.c:59-62 | The bits of an attribute say nothing but its style, and which word bold red on blue is. |
| ConsoleEscape.NumberIsDecimal | kernel/base/console.c:536-566 | A parameter is the number that its decimal digits spell, or the limit if that is more. |
| ConsoleViews.Collected | kernel/base/console.c:1249-1253 | Inner characters of a sequence are collected and change nothing else. |
| ConsoleViews.SequenceRuns | kernel/base/console.c:1230-1262 | ESC [ and what follows up to the last character are carried out as one sequence, whatever has begun before; a malformed one changes nothing. |
| ConsoleViews.NumbersRun | kernel/base/console.c:520-566 | A sequence whose parameters are written as numbers is carried out with these numbers. |
| ConsoleScreen.UpAndDown | kernel/base/console.c:759-846 | CSI A and F go up, B and E go down, by n rows or as far as there are rows; A and B stay in the column, E and F go to the first one; nothing else changes. |
| ConsoleScreen.LeftAndRight | kernel/base/console.c:787-813 | CSI C goes right and D goes left by n columns or as far as there are columns, in the same row. |
| ConsoleScreen.ThereAndBack | kernel/base/console.c:759-813 | n down and n up, or n to the right and n to the left, in any order, come back where no edge is met. |
| ConsoleScreen.ColumnOrRow | kernel/base/console.c:845-1067 | CSI G and d choose the column and the row, counted from one and cut off at the last one. |
| ConsoleScreen.RowAndColumn | kernel/base/console.c:855-1079 | CSI H and f land exactly on row n - 1 and column m - 1 of the screen, or on the last ones. |
| ConsoleScreen.HalfAndHalf | kernel/base/console.c:845-1067 | G and d one after the other do what H does. |
| ConsoleScreen.ErasesDisplay | kernel/base/console.c:882-902 | Cell by cell: CSI J erases from the cursor to the end of the screen, from the start up to the cursor, or everything. |
| ConsoleScreen.ErasesLine | kernel/base/console.c:904-926 | Cell by cell: CSI K does the same within the row of the cursor. |
| ConsoleScreen.ErasesCells | kernel/base/console.c:1026-1040 | Cell by cell: CSI X erases n cells from the cursor on, in its row only. |
| ConsoleScreen.InsertsCells | kernel/base/console.c:733-756 | Cell by cell: CSI @ moves what is behind the cursor n columns to the right, and nothing in another row. |
| ConsoleScreen.DeletesCells | kernel/base/console.c:974-998 | Cell by cell: CSI P moves it n columns to the left. |
| ConsoleScreen.MovesLinesDown | kernel/base/console.c:928-1024 | Row by row: CSI T moves the region n rows down, and CSI L its part from the cursor on, if the cursor is in it; blank rows come in at the top. |
| ConsoleScreen.MovesLinesUp | kernel/base/console.c:951-1011 | Row by row: CSI S and CSI M move them up. |
| ConsoleScreen.ToStops | kernel/base/console.c:867-1054 | CSI I goes to the tab stop with n - 1 others in front of it, and Z to that with n - 1 others behind it, or as far as there are columns. |
| ConsoleScreen.ChangesStops | kernel/base/console.c:686-1092 | CSI g takes away the tab stop at the cursor or all but that of the last column; ESC H sets one. |
| ConsoleScreen.SetsRegion | kernel/base/console.c:1142-1155 | CSI r makes the rows from n to m the region, cut off at the end of the screen. |
| ConsoleScreen.ScreensAndBack | kernel/base/console.c:1096-1137 | With 1049, CSI ? h brings up an empty screen and l brings the main one back with its cursor, region and attribute. |
| ConsoleScreen.ShowsCursor | kernel/base/console.c:1096-1137 | With 25, CSI ? h shows the cursor and l hides it, and nothing else changes. |
| ConsoleScreen.SavedAndBack | kernel/base/console.c:705-1175 | What ESC 7 or CSI s saves comes back with ESC 8 or CSI u, wherever the cursor has gone in between. |
| ConsoleScreen.WriteAndBack | kernel/base/console.c:1267-1271 | A character goes to the cell of the cursor, and backspace goes back over it. |
| ConsoleScreen.Wraps | kernel/base/console.c:1316-1345 | In the last column the cursor stays behind the first character, and the second one goes to the start of the next line. |
| ConsoleScreen.NewLine | kernel/base/console.c:1183-1290 | A newline goes to the start of the next row; at the end of the region its lines move up instead, row by row. |
| ConsoleScreen.LineUp | kernel/base/console.c:694-703 | ESC M goes up a row; at the start of the region its lines move down instead. |
| ConsoleScreen.TabsAndBlanks | kernel/base/console.c:1272-1308 | A tab goes to the next tab stop, and from the last column to the next line; six characters do nothing; a blank is an empty cell. |
| ConsoleScreen.Resets | kernel/base/console.c:671-684 | ESC c leaves an empty main screen, the cursor visible in its corner, the whole screen as the region, the tab stops and the colors of the start. |
| ConsoleScreen.Ignored | kernel/base/console.c:733-1180 | All other last characters, h and l without a question mark, and s and u with parameters change nothing. |
| ConsoleScreen.UpRuns | kernel/base/console.c:520-774 | The characters ESC [ n A, one by one through the terminal: the cursor goes up by the number that the digits spell. |
| Consoles.Console.HandleState | kernel/base/console.c:146-180 | What is saved is restored. |
| Consoles.Console.InitVariables | kernel/base/console.c:182-205 | A sound state with a visible cursor in the corner and tab stops at every eighth and the last column. |
| Consoles.Console.IncrementRow | kernel/base/console.c:1183-1194 | The cursor moves down, or the region scrolls, or nothing moves at the end of the screen. |
| Consoles.Console.MoveCursor | kernel/base/console.c:762-866 | The cursor is where the move leads, cut off at the edges. |
| Consoles.Console.ForwardTabs | kernel/base/console.c:870-880 | The n-th tab stop to the right. |
| Consoles.Console.BackwardTabs | kernel/base/console.c:1045-1054 | The n-th tab stop to the left. |
| Consoles.Console.Erase | kernel/base/console.c:885-926 | Exactly the cells of the range take the attribute. |
| Consoles.Console.ShiftLines | kernel/base/console.c:931-972 | Lines of the region move at the cursor; outside of the region nothing does. |
| Consoles.Console.SetModes | kernel/base/console.c:1099-1116 | A parameter 1049 saves the main screen and shows an empty one; 25 shows the cursor exactly if it stands in front of the first 1049, as the parameters behind are not looked at. |
| Consoles.Console.ResetModes | kernel/base/console.c:1122-1140 | On the alternate screen a parameter 1049 restores the cells, the cursor, the region and the attribute of the main one; 25 hides the cursor, there only in front of the first 1049. |
| Consoles.Console.SetRegion | kernel/base/console.c:1145-1157 | The region lies within the screen and is not empty. |
| Consoles.Console.HandleEscape | kernel/base/console.c:520-1181 | Each sequence, plain or with parsed parameters, turns what the terminal shows and remembers, the visibility of the cursor included, into exactly what its last character says; a malformed one changes nothing; the state stays sound, and the main screen is safe while the other one is shown. |
| Consoles.Console.WriteChar | kernel/base/console.c:1319-1334 | Exactly one cell changes and the cursor moves on; behind the last column the text wraps first. |
| Consoles.Console.TakeEscape | kernel/base/console.c:1230-1262 | A sequence that has begun is continued, carried out or given up, with the effect of the whole sequence, and the buffer never overflows. |
| Consoles.Console.Control | kernel/base/console.c:1266-1316 | Newline, tab, backspace, carriage return and the beginnings of sequences move the cursor or scroll as they should; other control characters change nothing. |
| Consoles.AsciiCharacters | kernel/base/console.c:1205-1226 | Bytes below 0x80 are characters of their own. |
| Consoles.TextCharacters | kernel/base/console.c:1205-1226 | A text in UTF-8 is the text that the terminal sees. |
| Consoles.Console.PutChar | kernel/base/console.c:1222-1340 | One character, be it printing, a control character or part of a sequence, has its effect on what the terminal shows and on the sequence that has begun; a printing one goes to the cell of the cursor. |
| Consoles.Console.Write | kernel/base/console.c:1196-1341 | On every byte stream it ends, and the state goes from moment to moment as the characters of the stream tell; a control sequence is carried out, or changes nothing if it is malformed; cursor, region, saved states, tab stops and escape buffer stay in range; without the two bytes that can end it the alternate screen stays and the main one is untouched; plain text on a line with room is written. |
| LineWalk.Canvas.Line | common/ttf.c:570-613 | The walk ends, exactly at the end point, takes steps to neighbours that come nearer, stays in the box and within half a pixel of the line, and exactly its points are drawn. |
| LineWalk.ErrorStays | common/ttf.c:589-611 | One of the two steps is always due and the error stays within half of the longer side. |
| LineWalk.LastColumn | common/ttf.c:597-602 | A step along x that is due in the last column means that the row is the last one too. |
| LineWalk.OffsetIs | common/ttf.c:591-593 | Eight by eight steps share a byte, and the bytes go through the square row by row. |
| Epoch.BeforeYearIs | common/epoch.c:30-40 | The days before a year in closed form. |
| Epoch.SecondsDiffer | common/epoch.c:101-153 | Different times have different numbers of seconds. |
| Epoch.SecondsInRange | common/epoch.c:101-153 | Times from 1970 to 9999 are 0 to 253402300799 seconds. |
| Epoch.AcceptedIff | common/epoch.c:101-134 | A text is that of a time exactly if its separators and fields are in order. |
| Epoch.ValueOfDigits | common/epoch.c:65-99 | Digits read back as the number that was written. |
| Epoch.WriteNumber | common/epoch.c:80-99 | The digits with zeros in front, and nothing else is written. |
| Epoch.ReadNumber | common/epoch.c:65-78 | The number that the digits spell, or -1 if one is none. |
| Epoch.EpochSeconds | common/epoch.c:101-153 | The seconds of a text of a time, and the error for every other text. |
| Epoch.SplitSeconds | common/epoch.c:160-185 | The search loops stop within 9999 and 12 at the one year and month of the second. |
| Epoch.EpochConvert | common/epoch.c:155-212 | The text of the time with this number of seconds, or of the last second of 9999. |
| Epoch.ConvertAndBack | common/epoch.c:101-212 | From seconds to text and back is the identity up to the last second and clamps beyond. |
| Epoch.BackAndConvert | common/epoch.c:101-212 | From an accepted text to seconds and back is the identity. |
| Epoch.SecondsTick | common/epoch.c:136-158 | A clock with a calendar: the next second has the next number. |
| Epoch.MonthLengths | common/epoch.c:30-63 | Months of 31 days alternate with shorter ones but for July and August, and February has 28 or 29. |
| Epoch.FirstAndLast | common/epoch.c:101-212 | The first second of 1970 has number 0, and 2038-01-19T03:14:07 is the last second of 31 bits. |
| Utf8.Encode | common/utf8.c:90-122 | The bytes of a scalar value and nothing for any other number. |
| Utf8.Decoder.Decode | common/utf8.c:46-88 | One step of the decoder whose streams are described by the next rows. |
| Utf8.StepPending | common/utf8.c:46-88 | A byte continues the pending sequence, ends it as the encoding of the answer, or drops it with an error. |
| Utf8.EncodedDecodes | common/utf8.c:46-122 | The encoding of a scalar value is answered by that value, and the decoder is idle again. |
| Utf8.RoundTrip | common/utf8.c:46-122 | Any list of scalar values comes back from the decoder as it went into the encoder. |
| Utf8.DecodeAll | common/utf8.c:46-88 | Byte by byte, the decoder answers what the description of streams says. |
| Utf8.AnswerIsEncoded | common/utf8.c:46-88 | On any stream a number is answered exactly at the end of its encoding, begun when the decoder was last idle. |
| Utf8.EncodedForm | common/utf8.c:90-122 | The table of section 3 of RFC 3629: how many bytes a scalar value takes, what the first one begins with, and the weights of the bits in all of them; no other bytes have this form. |

## Left out

- Block I/O and its errors, allocation failure of the C library, time stamps: transfers always succeed and buffers exist.
- Mutexes, spin locks and the order of processors: every operation runs alone.
- FAT directories, opening, creating, renaming, removing and writing files: only what they build on, chains, the first cluster of a file and reading, is modelled.
- FAT block addresses are sector numbers: the factor of large sectors (`io_mul`) and the position of a directory record are not modelled, and the tables are arrays of their own.
- FAT tables before they are mounted and tables of a size that does not hold all cells; the table of a volume always has its buffer.
- Runs of stores into 12-bit tables with write-back: for one store it is said exactly when the disk can be brought up to date.
- `fat_read` of directories, which have no size in their record.
- FatRuns.Step: truncation is applied to chains that are long enough for the size.
- The 64-bit page tables, the protection and check functions for user memory, kernel mappings, control registers and the translation buffers of the processor.
- BootMaps.CheckEntries: the other tests of `memory_init`, for certain types of entries.
- Initialization of the frame bitmap from the memory map.
- Dynamic and stored blocks of deflate, which the code refuses, and a negative count for `huffman_init`.
- The address arithmetic of the heap beyond 32 bits, and `calloc` and `strdup`, which only call the allocator.
- BootMaps.MemoryMap.AlignedAlloc: `memory_disable_manager` is not modelled, only the kinds that the allocator gives while it runs.
- The collection of entries in `memory_export_map` in front of the sort; entries are compared by value, and the byte-wise swap of the sort is one of whole values.
- Rendering, the framebuffer, fonts and `printf` of the terminal; the number of terminals and switching between them.
- TrueType tables, curves and filling; overflow of the coordinates of a line.
- Hardware plumbing: ACPI, PCI, USB, interrupts, timers, graphics, UEFI calls and the boot code in assembly.
