# K/drivers, verified

A Dafny model of the logic of the Arctan kernel's driver module: the block walk and directories of its ext2 driver, byte
I/O, queue pairs and bring-up of its NVMe driver, the generator of its driver tables together with the kernel's search in
them, and the cpio initramfs. `dafny verify dfyconfig.toml` checks all of it.

| file | what it models |
|---|---|
| `Bytes.dfy` | bytes, little-endian words, splices, division facts; `Revision` |
| `Ext2Layout.dfy` | block size, the index arithmetic of the walk, and the `i_block` numbering it has to agree with |
| `Ext2Blocks.dfy` | following pointers through a disk image, and where the shipped divisors go wrong |
| `Ext2Walk.dfy`, `Ext2Traverse.dfy` | `ext2_traverse_blocks`: table buffers, write-back, callbacks, loop and exit path |
| `Ext2Places.dfy` | where the bytes of a file lie, in terms of the inode's pointers and the words of the disk |
| `Ext2Files.dfy` | reading and writing inode data, and a file as a sequence of bytes |
| `Ext2Writes.dfy` | for which ranges writes with the shipped divisors are right |
| `Ext2Directory.dfy` | directory listing and name lookup |
| `NvmeNamespace.dfy` | byte reads and writes through page commands |
| `NvmeQueuePair.dfy`, `NvmeProtocol.dfy` | submit and poll with their doorbell registers, and every interleaving of them with the controller |
| `NvmeInit.dfy` | paged namespace enumeration, and the division of queue pairs among namespaces and processors |
| `DriverIndices.dfy`, `DriverTable.dfy` | index assignment, table construction, search by code, resource initialisation |
| `Cpio.dfy` | the old binary cpio format: encoder, scan, read, stat |

Disks and namespaces are byte sequences that their methods replace; rings, the array of queue pairs and callers'
buffers are arrays. Loops of the source are loops here, each proved against a specification that is stated without them: the bytes
of a file by following pointers (`FileBytes`), the chunks that a transfer is served by (`Served`), the ids above a given one
(`Listed`), the order in which a cluster's names are met (`Rank`), the first file whose name matches (`FirstMatch`).

The format of ext2 follows "The Second Extended File System: Internal Layout", the parts on the `i_block` array and on
linked-list directories; queues, doorbells and phase tags follow sections 4.1 and 4.6 of the NVM Express Base Specification
1.4; the archive is that of cpio(5), "Old Binary Format".

## Where the code misses its own intent

In the places below the code contradicts its comments, its own tests or the format it reads. For each there is the exact
condition, over all inputs, under which the code is right, and an input on which it is not where that condition does not
name one already. In the walk, the queue pair and the write path the model takes a `Revision`: `AsShipped` is the code as
it stands, `Repaired` the same code with the one repair that a comment marks; theorems that need no repair hold for both.
The other places are modelled as they stand.

- `src/c/sysfs/ext2/util.c:105-106` divide by the block size instead of the number of pointers in a block (the comment at
  line 140 and the test at line 116 count pointers), and the triply indirect index also has to leave out the singly
  indirect block. Reads are right on every disk if and only if the range ends below block 12 + `block_size / 4`
  (`Ext2Files.ShippedReadIsRightIff`), and so are writes on every disk where the file's blocks are its own
  (`Ext2Writes.ShippedWriteIsRightIff`). Past the blocks that an inode can map, even the repaired walk takes the path of
  an earlier block (`Ext2Layout.RepairedSplitIsLayoutIff`).
- `src/c/sysfs/ext2/util.c:54` allocates a table buffer before the pointer is known to be non-zero, and the exit path at
  lines 181-209 then writes that buffer over block 0, after reads (`Ext2Files.ReadLeavesDiskIff`) and writes
  (`Ext2Files.WriteKeepsOthersIff`) alike. No mapped byte of a file changes (`Ext2Files.SpillKeepsFile`), but with blocks
  of 2048 bytes or more the superblock is lost (`Ext2Files.SpillHitsSuperblock`).
- `src/c/sysfs/ext2/util.c:304` and `src/c/sysfs/initramfs/super.c:74` compare a prefix where a name is looked up, each the
  other way round (`Ext2Directory.LookupIsExactIff`, `Cpio.FindIsExactIff`), and the first does not tell unused directory
  entries apart (`Ext2Directory.LookupFindsUsedIff`).
- `src/c/sysdev/nvme/pci.c:91-93` and `:99-101` both flip the expected phase at the end of the ring, so it never changes.
  The pair is safe for as many commands as the completion ring has slots, and the next poll returns a stale completion
  (`NvmeProtocol.ShippedRunsAreSafeIff`).
- `src/c/sysdev/nvme/pci.c:103` frees the slot numbered by the whole admin identifier, bit 15 included
  (`NvmeQueuePair.FreedSlotIsAllocatedIff`).
- `src/c/sysdev/nvme/namespace.c:280` copies into a page that nothing has allocated when a write starts at a block boundary
  with a whole page (`NvmeNamespace.Namespace.Write`); lines 240 and 273 keep an LBA in an `int`
  (`NvmeNamespace.StartLbaIsIndexIff`); and every command moves a whole page, so that the last blocks of a namespace are out
  of reach of a transfer that does not end with a page (`NvmeNamespace.TransferIsCompleteIff`).
- `src/c/sysdev/nvme/namespace.c:155-165` claims queue pairs by the number granted, without looking at how many were
  created and are left (`NvmeInit.StaysInsideIff`).
- `tools/gen_dri_defs.py:130-144` takes a name's index from the last group of its cluster but advances that group's index
  only for names registered there, so that two drivers of a cluster can share an index (`DriverIndices.IndicesDifferIff`).
  If one group registers both, its table loses one (`DriverIndices.InjectiveIff`,
  `DriverTable.RegisteredDriversAreFoundIff`).
- `src/c/sysfs/initramfs/file.c:40,157` report the size of a file rounded up to even, and as an `int`
  (`Cpio.DataSizeIsRightIff`, `Cpio.StatReadsBack`).

## Model

| member | source | states |
|---|---|---|
| Ext2Layout.BlockSizeOf | src/c/sysfs/ext2/super.c:154-157 | The shifting loop leaves 1024 times a power of two, with the 64-bit wrap to zero and the shift count read as an `int` |
| Ext2Layout.BlockSizesAre | src/c/sysfs/ext2/super.c:154-157 | 1024 for a shift count of 0, twice as much for each one more, and nothing left above 53 |
| Ext2Layout.BlockSizeIsValid | src/c/sysfs/ext2/super.c:154-157 | The block size is usable exactly for shift counts below 54 or above the `int` range |
| Ext2Layout.DigitsThenUndigits | src/c/sysfs/ext2/util.c:104-122 | Table entries are the digits of a leaf's number in base "pointers per block": splitting and joining gives the number back |
| Ext2Layout.UndigitsThenDigits | src/c/sysfs/ext2/util.c:104-122 | Joining and splitting gives the entries back, for trees of any height |
| Ext2Layout.LayoutPathIsBijection | src/c/sysfs/ext2/util.c:90-176 | The ext2 numbering is a bijection between file blocks below the capacity and valid pointer paths |
| Ext2Layout.LayoutIs | src/c/sysfs/ext2/util.c:91-174 | The numbering itself: blocks 0 to 11 are direct, then come the leaves below one, two and three tables, each in order of its entries |
| Ext2Layout.ShippedSplitAt | src/c/sysfs/ext2/util.c:104-122 | What the shipped arithmetic makes of any block: four stretches of `block_size / 4` blocks in turn get the same path |
| Ext2Layout.RepairedSplitIsLayout | src/c/sysfs/ext2/util.c:91-122 | The repaired index split is the ext2 numbering for every block size and every block an inode can map |
| Ext2Layout.RepairedSplitIsLayoutIff | src/c/sysfs/ext2/util.c:91-122 | It is the ext2 numbering exactly there; past the capacity it takes the path of an earlier block |
| Ext2Blocks.RepairedBlockIsLayoutBlock | src/c/sysfs/ext2/util.c:90-174 | The repaired walk is sound on the same disks as the layout's path and leads to the layout's block |
| Ext2Blocks.FollowFrame | src/c/sysfs/ext2/util.c:109-174 | A path's block and tables do not change when a disk changes outside those tables |
| Ext2Blocks.ShippedSplitStrays | src/c/sysfs/ext2/util.c:104-122 | From block 12 + `ptr_count` on the shipped split takes too low a root, or the right root and a wrong first entry: never the right path |
| Ext2Blocks.ShippedTakesWrongBlock | src/c/sysfs/ext2/util.c:104-122 | For each such block there is a fully mapped disk on which the shipped walk takes a block of different contents |
| Ext2Walk.LoadReadBlock | src/c/sysfs/ext2/util.c:48-67 | A table is loaded exactly if its pointer is non-zero; otherwise the shipped code leaves an unread buffer behind |
| Ext2Walk.Replace | src/c/sysfs/ext2/util.c:129-138 | Replacing a clean table buffer leaves the disk as it was and the wanted table in the buffer |
| Ext2Walk.SelectTriple | src/c/sysfs/ext2/util.c:116-138 | The triply indirect branch selects the doubly indirect table on the layout's way, keeping every buffer clean |
| Ext2Walk.SelectDouble | src/c/sysfs/ext2/util.c:109-145 | So does the choice between the doubly and triply indirect branches |
| Ext2Walk.SelectBelowDouble | src/c/sysfs/ext2/util.c:147-165 | The singly indirect table below it is on the way as well, or the block is unmapped |
| Ext2Walk.SelectSingle | src/c/sysfs/ext2/util.c:104-167 | All three indirect regions together, and exactly when an unread buffer is left behind |
| Ext2Walk.ResolveIndirect | src/c/sysfs/ext2/util.c:103-174 | One pass over cached tables finds the block that following pointers on the disk finds, or 0 if there is none |
| Ext2Traverse.TablesSurvive | src/c/sysfs/ext2/util.c:247-258 | Writing bytes of a file leaves its block map alone if no data block is one of its tables |
| Ext2Traverse.CacheSurvives | src/c/sysfs/ext2/util.c:109-176 | Every loaded table still equals its disk block after file bytes are written |
| Ext2Traverse.Transfer | src/c/sysfs/ext2/util.c:219-258 | The callbacks move the rest of one block between disk and buffer and nothing else |
| Ext2Traverse.Pass | src/c/sysfs/ext2/util.c:90-178 | Each pass keeps the invariant: bytes so far are right, buffers equal their blocks, tags never run ahead of the walk |
| Ext2Traverse.Flush | src/c/sysfs/ext2/util.c:180-209 | The exit path changes nothing, except block 0 when an unread buffer is left |
| Ext2Traverse.Traverse | src/c/sysfs/ext2/util.c:73-212 | For any offset and size: the count is the distance to the first unmapped block; a read fills exactly those bytes; a write places exactly those, the later one where two share a place, and keeps every other disk byte; block 0 is overwritten exactly when a shipped walk stops at a zero root pointer |
| Ext2Places.DirectBytes | src/c/sysfs/ext2/util.c:94-102 | Byte `p` of the first twelve blocks is byte `p % block_size` of block `dbp[p / block_size]`, or unmapped if that is 0, whatever the rest of inode and disk holds |
| Ext2Places.SinglyBytes | src/c/sysfs/ext2/util.c:147-174 | For the next `block_size / 4` blocks the block is the disk's word `sibp * block_size + 4 * c`, for either set of divisors |
| Ext2Places.DoublyBytes | src/c/sysfs/ext2/util.c:140-174 | Behind those it is found through two words of the disk from `dibp`, with the repaired divisors |
| Ext2Places.TriplyBytes | src/c/sysfs/ext2/util.c:116-174 | And behind those through three from `tibp` |
| Ext2Files.ReadInodeData | src/c/sysfs/ext2/util.c:233-245 | The same for `ext2_read_inode_data`, for size 0 as well; each byte from a direct block is the one that `dbp` leads to on the disk, and a read that stops there stops at a zero pointer |
| Ext2Files.WriteInodeData | src/c/sysfs/ext2/util.c:276-288 | The same for `ext2_write_inode_data`, where in a file of its own blocks the bytes end up where `dbp` leads; without the write attribute nothing happens |
| Ext2Files.ExtentIsUnique | src/c/sysfs/ext2/util.c:90-103 | The returned count is determined by disk, inode and range |
| Ext2Files.ShortWalkStopsAtBlock | src/c/sysfs/ext2/util.c:94-103 | A walk that stops early stops at a block boundary, before the first unmapped block |
| Ext2Files.ReadsConcatenate | src/c/sysfs/ext2/util.c:90-102 | Two consecutive reads bring the bytes and the count of the one larger read |
| Ext2Files.ReadLeavesDiskIff | src/c/sysfs/ext2/util.c:54-66 | A read leaves the disk identical exactly if repaired, or if no position of the range hangs off a zero root table pointer with all positions before it mapped, or if block 0 happens to equal the stray buffer; otherwise that buffer replaces block 0 and nothing else |
| Ext2Files.WriteKeepsOthersIff | src/c/sysfs/ext2/util.c:54-66 | A write places its bytes and keeps every other byte of the disk in exactly the same cases |
| Ext2Files.ReadSpillsExample | src/c/sysfs/ext2/util.c:181-209 | Reading past twelve direct blocks of a file without indirect blocks overwrites block 0 |
| Ext2Files.SpillKeepsFile | src/c/sysfs/ext2/util.c:181-209 | Overwriting block 0 changes no mapped byte of any file |
| Ext2Files.SpillHitsSuperblock | src/c/sysfs/ext2/super.c:126-127 | The superblock survives an overwritten block 0 with blocks of 1024 bytes only |
| Ext2Files.WriteSplicesFile | src/c/sysfs/ext2/util.c:247-288 | After a write inside it a file is its old bytes with the new ones spliced in |
| Ext2Files.WriteThenRead | src/c/sysfs/ext2/util.c:219-288 | Reading a written range returns what was written |
| Ext2Files.ShippedReadIsRightIff | src/c/sysfs/ext2/util.c:104-107 | On all disks the shipped divisors read a range right if and only if its last block is below 12 + `block_size / 4` |
| Ext2Writes.OwnerWalksApart | src/c/sysfs/ext2/util.c:104-122 | On a disk where the file's blocks are its own, every range meets what the contracts of reading and writing ask for, for either set of divisors |
| Ext2Writes.SamePlaces | src/c/sysfs/ext2/util.c:247-258 | What a write leaves depends on where the bytes of its range lie and nothing else |
| Ext2Writes.WriteHasResult | src/c/sysfs/ext2/util.c:247-258 | Every write of mapped bytes has a result that its contract describes |
| Ext2Writes.LowWritesAgree | src/c/sysfs/ext2/util.c:104-107 | Below block 12 + `block_size / 4` both sets of divisors write the same on every disk |
| Ext2Writes.StrayWriteDiffers | src/c/sysfs/ext2/util.c:247-258 | If the last byte written belongs to a different block, some write comes out different |
| Ext2Writes.OwnedDisk | src/c/sysfs/ext2/util.c:104-122 | For each block beyond there is a disk of the file's own blocks on which the two sets of divisors differ at that block |
| Ext2Writes.ShippedWriteIsRightIff | src/c/sysfs/ext2/util.c:104-107 | On all disks where the file's blocks are its own the shipped divisors write a range right if and only if its last block is below 12 + `block_size / 4` |
| Ext2Directory.EntryReadsBack | src/c/include/drivers/sysfs/ext2/ext2.h:114-123 | An encoded directory entry reads back as itself wherever it stands |
| Ext2Directory.EntryBytes | src/c/include/drivers/sysfs/ext2/ext2.h:114-123 | Its bytes: inode, total size, name length, kind and name, low bytes first |
| Ext2Directory.ListBlock | src/c/sysfs/ext2/util.c:338-350 | One block is listed up to its first accepted entry, or to its end or an entry of size zero |
| Ext2Directory.ListDirectory | src/c/sysfs/ext2/util.c:327-356 | The callback sees exactly the encoded entries of all blocks, in order, up to the first it accepts |
| Ext2Directory.MatchIsPrefix | src/c/sysfs/ext2/util.c:304-306 | The comparison accepts exactly the targets that the entry's name is a prefix of |
| Ext2Directory.GetInodeInDir | src/c/sysfs/ext2/util.c:312-325 | Lookup returns the inode of the first entry whose name is a prefix of the target, or 0 if no name is |
| Ext2Directory.LookupIsExactIff | src/c/sysfs/ext2/util.c:303-309 | That is the first entry of that very name exactly when no earlier name is a proper prefix of it |
| Ext2Directory.LookupFindsPrefix | src/c/sysfs/ext2/util.c:303-309 | With `a` before `ab`, looking up `ab` finds `a` |
| Ext2Directory.LookupFindsUsedIff | src/c/sysfs/ext2/util.c:303-309 | Lookup returns the inode of the first used entry of the name, or 0 if there is none, exactly when no earlier entry hides it: one whose name is a prefix, that names another inode, and that no entry naming the same comes before |
| Ext2Directory.LookupFindsUnused | src/c/sysfs/ext2/util.c:303-309 | An unused entry without a name or of the same name hides a used one |
| NvmeNamespace.LbaExponentIsValid | src/c/sysdev/nvme/namespace.c:102 | Every block size of up to a page divides the page |
| NvmeNamespace.StartLbaIsIndexIff | src/c/sysdev/nvme/namespace.c:240 | The `int` keeps an LBA exactly below 2 to the 31 |
| NvmeNamespace.ChunkEndsAligned | src/c/sysdev/nvme/namespace.c:230-249 | Only the first pass can start inside a logical block |
| NvmeNamespace.PassServesChunk | src/c/sysdev/nvme/namespace.c:231-238 | The arithmetic of a pass, though it takes the minimum with the whole length, never leaves the page or the buffer |
| NvmeNamespace.Namespace.RwPage | src/c/sysdev/nvme/namespace.c:191-222 | A page command reads or writes one page at an LBA, or fails without effect |
| NvmeNamespace.Namespace.Read | src/c/sysdev/nvme/namespace.c:224-255 | A read returns the count of bytes before the first refused chunk, exactly the flat slice in the buffer, and the device and the rest of the buffer as they were |
| NvmeNamespace.Namespace.PatchPage | src/c/sysdev/nvme/namespace.c:275-285 | Read, overlay and write back change exactly the overlaid bytes |
| NvmeNamespace.Namespace.WritePass | src/c/sysdev/nvme/namespace.c:263-288 | Each pass keeps "the namespace is the old one with the prefix spliced in" |
| NvmeNamespace.Namespace.Write | src/c/sysdev/nvme/namespace.c:257-293 | A write splices exactly the returned prefix into the namespace; the shipped one copies to NULL exactly if it starts at a block boundary with a whole page |
| NvmeNamespace.TransferIsCompleteIff | src/c/sysdev/nvme/namespace.c:203-211 | Without faults a transfer is complete exactly if its last whole-page command ends inside the namespace; reads and writes agree |
| NvmeNamespace.WriteThenRead | src/c/sysdev/nvme/namespace.c:224-293 | Reading back a written range returns as many bytes, and those |
| NvmeNamespace.TailIsUnreadable | src/c/sysdev/nvme/namespace.c:207 | The last half page of a namespace cannot be read on its own |
| NvmeQueuePair.FreedSlotIsAllocatedIff | src/c/sysdev/nvme/pci.c:42-46 | The slot freed for an identifier is the one that submit allocated, except on the shipped admin pair, where it is 0x8000 more |
| NvmeQueuePair.CidHolds | src/c/sysdev/nvme/pci.c:42-46 | An identifier holds the pair number in its low six bits and the slot in the eight above, or bit 15 and the slot on the admin pair |
| NvmeQueuePair.CidsDifferIff | src/c/sysdev/nvme/pci.c:42-46 | Identifiers tell apart exactly the pairs of slot and queue number modulo 64 |
| NvmeQueuePair.DoorbellsAreDisjoint | src/c/sysdev/nvme/pci.c:14-15 | Doorbell words of different queues or kinds never overlap, at any stride |
| NvmeQueuePair.DoorbellsTakeTurns | src/c/sysdev/nvme/pci.c:14-15 | From 0x1000 on submission and completion doorbells of queues 0, 1, 2, ... follow one another, `4 << stride` bytes apart |
| NvmeQueuePair.QueuePair.constructor | src/c/sysdev/nvme/pci.c:117-139 | Zeroed rings and doorbells, expected phase 1 |
| NvmeQueuePair.QueuePair.Submit | src/c/sysdev/nvme/pci.c:24-58 | Submit is the driver step of the protocol model; of all registers it writes the submission doorbell of its queue, with the new tail |
| NvmeQueuePair.QueuePair.Poll | src/c/sysdev/nvme/pci.c:61-107 | A poll ends exactly when phase and identifier match at the head, and then is the poll step of the protocol model, writes the completion doorbell of its queue with the new head, and frees the slot of the identifier; until then it changes nothing |
| NvmeProtocol.SlotMatchesIffUnread | src/c/sysdev/nvme/pci.c:75-77 | A slot carries the tag of its lap exactly when the completion that belongs there has been posted |
| NvmeProtocol.HeadMatchesIffUnread | src/c/sysdev/nvme/pci.c:75-77 | The head matches the driver's phase exactly when there is an unread completion, and then holds the oldest |
| NvmeProtocol.PollReturnsOwnCompletion | src/c/sysdev/nvme/pci.c:75-87 | A poll that ends returns the completion of its own command |
| NvmeProtocol.OldestCanBePolled | src/c/sysdev/nvme/pci.c:75-77 | While completions are unread, exactly the poll for the oldest can end |
| NvmeProtocol.StepKeepsInv | src/c/sysdev/nvme/pci.c:40-104 | Submit, fetch, post and poll keep indices, phases, doorbells and ring contents functions of the counts, and every command in exactly one place: in its ring, with the controller, or posted |
| NvmeProtocol.WaitingCanProceed | src/c/sysdev/nvme/pci.c:73-104 | As long as a command is waited for, some fetch, post or poll can take place: the pair never deadlocks |
| NvmeProtocol.RepairedPairDrains | src/c/sysdev/nvme/pci.c:73-104 | From every state of the repaired pair a run without new commands ends with every command polled, each once: none is lost |
| NvmeProtocol.RepairedRunsAreSafe | src/c/sysdev/nvme/pci.c:40-104 | With one flip a lap, in every run of any length and interleaving, polls return what was posted for their commands, in order and once |
| NvmeProtocol.ShippedRunKeepsInv | src/c/sysdev/nvme/pci.c:91-101 | So do runs of the shipped code with no more commands than completion slots |
| NvmeProtocol.ShippedPollReturnsStale | src/c/sysdev/nvme/pci.c:91-101 | One command later there is a run whose last poll returns the first command's completion before the new command is fetched |
| NvmeProtocol.ShippedRunsAreSafeIff | src/c/sysdev/nvme/pci.c:91-101 | Hence shipped runs of up to `k` commands are safe if and only if `k` is no more than the completion ring's size |
| NvmeInit.ClearLowest | src/c/sysdev/nvme/nvme.c:200 | Taking off the lowest bit takes exactly that command set off the mask |
| NvmeInit.BitIs | src/c/sysdev/nvme/nvme.c:198-200 | A command set is enabled exactly if that binary digit of the mask is 1 |
| NvmeInit.AboveIs | src/c/sysdev/nvme/nvme.c:214-250 | A page asked for from an id on has exactly the larger ids |
| NvmeInit.AboveDrops | src/c/sysdev/nvme/nvme.c:214-250 | Continuing after a page's last id continues exactly where the page ended |
| NvmeInit.CollectPage | src/c/sysdev/nvme/nvme.c:227-249 | One page adds exactly its ids, for full pages too, and tells whether to go on |
| NvmeInit.ListSet | src/c/sysdev/nvme/nvme.c:212-250 | The pages of one set add its ids up to a failing command, and the loop ends |
| NvmeInit.ListNamespaces | src/c/sysdev/nvme/nvme.c:196-258 | The list holds the namespaces of all sets, newest first, and the count is its length |
| NvmeInit.ListedIsPrefix | src/c/sysdev/nvme/nvme.c:222-225 | A failing list command costs a set its remaining ids and nothing else |
| NvmeInit.EachNamespaceOnce | src/c/sysdev/nvme/nvme.c:196-258 | Without failures each pair of enabled set and active namespace is listed exactly once, in order, and nothing else is |
| NvmeInit.Queues.constructor | src/c/sysdev/nvme/nvme.c:305-325 | The request is the product of namespaces and processors reduced to 16 bits, and the smaller of request and grant is created, numbered from 1 |
| NvmeInit.RequestedIsProduct | src/c/sysdev/nvme/nvme.c:305-317 | Both truncations together are one of the product, and none if it is below 2 to the 16 |
| NvmeInit.Queues.Claim | src/c/sysdev/nvme/namespace.c:154-157 | A namespace claims the next `min(processors, granted)` pairs |
| NvmeInit.Queues.ClaimAll | src/c/sysdev/nvme/nvme.c:327-331 | The claims of a whole initialisation, and whether all of them lie in the created pairs |
| NvmeInit.Queues.PairFor | src/c/sysdev/nvme/namespace.c:213 | A command takes the pair at the namespace's base plus the processor, if there is one |
| NvmeInit.StaysInsideIff | src/c/sysdev/nvme/namespace.c:154-213 | No registration or command leaves the array if and only if a pair was granted for every namespace and processor |
| NvmeInit.ClaimsTile | src/c/sysdev/nvme/namespace.c:154-213 | Then the claims tile the first `namespaces * processors` pairs: namespace `k` and a processor use pair `k * processors` plus the processor, one user for each pair, one pair for each user |
| NvmeInit.ClaimsCoverCreated | src/c/sysdev/nvme/nvme.c:305-325 | If the product fits 16 bits and is granted, those are all the pairs that are created |
| DriverIndices.UpdateCluster | tools/gen_dri_defs.py:137-144 | Updating the groups of a cluster gives the same dictionaries in whatever order the set is iterated |
| DriverIndices.AssignName | tools/gen_dri_defs.py:121-144 | One name: the first cluster listing the group, the index of its last group, and the script's two ways to fail |
| DriverIndices.ClusterIsFirst | tools/gen_dri_defs.py:130-135 | The cluster of a group is the first that lists it, or the group alone if none does |
| DriverIndices.FillInIndices | tools/gen_dri_defs.py:114-146 | The nested loops compute the recursive specification that the results below are about |
| DriverIndices.FillsIff | tools/gen_dri_defs.py:121-134 | The script ends with indices exactly when every group used, and every group of its cluster, is known and has drivers |
| DriverIndices.FailsHow | tools/gen_dri_defs.py:121-144 | Otherwise the first group that fails decides how: an error that names it if it is unknown itself, a `KeyError` if another of its cluster is |
| DriverIndices.IndexIsRank | tools/gen_dri_defs.py:119-144 | A driver has the same index in every group of its cluster that registers it: the number of drivers of the last listed group met before it; elsewhere in the cluster it is marked absent |
| DriverIndices.IndicesDifferIff | tools/gen_dri_defs.py:130-144 | In the generated dictionaries no two drivers of a cluster, in whatever groups, have the same index exactly when all of them, but perhaps the one met last, are registered in the last listed group |
| DriverIndices.InjectiveIff | tools/gen_dri_defs.py:139-144 | A group's generated dictionary gives no index out twice exactly when between any two of its drivers the script meets one of the last listed group, the first of the two counted in |
| DriverIndices.TwoDriversCollide | tools/gen_dri_defs.py:130-144 | With `x` and `y` in one group and `z` in the last listed one the script ends well and stores index 0 twice |
| DriverTable.Largest | tools/gen_dri_defs.py:262 | A key whose index is the largest |
| DriverTable.BuildTable | tools/gen_dri_defs.py:259-277 | The table has one line for each index up to the largest, and on each used one the driver met last among those with that index |
| DriverTable.TableHoldsAllIff | tools/gen_dri_defs.py:271-277 | The table holds every driver exactly when no two share an index |
| DriverTable.RegisteredDriversAreFoundIff | tools/gen_dri_defs.py:114-277 | From registrations to the table: each driver that a group registers stands at its index in the group's table under exactly that condition |
| DriverTable.CollidingTableLosesOne | tools/gen_dri_defs.py:271-277 | The table of the two colliding drivers holds one of them at most |
| DriverTable.HasCode | src/c/resource.c:91-95 | The code loop finds exactly the codes before the terminator |
| DriverTable.FindCode | src/c/resource.c:80-98 | The least index whose code list contains the target, or -1 if there is none |
| DriverTable.CodesAreFoundIff | src/c/resource.c:80-98 | From registrations to the search: whatever drivers and codes are defined, each driver that a group registers is found by its codes at its own index or before, exactly if the group's drivers are separated in the sense of `InjectiveIff` |
| DriverTable.FoundIsRegistered | src/c/resource.c:80-98 | What the search finds in the table built from the registrations is a driver of the group |
| DriverTable.Resources.InitResource | src/c/resource.c:37-78 | A resource exactly if group and index are in range, a driver with an `init` stands there and it returns 0; ids count up |
| DriverTable.Resources.InitPciResource | src/c/resource.c:100-116 | The resource of the first driver that lists a number with the vendor as its high and the device as its low 16 bits; none, and no id used, if there is none or the function is absent |
| DriverTable.PciCodesDiffer | src/c/resource.c:109 | PCI codes tell functions apart and never equal the terminator |
| DriverTable.PciCodeHolds | src/c/resource.c:109 | The code is the number whose high 16 bits are the vendor and whose low 16 bits are the device |
| Cpio.DataSizeIsRightIff | src/c/sysfs/initramfs/super.c:38 | The size macro gives the size rounded up to even exactly below 2 to the 31 less one |
| Cpio.LargeSizeIsNotPositive | src/c/sysfs/initramfs/super.c:38 | For larger files it gives that size less 2 to the 32, zero or less, so that the scan's step ends before the file does |
| Cpio.HeaderStands | src/c/sysfs/initramfs/super.c:40-52 | Every header word of an encoded file reads back |
| Cpio.HeaderBytes | src/c/sysfs/initramfs/super.c:40-52 | Its bytes: the magic number octal 070707, low byte first, and of a 32-bit number the high halfword first |
| Cpio.FileStands | src/c/sysfs/initramfs/super.c:35-38 | The macros find name and data of an encoded file |
| Cpio.EntrySizeIs | src/c/sysfs/initramfs/super.c:83 | The scan's step is the length of the encoded entry |
| Cpio.MatchIsPrefix | src/c/sysfs/initramfs/super.c:74 | The comparison accepts exactly the names that start with what is looked for |
| Cpio.FindFile | src/c/sysfs/initramfs/super.c:58-90 | The scan lands on every entry in order, ends, and returns where the first file stands whose name starts with the name looked for, or nothing if none does; of a name that begins with a slash it looks for the rest |
| Cpio.FindIsExactIff | src/c/sysfs/initramfs/super.c:71-85 | The result is the file of that very name, or nothing if there is none, exactly when no file before it has a longer name that starts the same |
| Cpio.FindsLongerName | src/c/sysfs/initramfs/super.c:71-85 | On an archive of `ab` and then `a`, every search for `a` ends at `ab` |
| Cpio.FindsBehindSlash | src/c/sysfs/initramfs/super.c:64-66 | On an archive of `a`, a search for `/a` ends at `a` |
| Cpio.Read | src/c/sysfs/initramfs/file.c:80-109 | Reading any window of an encoded file gives its bytes followed by zeros |
| Cpio.StatReadsBack | src/c/sysfs/initramfs/file.c:150-159 | Every stat field is the encoded one, but the size rounded up to even, and a time from 2 to the 31 on less 2 to the 32 |

## Left out

- Block allocation and growth of files: the create callback always yields 0 (`src/c/sysfs/ext2/util.c:260-274`), and the only caller of `ext2_allocate_blocks` is commented out.
- Inode location, superblock checks and descriptor tables of ext2: straight-line arithmetic before one read.
- The sum of offset and size of an ext2 transfer is not reduced modulo 2 to the 64, and a partition is taken to move all it is asked to: pointers that the walk reads and that lead outside the disk are excluded (`Walkable`).
- Ext2Files.WriteInodeData: like the next, asks that no data block of the range is a pointer table of the range (`DataApart`).
- Ext2Traverse.Traverse: says nothing of writes to a range one of whose data blocks is also a pointer table that the range needs, where the table buffers would be written back over data, or data over tables.
- Ext2Writes.ShippedWriteIsRightIff: takes block sizes below 2 to the 34, since larger ones leave more singly indirect blocks than 32-bit pointers can tell apart; that writes agree below the limit is stated for all block sizes (`Ext2Writes.LowWritesAgree`).
- Table and page buffers of the drivers are values, so aliasing between them is not modelled; the file system's and the caller's memory are not the same.
- Arguments that are NULL pointers, failed allocations, leaks and debug output.
- Ext2Directory.ListDirectory: is about blocks that are tiled by entries or ended by an entry of size zero; entries that overrun their block are read past its end by the code.
- NvmeInit.ListNamespaces: takes set masks below 2 to the 31, since `1 << 31` overflows an `int`, and a mask of higher bits alone has no lowest bit for `__builtin_ffs`, whose argument is an `int`.
- NvmeNamespace.Namespace.Read: takes logical blocks of at most a page; for larger ones the block count of a command wraps (`src/c/sysdev/nvme/namespace.c:201-207`).
- Metadata buffers, the namespace cache, namespace identification and `stat` of a namespace.
- The ring buffer library is not part of this model: its allocation is taken to return the current index and advance it modulo the ring size, and to be called only when a slot is free; what freeing the wrong admin slot does inside it is not modelled.
- NvmeQueuePair.QueuePair.Poll: is one turn of the spin; that the controller posts eventually is not modelled, nor are interrupts and memory ordering.
- NvmeProtocol.ShippedRunsAreSafeIff: takes a completion ring whose size is a multiple of the submission ring's, as 256 and 64 are for every pair (`src/c/include/drivers/sysdev/nvme/nvme.h:32-33`, `src/c/sysdev/nvme/nvme.c:92-98`).
- Controller reset, identify data, BAR mapping, interrupt setup and registration commands.
- DriverTable.Resources.InitResource: a driver's `init` is a number it returns; resources that it initialises in turn are not modelled.
- DriverIndices.IndexIsRank: takes clusters that do not overlap and groups that have drivers.
- Parsing of headers and sources and the text of the generated files; the enumeration table over groups.
- Cpio.FindFile: takes file sizes below 2 to the 31 less one; from there on the scan's step is shorter than the entry (`Cpio.LargeSizeIsNotPositive`), and what it finds inside the file is not modelled.
- `init_acpi_resource`, `src/c/sysdev/serial/uart.c`, `src/c/sysfs/buffer.c`, `src/c/sysdev/partition_dummy.c`, `src/c/sysdev/rtc.c`, `src/c/sysdev/hpet.c`: they would add only easy members.
