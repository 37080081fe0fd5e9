# NovaOS kernel components, modelled and proved in Dafny

This project models the parts of the NovaOS kernel whose correctness is hardest to see by
reading, and proves what their comments, tests and interfaces promise.

| files | component |
|---|---|
| `Firewall*.dfy` | the stateful packet filter: connection table, TCP states, UDP and echo tracking, TFTP expectations, ordered rules |
| `Fat32*.dfy` | the FAT32 driver: cluster chains, the root directory, reading, creating and deleting files |
| `Ext2*.dfy` | the ext2 driver: bitmaps and counts, inodes, directory records, reading and creating files |
| `Dynlink*.dfy` | the ELF32 dynamic linker: dynamic section, symbols, relocation |
| `Tftp*.dfy` | the TFTP client's receive loop against an arbitrary network |
| `GrowTable*.dfy` | growable tables with stable element addresses |
| `Crash*.dfy` | the crash record and its FNV-1a checksum |
| `Installer*.dfy` | the installer's partition layout, its MBR and FAT32 boot sector, their readers, and formatting |
| `Words.dfy`, `LittleEndian.dfy` | machine integers and byte buffers |

Code that updates state in place is a class or a method over arrays and byte buffers, proved
against functions on values; what the component promises is then proved about those functions,
over every input, every reachable state or every run. In the firewall the class
`FirewallEngine.Firewall` works on the arrays and refines `FirewallSpec`, whose runs are in
`FirewallRuns`. In the two file systems the class `Driver` works on the disk's sectors or blocks,
and a volume or a consistency predicate gives them meaning.

Some definitions are wrapped in a quantifier over `LookAt...(k)`. They mean what they say inside;
asserting `LookAt...(0)` in a proof opens them there, and nowhere else.

## What the proofs found

- The dry run of the firewall does not always forecast the flow state the committing run leaves:
  for the second datagram of an unanswered UDP flow, and a few packets like it, they differ
  (`FirewallDryRun.ForecastCanBeWrong`); `DryRunAgrees` states exactly when.
- The firewall's clock is 32 bits wide. A deadline that passed half a turn ago (248 days of 100 Hz
  ticks) reads as one to come, so a flow that has run out can return
  (`FirewallLives.FlowsCanReturn`). `FirewallClock.TrueIffLegible` states exactly when the table
  reads true, and the results on whole runs need that at each packet, on a clock that does not go
  back, and nothing more.
- The table of an installed FAT32 volume always has more entries than the volume has clusters
  (`InstallerBoot.TableOutrunsPartition`), and the scan for a free cluster goes over all of them. A
  full volume is not found full, and a write then goes past its partition
  (`Fat32Order.FullVolumeLeaves`). `Fat32Order.StaysExactly` states exactly when an allocation
  stays in the volume.
- Formatting clears eight sectors of each table. The volume is empty whatever was there, but its
  free clusters and the agreement of the copies depend on the rest
  (`InstallerFormat.FreshIsFree`, `InstallerFormat.FreshIsMirrored`).
- FAT32 reads of 2 GiB and more return a negative number though they succeed
  (`Fat32Driver.Driver.ReadFile`); ext2 files cannot be that long.
- A file whose 8.3 name is stored with first byte 0xE5 counts as deleted, so it is written but
  never read (`Fat32Create.Entered`, part of `WriteFile`'s contract).
- `ext2_write_file` succeeds without storing anything when size + block size - 1 wraps to zero
  blocks (`Ext2Driver.CreatedReads`).
- A name longer than 255 bytes is entered in an ext2 directory under its first length mod 256
  bytes. It is never found itself, but that other name then leads to the new file, and an existing
  file of that name further on in the directory is found no longer
  (`Ext2Dirents.InsertTheorem`, `Ext2Dirents.LongNameShadows`).
- Writing the ext2 superblock back zeroes everything in its area after the 90 bytes the driver
  knows (`Ext2Alloc.WithSuperExactly`).
- The comments of the TFTP client do not bound the file size. The exact bound is 65536 blocks for
  the data and 65535 for the acknowledgements (`Tftp.ExactBound`, `Tftp.ExactAcks`).
- A growable table is sound exactly if its chunk size fits 32 bits; creation does not check it
  (`GrowTable.FitsExactly`).
- Ranged ext2 reads agree with the whole-file read exactly for files without a gap
  (`Ext2Ranges.RangesAreSlices`).
- The comment on `parse_dynamic` says the caller can detect more than 16 needed libraries; the
  code counts no further than 16, and so does the model.

The relocation formulas are those of chapter 4 of the System V ABI, Intel386 supplement; the TFTP
packets are those of RFC 1350.

## Model

| member | source | states |
|---|---|---|
| `FirewallSolicited.NothingUnsolicitedGetsIn` | kernel/rust/firewall.rs:1506-1575 | In every run from `init` under the baseline rules with no rule, policy or enable change, every accepted inbound packet has (itself, or in the packet an ICMP error quotes) the tuple of an earlier accepted outbound packet up to swapping ends, or belongs to a UDP flow opened by an expectation from an earlier outbound request to port 69. No hypothesis on the clock. |
| `FirewallSolicited.RunTraced` | kernel/rust/firewall.rs:1397-1485 | Invariant behind it: every flow and every expectation in the table, live or not, goes back to an accepted outbound packet of the run. |
| `FirewallSolicited.AcceptedIsSolicited` | kernel/rust/firewall.rs:1258-1359 | Under the baseline rules a packet that is accepted inbound has a class that only such a flow or expectation gives. |
| `FirewallEcho.RepliesNeverOutnumberRequests` | kernel/rust/firewall.rs:1312-1321 | For every ordered address pair and echo identifier, over every run with the firewall enabled, accepted echo replies never outnumber accepted echo requests, whatever the rules, clock, slot reuse, flushes and saturation of the counter. |
| `FirewallEcho.CommitPending` | kernel/rust/firewall.rs:1415-1485 | One accepted packet changes the pending requests recorded for a tuple, over all slots, by at most what the packet is itself. |
| `FirewallEcho.PendingBound` | kernel/rust/firewall.rs:1367-1395 | Pending requests plus accepted replies never exceed accepted requests, after every run. |
| `FirewallTcp.TcpStatesAreEarned` | kernel/rust/firewall.rs:818-863 | In every run and for every tracked TCP flow: ESTABLISHED is backed by accepted packets of both ends after the SYN, LAST_ACK by a FIN of both ends, TIME_WAIT by a later ACK of the end that sent the first FIN. |
| `FirewallTcp.TransitionBacked` | kernel/rust/firewall.rs:797-863 | Each transition of the TCP table keeps that evidence for the state it moves to. |
| `FirewallTcp.TcpStateNeverDecreases` | kernel/rust/firewall.rs:1417-1429 | Over any stretch of any run a tracked TCP flow keeps its slot with a state number no smaller, unless in between a SYN that was let through restarted it, its expired slot was given away or all flows were flushed. A packet that is dropped or only tried never lowers a state. |
| `FirewallDryRun.DryRunAgrees` | kernel/rust/firewall.rs:1506-1620 | For every reachable state and packet a dry run and a committing run agree on accept, state, rule, reason and detail; they agree on the flow state exactly when the packet is not one of a stated family, never a TCP packet; a dropped packet moves no flow and no expectation. |
| `FirewallDryRun.ForecastCanBeWrong` | kernel/rust/firewall.rs:1577-1591 | The agreement on the flow state fails for the second datagram of an unanswered UDP flow: forecast replied, left unreplied. |
| `FirewallDryRun.RunSound` | kernel/rust/firewall.rs:1367-1395 | In every run a tracked flow carries a state number of its own protocol, and only echo flows have requests pending. |
| `FirewallDryRun.CommitForecast` | kernel/rust/firewall.rs:1415-1464 | What committing leaves as the state of a flow is the forecast, outside that family. |
| `FirewallFlows.FilterRefinesMap` | kernel/rust/firewall.rs:1506-1620 | One packet on the scanned table is one packet on a finite map from tuples to flows: same verdict, same counters, the table afterwards holds the map afterwards, and no two live entries clash. |
| `FirewallFlows.ClassesAgree` | kernel/rust/firewall.rs:1258-1344 | The class a scan of the table gives a packet is the class a map lookup gives it, and the slot it names holds exactly the flow the map entry holds, also for ICMP errors about an echo. |
| `FirewallFlows.CommitsAgree` | kernel/rust/firewall.rs:1415-1485 | Committing a packet to the table is committing it to the map. |
| `FirewallFlows.DecisionsAgree` | kernel/rust/firewall.rs:1516-1575 | The decision on the table is the decision on the map. |
| `FirewallFlows.CountsAgree` | kernel/rust/firewall.rs:1232-1247 | There is a free slot exactly when the map holds fewer flows than the table has slots, and the half-open counts are equal. |
| `FirewallFlows.FlowsUpdate` | kernel/rust/firewall.rs:1218-1230 | Writing one slot changes the map at the tuples of the old and the new entry and nowhere else. |
| `FirewallClock.TableIsAMap` | kernel/rust/firewall.rs:1218-1234 | On an unbounded clock whose low 32 bits the firewall sees, over every run, however long, at whose packets each slot that has run out looks so, the table holds exactly the flows of the map run alongside it, and every packet gets the verdict the map gives. |
| `FirewallClock.NoTwoLiveFlowsClash` | kernel/rust/firewall.rs:770-785 | After every such run, at any later time at which the slots that have run out look so, no tuple belongs to two live entries, in either orientation for TCP and UDP, per orientation for ICMP echo. |
| `FirewallLives.LiveFlowsSurvive` | kernel/rust/firewall.rs:1477-1482 | Over any stretch of such a run a live flow stays in its slot, live, unless in between its time ran out, a SYN reopening it from TIME_WAIT or CLOSE was let through, or all flows were flushed. |
| `FirewallLives.AcceptedFlowIsTracked` | kernel/rust/firewall.rs:1361-1395 | At every point of such a run an accepted new flow gets a slot and is found under its tuple, with its creation time and direction. |
| `FirewallClock.ExpiryExactly` | kernel/rust/firewall.rs:783-785 | The signed reading of the wrapped difference tells past from future if and only if the deadline is to come or has passed an even number of half turns (2^31 ticks) ago. |
| `FirewallClock.FreshIsLegible` | kernel/rust/firewall.rs:783-785 | That holds of every deadline passed less than 2^31 ticks ago. |
| `FirewallClock.TrueIffLegible` | kernel/rust/firewall.rs:783-785 | Every slot is live exactly until it runs out if and only if that holds of each slot's deadline. |
| `FirewallClock.RunTimely` | kernel/rust/firewall.rs:1367-1395 | Over every run, with no hypothesis but that the clock does not go back, each slot's deadline is the low 32 bits of a time at most one timeout ahead. |
| `FirewallLives.FlowsCanReturn` | kernel/rust/firewall.rs:783-785 | The condition is needed: after a UDP datagram at tick 0 its answer is dropped at 4000 and let in at 2^31 + 3000, where the map drops it; the deadline has become illegible. |
| `FirewallClock.FlowsShrink` | kernel/rust/firewall.rs:783-785 | Between two times at which every slot reads true, time passing only removes flows from the map. |
| `FirewallRuns.LockIsForever` | kernel/rust/firewall.rs:1052-1152 | Once locked, no later event changes the rules, policies, enable flag or lock. |
| `FirewallRuns.InsertThenDelete` | kernel/rust/firewall.rs:1068-1119 | In every reachable state, deleting the rule that was just inserted restores the whole state, hit counters included. |
| `FirewallRuns.RunBlank` | kernel/rust/firewall.rs:1068-1130 | In every reachable state the rule slots and counters past the last rule are blank. |
| `FirewallEngine.Firewall.Filter` | kernel/rust/firewall.rs:1506-1620 | On the arrays: with `commit` the new state and verdict are those of the value-level filter; without it nothing at all changes and the verdict is the dry run. |
| `FirewallEngine.Firewall.Decide` | kernel/rust/firewall.rs:1516-1575 | The decision computed in place is the specified one. |
| `FirewallEngine.Firewall.Classify` | kernel/rust/firewall.rs:1258-1344 | The class found by scanning the arrays is the specified one. |
| `FirewallEngine.Firewall.ClassifyIcmp` | kernel/rust/firewall.rs:1307-1344 | The same for echo requests, replies and ICMP errors. |
| `FirewallEngine.Firewall.Find` | kernel/rust/firewall.rs:1218-1230 | The first live slot matching a tuple, with its side; none exactly when no slot does. |
| `FirewallEngine.Firewall.FreeSlot` | kernel/rust/firewall.rs:1232-1234 | The first unused or expired slot, if any. |
| `FirewallEngine.Firewall.HalfOpenInbound` | kernel/rust/firewall.rs:1236-1247 | The number of live inbound half-open TCP flows. |
| `FirewallEngine.Firewall.FindExpect` | kernel/rust/firewall.rs:1249-1256 | The first live expectation that fits a packet. |
| `FirewallEngine.Firewall.FirstMatch` | kernel/rust/firewall.rs:1541-1551 | The first rule that matches, scanning in order. |
| `FirewallEngine.Firewall.Commit` | kernel/rust/firewall.rs:1415-1485 | The tables after committing an accepted packet are the specified ones. |
| `FirewallEngine.Firewall.AddExpect` | kernel/rust/firewall.rs:1397-1413 | The expectation table after one is added or refreshed. |
| `FirewallEngine.Firewall.Record` | kernel/rust/firewall.rs:1596-1618 | Counters and rule hits after a verdict. |
| `FirewallEngine.Firewall.Init` | kernel/rust/firewall.rs:1025-1040 | The state at boot: baseline rules, empty tables, zero counters. |
| `FirewallEngine.Firewall.AddRule` | kernel/rust/firewall.rs:1068-1091 | Insertion by shifting rules and their counters up; refused when locked, full or out of range. |
| `FirewallEngine.Firewall.DelRule` | kernel/rust/firewall.rs:1101-1119 | Deletion by shifting down; refused when locked or out of range. |
| `FirewallEngine.Firewall.FlushRules` | kernel/rust/firewall.rs:1121-1130 | All rules and counters cleared unless locked. |
| `FirewallEngine.Firewall.ApplyConfig` | kernel/rust/firewall.rs:1058-1066 | Rules and policies replaced unless locked; flows are kept. |
| `FirewallEngine.Firewall.SetPolicy` | kernel/rust/firewall.rs:1132-1142 | The policy of one direction; bad directions and locked firewalls refused. |
| `FirewallEngine.Firewall.SetEnabled` | kernel/rust/firewall.rs:1144-1150 | The enable flag unless locked. |
| `FirewallEngine.Firewall.Lock` | kernel/rust/firewall.rs:1052-1054 | The lock is set and nothing else changes. |
| `FirewallEngine.Firewall.FlushConns` | kernel/rust/firewall.rs:1154-1157 | Flows and expectations are forgotten, allowed after the lock too. |
| `Fat32Driver.Driver.WriteFile` | kernel/fs/fat32.c:628-749 | On a well-formed volume, where the clusters it would take stay in the volume: succeeds exactly if the name is new, the block count does not wrap to zero and there are enough free clusters, one more where the directory is full; then the name reads back as exactly the data (never, if stored with first byte 0xE5), every other name reads as before, the volume is well formed and the free set shrinks by exactly the clusters taken, as many as wanted. The first spare slot, or the first of a zeroed new cluster, holds the entry, no other slot has changed, and the chain holds the data and zeros. A failed call leaves every file readable as before. In every case no sector outside the tables and the data area changes, no table entry without a cluster, and no reserved bit. |
| `Fat32Order.StaysExactly` | kernel/fs/fat32.c:156-227 | The entries an allocation takes all stand for clusters of the volume if and only if a condition on hint, free entries and count holds, which can be read off before the call. |
| `Fat32Order.NextInOrder` | kernel/fs/fat32.c:156-192 | Each scan from the moved hint continues the cyclic order of the free entries, so an allocation takes the first ones in that order. |
| `Fat32Order.OneMoreStays` | kernel/fs/fat32.c:576-626 | Where the clusters of a file and one more stay in the volume, so does the extension of the directory after them. |
| `Fat32Order.FullVolumeLeaves` | kernel/fs/fat32.c:156-192 | A full volume with a free entry left in its table is not found full: the condition fails, for every hint and count. |
| `Fat32Driver.Driver.DeleteFile` | kernel/fs/fat32.c:751-806 | Succeeds exactly if the name exists; then it is gone, its slot differs only in its first byte and no other slot at all, every other name reads as before, and exactly its clusters are free again. No sector outside the tables and the data area changes. |
| `Fat32Driver.Driver.CreateThenDelete` | kernel/fs/fat32.c:628-806 | A write then delete, where the clusters stay in the volume, leaves every name as it was, restores the free set, less at most one cluster added to the root directory, and changes nothing around the volume. |
| `Fat32Driver.Driver.FindFreeCluster` | kernel/fs/fat32.c:156-192 | On any table, longer than the volume or not, and for every hint: the first free entry at or after the start of the scan, cyclically; 0 exactly when no entry from 2 up is free. |
| `Fat32Driver.Driver.ScanTable` | kernel/fs/fat32.c:156-192 | One pass of the scan with the loaded sector cached between entries. |
| `Fat32Driver.Driver.AllocClusterChain` | kernel/fs/fat32.c:198-227 | Takes the first free entries in cyclic order from the hint, as many as asked or as there are, and links them into one chain ending in end-of-chain; changes no other entry; fails exactly when there are too few; and all of them are clusters of the volume if and only if the condition of `StaysExactly` held before. |
| `Fat32Driver.Driver.FreeClusterChain` | kernel/fs/fat32.c:229-238 | Ends on every table whose pointers stay in it, cycles included, and zeroes exactly the reachable entries. |
| `Fat32Free.FreeStep` | kernel/fs/fat32.c:229-238 | The invariant and the measure of that loop: entries still to be zeroed. |
| `Fat32Free.TakeThenFree` | kernel/fs/fat32.c:198-238 | Freeing the clusters just taken gives the table back as it was. |
| `Fat32Chain.LinkedIsChain` | kernel/fs/fat32.c:198-227 | The clusters linked one by one form an acyclic chain of exactly them. |
| `Fat32Driver.Driver.FatNext` | kernel/fs/fat32.c:109-121 | The low 28 bits of a table entry. |
| `Fat32Driver.Driver.FatSet` | kernel/fs/fat32.c:127-149 | Entry `c` becomes the value in every copy of the table, reserved bits kept, whether or not the copies agreed before; no other entry, no cluster and no sector around the volume changes. |
| `Fat32Disk.StoredHolds` | kernel/fs/fat32.c:127-149 | Rewriting an entry in every copy is one update of the abstract table. |
| `Fat32Disk.StaysMirrored` | kernel/fs/fat32.c:123-149 | Copies of the table that agreed when the volume was mounted agree after every operation (the driver's validity keeps this entry by entry). |
| `Fat32Disk.ClusterStoredHolds` | kernel/fs/fat32.c:105-107 | Writing the sectors of a cluster is one update of the abstract volume. |
| `Fat32Driver.Driver.ReadCluster` | kernel/fs/fat32.c:105-107 | The sectors of a cluster, end to end, are its contents. |
| `Fat32Driver.Driver.WriteCluster` | kernel/fs/fat32.c:105-107 | Only that cluster changes, on the whole disk. |
| `Fat32Driver.Driver.ReadFile` | kernel/fs/fat32.c:410-454 | The file as far as the buffer goes; none exactly if unmounted or not found. The code is negative exactly then, and where 2 GiB or more were read. |
| `Fat32Driver.Driver.constructor` | kernel/fs/fat32.c:287-337 | Mounts the geometry the boot sector states, as the volume and the rest of the table that lie on the disk. |
| `Fat32Driver.Driver.ReadFileRange` | kernel/fs/fat32.c:459-527 | For every offset and length exactly that slice of the whole-file read, also when the chain ends before the recorded size; the code as for `ReadFile`. |
| `Fat32Access.PiecesRebuild` | kernel/fs/fat32.c:459-527 | Successive pieces put together are the file. |
| `Fat32Driver.Driver.WalkRoot` | kernel/fs/fat32.c:348-397 | The live entry of a name, found by walking the directory chain up to the end mark. |
| `Fat32Driver.Driver.FindExistingEntryLocation` | kernel/fs/fat32.c:533-570 | Where that entry is, if there is one. |
| `Fat32Dir.FindIff` | kernel/fs/fat32.c:348-397 | With unique names the walk finds slot `k` exactly if it is live, bears the name and no end mark precedes it. |
| `Fat32Driver.Driver.FindFreeSlot` | kernel/fs/fat32.c:576-626 | The first spare slot; a full directory is extended by one zeroed cluster, keeping every file; fails, changing nothing, exactly if that is needed and no cluster is free. |
| `Fat32Update.ExtendDirectory` | kernel/fs/fat32.c:576-626 | Extending the directory keeps the volume well formed and every file as it was. |
| `Fat32Update.PlaceEntry` | kernel/fs/fat32.c:628-749 | Filling a spare slot for an unowned chain keeps the volume well formed and adds exactly that file. |
| `Fat32Update.RemoveEntry` | kernel/fs/fat32.c:751-806 | Marking a slot deleted and freeing its chain keeps the volume well formed, removes exactly that file and changes no other slot. |
| `Fat32Create.NeededIsEnough` | kernel/fs/fat32.c:628-749 | The 32-bit cluster count wraps only to zero; otherwise it is the least that holds the data, and at least one. |
| `Fat32Driver.Driver.WriteChain` | kernel/fs/fat32.c:628-749 | The data lies along the chain, the last cluster zero-padded, and nothing else changes. |
| `Fat32Driver.Driver.AddEntry` | kernel/fs/fat32.c:628-749 | The entry of a new file is entered, extending the directory if needed. |
| `Fat32Dir.EntryFields` | kernel/fs/fat32.c:628-749 | Name, first cluster and size of a written entry read back, and every other byte is zero. |
| `Fat32Names.ToFat83` | kernel/fs/fat32.c:240-267 | The 8.3 form of a name: eight bytes before the first dot, three after, upper case, blank-padded. |
| `Fat32Names.CaseInsensitive` | kernel/fs/fat32.c:240-267 | Names that differ only in case have one stored form, whatever their length. |
| `Ext2Driver.Driver.WriteFile` | kernel/fs/ext2.c:573-658 | On a consistent one-group volume with a one-block root directory: whether it succeeds is decided by name, block need, free counts and directory slack; success enters an inode that reads as the data (or as nothing where the 32-bit block count wrapped), found by name exactly if that has at most 255 bytes. Mode, link count, size and sectors of the inode and the entry's kind are a regular file's, and the entry list is the old one with the entry in it. What the directory keeps of the name, its first length mod 256 bytes, then leads to the inode unless an earlier entry has it; every other file is unchanged. The volume stays consistent in every case. |
| `Ext2Driver.CreatedReads` | kernel/fs/ext2.c:573-658 | The new name leads to the data if and only if the name has at most 255 bytes and size + block size - 1 fits 32 bits. |
| `Ext2Alloc.WithSuperExactly` | kernel/fs/ext2.c:181-186 | Writing the superblock back stores its 90 bytes and zeroes the other 934 of its area; every other byte of the block stays. |
| `Ext2Alloc.WithSuperKeeps` | kernel/fs/ext2.c:181-186 | So it leaves the block alone if and only if the block held that superblock and zeros after it. |
| `Ext2Driver.Driver.AllocFromBitmap` | kernel/fs/ext2.c:191-217 | Takes a clear bit among the first `total_bits`; none exactly if the count of clear bits is zero; no other bit changes. |
| `Ext2Bits.FirstClear` | kernel/fs/ext2.c:197-215 | The first clear bit, in a scan that passes over full bytes. |
| `Ext2Bits.ClearBitsSet` | kernel/fs/ext2.c:207-212 | Setting a clear bit takes exactly one off the count of clear bits. |
| `Ext2Driver.Driver.AllocBlock` | kernel/fs/ext2.c:225-257 | Takes and zeroes a free block and lowers both counts; fails, changing nothing, exactly if none is free. |
| `Ext2Driver.Driver.AllocInode` | kernel/fs/ext2.c:261-284 | The same for an inode. |
| `Ext2Alloc.BlockTakenKeeps` | kernel/fs/ext2.c:225-257 | Taking a block keeps bitmap, counts, directory, inodes and file blocks in agreement; the block was free and now is not. |
| `Ext2Alloc.InodeTakenKeeps` | kernel/fs/ext2.c:261-284 | The same for an inode. |
| `Ext2Driver.Driver.ReadInode` | kernel/fs/ext2.c:119-145 | The 128 bytes of inode `n`, of any group, from the table the group's descriptor points to; none for inode 0 and where the disk ends before; in the first group, the inode the volume's meaning gives. |
| `Ext2Driver.FirstGroup` | kernel/fs/ext2.c:119-145 | Group, descriptor, block and offset arithmetic come to the inode table of the volume. |
| `Ext2Driver.Driver.WriteInode` | kernel/fs/ext2.c:286-304 | Stores inode `n`; refused outside the first group. |
| `Ext2Volume.InodeStoredReads` | kernel/fs/ext2.c:286-304 | A stored inode reads back and every other inode is as before. |
| `Ext2Volume.PlaceIs` | kernel/fs/ext2.c:295-297 | The block and offset arithmetic lays inodes one after another without crossing blocks. |
| `Ext2Dirents.InsertTheorem` | kernel/fs/ext2.c:314-372 | On a block its records fill exactly, inserting a new name of any length leaves records that fill it exactly and the other entries, kinds included, as they were. The name is found if and only if it has at most 255 bytes; what is kept of it leads to the inode unless an earlier entry has that name; every other name leads where it did. |
| `Ext2Dirents.LongNameShadows` | kernel/fs/ext2.c:353-363 | The case is real: a name of 257 bytes starting with A takes the name A away from another file. |
| `Ext2Dirents.InsertList` | kernel/fs/ext2.c:314-372 | The entry list afterwards is the old one with the new entry after the record that was split. |
| `Ext2Dirents.Insert` | kernel/fs/ext2.c:331-371 | Splits the first record with the slack the 16-bit length asks for; none exactly if no record has it. |
| `Ext2Driver.Driver.InsertDirent` | kernel/fs/ext2.c:314-372 | The same on the root directory block, which alone changes. |
| `Ext2Dirents.Find` | kernel/fs/ext2.c:461-483 | The walk over any bytes, stopping at a zero record length. |
| `Ext2Dirents.SearchIsLookup` | kernel/fs/ext2.c:453-484 | On a block its records fill, that walk is a lookup in the entry list. |
| `Ext2Driver.Driver.FindInRoot` | kernel/fs/ext2.c:453-484 | The inode the directory lists for a name. |
| `Ext2File.ReadInodeDataAt` | kernel/fs/ext2.c:377-443 | The bytes at an offset through direct and singly-indirect blocks, up to the first block that is not there. |
| `Ext2Ranges.RangesAreSlices` | kernel/fs/ext2.c:377-451 | Every ranged read is the matching slice of the whole file if and only if no missing block has a present one after it. |
| `Ext2Driver.Driver.ReadFile` | kernel/fs/ext2.c:523-545 | As much of a file as the buffer takes; the code is the number of bytes, -1 exactly if unmounted or not found, and never negative otherwise. |
| `Ext2Driver.Driver.ReadFileRange` | kernel/fs/ext2.c:548-571 | A range of a file: the slice of its content where it has no gap; the code as for `ReadFile`. |
| `Ext2Create.KeptFiles` | kernel/fs/ext2.c:573-658 | What keeps file blocks, directory and inodes in use keeps every name and every content. |
| `Ext2Create.ChunksRead` | kernel/fs/ext2.c:608-632 | Blocks that hold the data cut into chunks read back as the data. |
| `Ext2Create.Linked` | kernel/fs/ext2.c:646-651 | Entering a sound inode keeps the volume consistent and every file but the name that is kept. |
| `DynlinkReloc.RelocationMeaning` | kernel/rust/dynlink.rs:701-733 | When relocation returns OK every byte of memory is what the last relocation to touch it prescribes, `.rel.dyn` before `.rel.plt`, untouched bytes are as before, and running it again with the same resolver changes nothing. |
| `DynlinkReloc.EntryFollowsAbi` | kernel/rust/dynlink.rs:556-683 | An entry stores a word exactly if its kind stores one, its addend is in the file and its symbol has a value; the word is the ABI's B+A, S+A, S+A-P or S modulo 2^32, at place B plus offset. S is given by its meaning (`Denotes`), not by how it is resolved. |
| `DynlinkReloc.RunReports` | kernel/rust/dynlink.rs:576-683 | The pass succeeds exactly if no entry fails; otherwise it returns the code of the first that does, having done exactly the stores before it. |
| `DynlinkReloc.RunTwice` | kernel/rust/dynlink.rs:556-683 | Running a list of stores again leaves memory as it is. |
| `DynlinkReloc.LastDecides` | kernel/rust/dynlink.rs:676-679 | The last store to touch a byte decides it. |
| `DynlinkReloc.ActionCodes` | kernel/rust/dynlink.rs:184-189 | Every failure has a code other than OK. |
| `DynlinkLoader.AddressSpace.ApplyRelocations` | kernel/rust/dynlink.rs:701-733 | Memory and return code are those of running both tables' actions in order. |
| `DynlinkLoader.AddressSpace.ApplyRelTable` | kernel/rust/dynlink.rs:556-683 | The same for one table. |
| `DynlinkLoader.AddressSpace.Relocate` | kernel/rust/dynlink.rs:585-680 | One entry: skip, store, or fail with its code. |
| `DynlinkLoader.AddressSpace.ResolveSymbol` | kernel/rust/dynlink.rs:614-659 | The value of a symbol: local, resolved, zero for an unresolved weak one, else an error. |
| `DynlinkLoader.AddressSpace.RelocateTwice` | kernel/rust/dynlink.rs:701-733 | A second pass succeeds and changes nothing. |
| `DynlinkImage.ParseDynamic` | kernel/rust/dynlink.rs:287-376 | The dynamic section as its entries before the first null say: the last value of each tag, the first 16 needed names, tables located through the segments. |
| `DynlinkImage.GatherNext` | kernel/rust/dynlink.rs:305-333 | Each entry scanned keeps the collected values those of the entries so far. |
| `DynlinkImage.VaddrToOffset` | kernel/rust/dynlink.rs:225-234 | The file offset of an address. |
| `DynlinkImage.OffsetIsFirst` | kernel/rust/dynlink.rs:225-234 | It is that of the first covering segment, and there is none exactly if no segment covers the address. |
| `DynlinkImage.ReadStr` | kernel/rust/dynlink.rs:382-396 | The string at a table offset, if it ends in time. |
| `DynlinkImage.CStringIs` | kernel/rust/dynlink.rs:382-396 | A string is read exactly if it ends within 64 bytes and within the file, and is then the bytes before its end. |
| `DynlinkImage.FindSymbol` | kernel/rust/dynlink.rs:486-543 | The address of the first defined, non-local symbol of that name; zero if there is none before an unreadable one, or the image cannot be parsed. |
| `Tftp.PrefixOfFile` | kernel/net/tftp.c:78-148 | Under any loss, duplication and reordering of data packets with true content, for files of at most 65536 blocks, the buffer is always a prefix of the file and a non-negative return means it is exactly the file. |
| `Tftp.ExactBound` | kernel/net/tftp.c:124-142 | For a large enough buffer that holds on every such schedule if and only if the file has at most 65536 blocks. |
| `Tftp.LateCopy` | kernel/net/tftp.c:124-139 | For every longer file a schedule on which a late copy of an earlier block is taken for the last one. |
| `Tftp.ExactAcks` | kernel/net/tftp.c:133-146 | Every acknowledgement is for a block that was taken, on every schedule, if and only if the file has at most 65535 blocks. |
| `Tftp.AcksAreEarned` | kernel/net/tftp.c:133-146 | The half of it over all schedules. |
| `Tftp.Get` | kernel/net/tftp.c:62-149 | The loop over any arrivals fills the buffer, returns and acknowledges as the specified client does, and writes nothing past what it received. |
| `Tftp.Receive` | kernel/net/tftp.c:102-147 | One datagram. |
| `GrowTables.AddressesNeverChange` | kernel/rust/growtable.rs:293-310 | Over any sequence of create and grow calls, with an allocator that answers null or a disjoint block, the address of an element that exists never changes. |
| `GrowTables.ElementsNeverOverlap` | kernel/rust/growtable.rs:293-310 | After any such run different elements, of one table or of two, occupy disjoint bytes. |
| `GrowTables.NewElementsAreZero` | kernel/rust/growtable.rs:260-281 | Elements a growth adds read as zero; every element there was reads as it did. |
| `GrowTables.RunKeeps` | kernel/rust/growtable.rs:195-281 | Every run keeps all chunks disjoint and only appends chunks. |
| `GrowTable.FitsExactly` | kernel/rust/growtable.rs:267-279 | Every element lies inside its chunk if and only if element size times slots per chunk fits 32 bits. |
| `GrowTable.CapacityIsExact` | kernel/rust/growtable.rs:225-230 | Disjoint chunks fit the address space, so the 32-bit capacity does not wrap. |
| `GrowTable.GrowAppends` | kernel/rust/growtable.rs:260-281 | Growing only appends chunks, the answers of the allocator in order; it succeeds exactly if the capacity suffices afterwards and keeps what it gained otherwise. |
| `GrowTables.Tables.CreateTable` | kernel/rust/growtable.rs:195-219 | Claims an unused table with the given sizes and no chunk, and touches no other; refused exactly for a zero size or more than 64 chunks, or when all are used. |
| `GrowTables.Tables.EnsureCapacity` | kernel/rust/growtable.rs:260-281 | The growth loop. |
| `GrowTables.Tables.SlotPtr` | kernel/rust/growtable.rs:293-310 | The address of an element, null outside the capacity. |
| `GrowTables.Tables.CapacityOf` | kernel/rust/growtable.rs:225-230 | The capacity of a table, 0 for an invalid handle. |
| `CrashRecord.EncodeRecord` | kernel/rust/crashdump.rs:435-475 | The record holds every field of the crash, and is reported exactly if it was marked pending. |
| `CrashRecord.RoundTrip` | kernel/rust/crashdump.rs:435-554 | Decoding gives every field back, the reason cut to 63 bytes and the stack to 8 frames. |
| `CrashRecord.OneByteUnreported` | kernel/rust/crashdump.rs:493-554 | A reported record with any one of its 196 bytes changed is not reported. |
| `CrashChecksum.OneByteChanges` | kernel/rust/crashdump.rs:224-237 | Changing one byte of the input always changes the checksum. |
| `CrashChecksum.MixInjective` | kernel/rust/crashdump.rs:224-230 | An FNV-1a step forgets neither the state nor the byte. |
| `CrashChecksum.FoldBytes` | kernel/rust/crashdump.rs:224-230 | The fold computed in place. |
| `CrashRecord.CrashRegion.ReadAndDecode` | kernel/rust/crashdump.rs:493-554 | Return code and report as the record says; a successful rewrite clears the pending mark and nothing from the checksum on. |
| `CrashRecord.CrashRegion.Save` | kernel/rust/crashdump.rs:480-484 | The sector written holds the crash and will be reported. |
| `CrashRecord.CrashRegion.SaveAndReportTwice` | kernel/rust/crashdump.rs:493-554 | A saved crash is reported in full, and a second read reports nothing if the rewrite succeeded. |
| `InstallerLayout.CalculateLayout` | kernel/rust/disk_installer.rs:319-378 | The layout in saturating arithmetic. |
| `InstallerLayout.PlanIsSound` | kernel/rust/disk_installer.rs:319-378 | If the exact sum of the sizes fits 32 bits, a layout is made exactly if the disk is large enough, and its partitions are aligned to 1 MiB, of the sizes asked for, one right after the other from 1 MiB on, and on the disk. |
| `InstallerLayout.ChainSaturates` | kernel/rust/disk_installer.rs:331-340 | If it does not, some partition ends past the last 32-bit sector. |
| `InstallerLayout.EveryClusterHasAnEntry` | kernel/rust/disk_installer.rs:355-363 | For every partition size the FAT has an entry for every cluster and the two reserved ones, in the least number of sectors that holds an entry for every eight sectors of the partition. |
| `InstallerMbr.SynthesizeMbr` | kernel/rust/disk_installer.rs:381-470 | The sector starts with the boot code, and carries the signature and an entry for each partition. |
| `InstallerMbr.VerifyMbrTable` | kernel/rust/disk_installer.rs:732-786 | Accepts exactly signed tables of four plausible entries in order, and returns them. |
| `InstallerMbr.ReadTable` | kernel/fs/partition.c:122-170 | The plausible entries of a signed sector, in order; behind a protective first entry what the GPT gives, or the plain entries if it gives nothing. |
| `InstallerMbr.InstalledTableReads` | kernel/fs/partition.c:31-49 | The written table is accepted by the installer's check if and only if the exact sum of sizes fits 32 bits; then the kernel's reader finds exactly the planned partitions. |
| `InstallerMbr.ChsRoundTrip` | kernel/rust/disk_installer.rs:307-316 | The BIOS address of a sector names that sector, or the last one nameable. |
| `InstallerBoot.InstalledVolumeMounts` | kernel/rust/disk_installer.rs:889-917 | The driver mounts the installed boot sector with the tables where the installer wrote them and cluster 2 where it wrote the root directory. |
| `InstallerBoot.InstalledClusters` | kernel/fs/fat32.c:105-107 | Every cluster of an installed volume has a table entry and lies in its partition, after the tables. |
| `InstallerBoot.InstalledGeometry` | kernel/rust/disk_installer.rs:352-363 | The driver can work on an installed volume if and only if it has a cluster and its table fits the 28-bit range of chain pointers. |
| `InstallerBoot.TableOutrunsPartition` | kernel/rust/disk_installer.rs:352-363 | For every partition size the table has entries past that of the last cluster, and what each of them stands for ends outside the partition. |
| `InstallerBoot.DefaultPartition` | kernel/rust/disk_installer.rs:352-363 | At 64 MiB: 16512 entries for 16347 clusters; the first bad entry is 16349. |
| `InstallerFormat.FormatFat32` | kernel/rust/disk_installer.rs:859-928 | Every sector of the partition after formatting; those not written are as before. |
| `InstallerFormat.FreshIsEmpty` | kernel/rust/disk_installer.rs:859-928 | Whatever the disk held, the formatted volume is well formed and has no file. |
| `InstallerFormat.FreshIsFree` | kernel/rust/disk_installer.rs:859-928 | All clusters but the root directory's are free, and the free count the information sector holds true, if and only if the entries past the first eight sectors of the table were zero before. |
| `InstallerFormat.FreshIsMirrored` | kernel/rust/disk_installer.rs:859-928 | The two copies of the table agree if and only if they did past their first eight sectors. |
| `InstallerFormat.InstallAndMount` | kernel/rust/disk_installer.rs:859-928 | The driver mounts every formatted partition as a well-formed volume without files; where the table was clear, all clusters but the root directory's are free and can all be taken without leaving the volume. |
| `FirewallAccepts.RefusedExactly` | kernel/rust/firewall.rs:818-863 | As an if and only if over state, side and flag class: the segments the TCP table refuses. An ACK, a FIN or a reset of either end never is, from the answer to the SYN on. |
| `FirewallAccepts.ClassByFlags` | kernel/rust/firewall.rs:797-816 | Each flag class by the flags that are set. |
| `FirewallAccepts.AcceptedExactly` | kernel/rust/firewall.rs:1506-1575 | For every configuration, state and packet: it is accepted if and only if it is well formed and not invalid, the first rule that matches it, or else the policy, says so, and where it starts a flow there is room for it and, for an inbound TCP flow, fewer than 64 are half-open. |
| `FirewallAccepts.ReasonsExactly` | kernel/rust/firewall.rs:1506-1575 | Which reason a verdict gives, for each of them exactly when. |
| `FirewallAccepts.LogWanted` | kernel/rust/firewall.rs:1506-1575 | A log line is wanted exactly for drops other than by rule or policy, and where the deciding rule asks for one. |
| `FirewallAccepts.FlowTakes` | kernel/rust/firewall.rs:770-785 | Which packets belong to the flow a packet opened: those between the same ends, in its direction or back; echoes by their identifier. |
| `FirewallAccepts.BaselineAccepts` | kernel/rust/firewall.rs:1506-1575 | The verdict of the baseline rules as an if and only if over the class of a packet. |
| `FirewallAccepts.TcpOnFlow` | kernel/rust/firewall.rs:1258-1344 | Under the baseline a segment on a live flow passes if and only if it can happen there and, inbound, comes from the other end or after that has answered; and the state it leads to. |
| `FirewallAccepts.TcpWithoutFlow` | kernel/rust/firewall.rs:1258-1344 | Without a flow exactly an outbound SYN passes, if there is room. |
| `FirewallAccepts.UdpOnFlow` | kernel/rust/firewall.rs:1258-1344 | When a datagram on a live flow passes, as an if and only if. |
| `FirewallAccepts.UdpWithoutFlow` | kernel/rust/firewall.rs:1258-1344 | When one without a flow passes: outbound, or expected, with room for it. |
| `FirewallAccepts.EchoRequest` | kernel/rust/firewall.rs:1300-1321 | When an echo request passes, as an if and only if. |
| `FirewallAccepts.EchoReply` | kernel/rust/firewall.rs:1312-1321 | An echo reply passes if and only if a request on its flow awaits one. |
| `FirewallAccepts.IcmpError` | kernel/rust/firewall.rs:1322-1344 | An ICMP error (RFC 792: unreachable, source quench, redirect, time exceeded, parameter problem) passes if and only if it quotes a live flow. |
| `FirewallAccepts.NothingElse` | kernel/rust/firewall.rs:1258-1344 | No other packet passes under the baseline. |
| `FirewallAccepts.ExpectationAdded` | kernel/rust/firewall.rs:1397-1413 | A new expectation replaces the same one, or one that does not count, or else the first; no other changes. |
| `FirewallAccepts.RequestIsAwaited` | kernel/rust/firewall.rs:1397-1413 | After an accepted TFTP request, an answer from the server to the port it came from is awaited, from any port, until the expectation runs out. |
| `FirewallAccepts.ExpectationIsSpent` | kernel/rust/firewall.rs:1249-1256 | An accepted datagram spends the expectation it meets, and no other. |
| `FirewallHistory.FlowIsItsHistory` | kernel/rust/firewall.rs:1361-1485 | The converse of `TcpStatesAreEarned`, in every run, whatever the rules, the clock and the administration: a tracked flow is the history of the packets let through since it started. Its TCP state, who sent the first FIN, packets and bytes of each end, whether the other end has answered, unanswered echoes and deadline are each a closed form of that history. |
| `FirewallConnections.StoryIsComplete` | kernel/rust/firewall.rs:1258-1485 | In every run at whose packets each slot that has run out looks so, that history is everything that passed on the tuple of a live TCP or UDP flow since the packet that started it. |
| `FirewallConnections.StateIsDecided` | kernel/rust/firewall.rs:818-863 | So the state of a live connection is the one the segments that passed since its SYN lead to. |
| `FirewallHandshake.HandshakePasses` | kernel/rust/firewall.rs:1258-1485 | In every run under the baseline: an outbound SYN, its SYN-ACK and the ACK, each within 60 seconds of the one before, are let through, and the connection is established for an hour. |
| `FirewallHandshake.AcknowledgementsPass` | kernel/rust/firewall.rs:818-863 | From the answer to its SYN on, every ACK of a connection, from either end, passes, unless its time ran out, a SYN reopened it after it was finished, or all flows were flushed in between. |
| `FirewallHandshake.ConnectionCanBeUsed` | kernel/rust/firewall.rs:1506-1575 | Both together: after such a handshake every ACK passes, with the same three exceptions. |
| `FirewallRules.MatchesExactly` | kernel/rust/firewall.rs:361-385 | A stored rule matches a packet if and only if the rule as written asks for it: direction, protocol, address prefixes, port ranges, ICMP type, states. |
| `FirewallRules.PrefixMatches` | kernel/rust/firewall.rs:453-465 | Masked comparison is agreement of the first bits of the addresses. |
| `FirewallAdmin.AddedRuleDecides` | kernel/rust/firewall.rs:1068-1091 | A rule that was added decides what the rules before it leave open, before those after it. |
| `FirewallAdmin.DeletedRuleIsGone` | kernel/rust/firewall.rs:1101-1119 | After deleting a rule every verdict is the one the list without it gives. |
| `FirewallAdmin.CountersMove` | kernel/rust/firewall.rs:1068-1091 | The hit counts stay with their rules; the new one starts at zero. |
| `FirewallAdmin.LoadedConfigDecides` | kernel/rust/firewall.rs:1058-1066 | A loaded configuration decides every packet, with its hit counts at zero. |
| `FirewallAdmin.PolicyDecides` | kernel/rust/firewall.rs:1132-1142 | A policy decides exactly the packets of its direction that no rule matches. |
| `FirewallAdmin.SwitchedOff` | kernel/rust/firewall.rs:1144-1152 | Switched off, everything passes and nothing is tracked or counted; switched on again it decides as before. |
| `FirewallAdmin.RefusalsExactly` | kernel/rust/firewall.rs:1052-1157 | Which administration is refused with which error, each exactly: what a lock forbids, a bad position or direction, a full rule list, a bad configuration. A refusal changes nothing. |
| `FirewallAdmin.CountersMoveBack` | kernel/rust/firewall.rs:1101-1119 | After a deletion the hit counts still belong to their rules. |
| `FirewallAdmin.FlushedRulesDecideNothing` | kernel/rust/firewall.rs:1121-1130 | Without rules the policies decide. |
| `FirewallAdmin.NothingTracked` | kernel/rust/firewall.rs:1154-1157 | Flushing the flows leaves none and no expectation, and the rest as it was. |
| `FirewallCounts.ShownIs` | kernel/rust/firewall.rs:1486-1500 | A 32-bit counter shows the count modulo 2^32. |
| `FirewallCounts.CountersAreTrue` | kernel/rust/firewall.rs:1486-1500 | Over every run from any state each counter (verdicts by direction, drops by reason, new and related flows, hits and bytes of a rule, log lines wanted and written) grows, in 32 bits, by exactly the packets or bytes of its sort. |
| `FirewallCounts.CountedOnce` | kernel/rust/firewall.rs:1506-1620 | Every filtered packet is counted once, as accepted or dropped, in or out. |
| `FirewallCounts.LogIsLimited` | kernel/rust/firewall.rs:1487-1500 | Of the log lines wanted in a run the first 32 are written and then one in 256. |
| `FirewallAccepts.StateSeen` | kernel/rust/firewall.rs:1346-1359 | Which connection state the rules see and the verdict reports, each exactly. |
| `FirewallAccepts.DetailsExactly` | kernel/rust/firewall.rs:1258-1344 | What is reported wrong with an invalid packet, and when. |
| `FirewallAccepts.ExpectationsChange` | kernel/rust/firewall.rs:1415-1485 | Only an accepted outbound TFTP request adds an expectation, and only a datagram that meets one takes it away. |
| `Fat32Names.StoredBytes` | kernel/fs/fat32.c:240-267 | Bytes 0 to 7 of the stored form from the stem and bytes 8 to 10 from the extension, directly. |
| `Fat32Names.FromFat83` | kernel/fs/fat32.c:269-285 | The listed name of a stored form, computed by the driver's loops. |
| `Fat32Names.ReadsBack` | kernel/fs/fat32.c:269-285 | Listing the stored form of a name gives the upper-cased name back if and only if the stem has at most 8 bytes, an extension has 1 to 3, and none is a blank. |
| `Fat32Names.StoredAlike` | kernel/fs/fat32.c:240-267 | Two such names have one stored form if and only if they differ only in case. |
| `Fat32Names.UpperTells` | kernel/fs/fat32.c:240-254 | Two letters have one upper case if and only if they differ only in case. |
| `Fat32Dir.FindExactly` | kernel/fs/fat32.c:348-397 | In any directory, well formed or not, the walk finds slot `k` if and only if it is the first live one with the name and no end mark comes before it. |
| `Fat32Dir.SlotMeaning` | kernel/fs/fat32.c:533-570 | The fields of a 32-byte slot, and exactly when it is live: not free, deleted, part of a long name, or with the volume bit. |
| `Fat32Disk.MountsExactly` | kernel/fs/fat32.c:303-337 | From the bytes of the boot parameter block: which volumes are mounted, exactly, and with what geometry. |
| `Ext2Stored.StoredReads` | kernel/fs/ext2.c:377-443 | From the bytes of inode and indirect block: if the inode holds the first 12 block numbers and an indirect block the rest in order, with the chunks of the data on those blocks, every read of the inode gives the matching bytes of the data, up to 12 + block size / 4 blocks. |
| `Ext2Stored.ReadStored` | kernel/fs/ext2.c:377-443 | The driver's read loop on such an inode. |
| `Ext2Stored.StoredContent` | kernel/fs/ext2.c:377-443 | On a volume: the content of such an inode is the data, and ranged reads are its slices. |
| `Ext2Dirents.RecordIsItsEntry` | kernel/fs/ext2.c:314-372 | The bytes of a directory record are those of its inode, length, name length, kind and name. |
| `Ext2Dirents.RoomIsFirst` | kernel/fs/ext2.c:331-371 | No record before the one that is split has the room. |
| `Ext2Dirents.FootprintIsLeast` | kernel/fs/ext2.c:314-330 | The least multiple of four that holds header and name. |
| `Ext2Driver.SectorsFit` | kernel/fs/ext2.c:606-606 | The 512-byte sectors recorded are those of the blocks taken; the product does not wrap. |
| `Ext2Create.NewInodeHead` | kernel/fs/ext2.c:601-606 | The inode of a new file: regular with mode 0644, its size, one link, its sectors, and zeros. |
| `DynlinkReloc.SymbolMeaning` | kernel/rust/dynlink.rs:614-659 | S by its meaning, as an if and only if: B plus st_value modulo 2^32 for a symbol the image defines; for another what the resolver says of the bytes of its name, zero only if it is weak. |
| `DynlinkReloc.OwnSymbol` | kernel/rust/dynlink.rs:486-543 | For the first symbol the image exports under a name, S is the address `FindSymbol` finds for the name. |
| `DynlinkReloc.EntryFailures` | kernel/rust/dynlink.rs:556-683 | Which entries fail with which code, each exactly. |
| `DynlinkFormat.SymbolLayout` | kernel/rust/dynlink.rs:382-396 | The bytes of a symbol table entry. |
| `DynlinkFormat.DynMeaning` | kernel/rust/dynlink.rs:287-376 | From the bytes of the dynamic section: where each table is, its size and the number of symbols. |
| `DynlinkFormat.ValuesInOrder` | kernel/rust/dynlink.rs:287-376 | The values of a tag are listed in the order of the entries. |
| `DynlinkFormat.NeededMeaning` | kernel/rust/dynlink.rs:287-376 | The libraries asked for are the first sixteen, in order. |
| `DynlinkFormat.EveryEntryIsDone` | kernel/rust/dynlink.rs:685-733 | When relocation succeeds, every entry of the two tables in the file that stores has its word in memory, as the ABI prescribes it from the bytes of the file, unless a later entry writes over it. |
| `TftpProgress.TransferSucceeds` | kernel/net/tftp.c:78-148 | Progress: on every honest schedule without deadline and error packet whose data packets contain blocks 1 to the last as a subsequence in order, with a buffer that is large enough and at most 65536 blocks, the result is the size of the file and the buffer is the file. |
| `TftpProgress.FailsExactly` | kernel/net/tftp.c:78-148 | A transfer to a buffer that is large enough fails if and only if the deadline passes or an error packet comes while it is going on. |
| `TftpProgress.TakenIsAcknowledged` | kernel/net/tftp.c:128-147 | Every block taken has been acknowledged. |
| `TftpProgress.AnswersRight` | kernel/net/tftp.c:128-147 | A data packet is acknowledged if and only if it brings the next block or the last one taken. |
| `GrowTable.GrowsAsFar` | kernel/rust/growtable.rs:260-281 | A chunk is added only while the capacity does not suffice; growth gives up only at the limit of chunks or at a null answer. |
| `GrowTables.GrowthSucceeds` | kernel/rust/growtable.rs:260-310 | Where the allocator has memory, growth succeeds if and only if the elements asked for fit the limit of chunks. |
| `CrashChecksum.PublishedValue` | kernel/rust/crashdump.rs:224-240 | The checksum of the one-byte message "a" is the published one of FNV-1a. |
| `InstallerLayout.SizesAre` | kernel/rust/disk_installer.rs:319-335 | What is asked for is planned; what is not gets 64, 32, 4 and 1 MiB. |
| `InstallerLayout.DefaultPlan` | kernel/rust/disk_installer.rs:319-378 | The whole layout when nothing is asked for. |
| `InstallerMbr.KindsOfPartitions` | kernel/rust/disk_installer.rs:381-470 | Exactly the first partition can be booted from and is FAT32; the others are Linux's. |
| `InstallerMbr.FoundExactly` | kernel/fs/partition.c:31-49 | The kernel lists exactly the entries with a type, a start and a length whose end is a 32-bit sector, in order. |
| `InstallerMbr.ReaderExactly` | kernel/fs/partition.c:122-170 | From the bytes of the sector: nothing if it is unsigned, what the GPT lists behind a protective first entry, and otherwise those entries. |
| `InstallerBoot.BootSectorIs` | kernel/rust/disk_installer.rs:473-519 | Every byte of the boot sector, its parameters as the driver's parameter block. |
| `InstallerFormat.FsInfoIs` | kernel/rust/disk_installer.rs:521-550 | The signatures, the free count and the hint of the information sector. |

## Left out

- Firewall packet and rule text parsing (`parse_packet`, `parse_rule`, `parse_config`): packets arrive parsed, and `Init` and `ApplyConfig` take the parsed configuration.
- Firewall introspection (`active_conns`, `conn_nth`, `rule_at` and the C entry points around them): easy members.
- The map refinement and the survival of live flows need a clock that does not go back; the other firewall results have no hypothesis on time.
- The half-open cap of 64 is not stated as a bound over runs: it is tested for new flows only, not for a SYN that reopens a finished one.
- FAT32 journal internals: journal reads and writes are reads and writes that succeed, and device errors do not occur.
- Fat32Driver.Driver.WriteFile: states nothing where the clusters it needs would leave the volume, because the data then lies outside it; `AllocClusterChain` states which entries are taken there too. The same holds for `CreateThenDelete`, and for `AddEntry` and `FindFreeSlot` where the directory is full.
- FAT32 tables of more than 0x0FFFFFF8 entries: their last indices would read as end-of-chain marks.
- FAT32 mounting: the number of clusters is a parameter, since the driver computes none.
- FAT32 listing (`fat32_list_root`): an easy member; `from_fat_8_3` is modelled.
- ext2 volumes of several groups and root directories of several blocks: allocation works in the first group and insertion in the first block, and the consistency predicate says so; `ReadInode` covers every group.
- ext2 mounting (`ext2_init`) and device errors: the driver starts on a mounted volume, and blocks on the disk can be read and written.
- ext2 names so long that the 16-bit record length wraps (from 65525 bytes on), where a record has the room for the wrapped length: the name would be copied past the end of the block. `Insert`, `InsertDirent` and `WriteFile` cover such names where no record has it.
- Dynamic linker callbacks: the resolver is a function of the name, and memory refuses a word exactly if it is not all mapped; `rust_dynlink_get_needed` copies names that `ReadStr` reads.
- TFTP request sending, timing and polling: each turn of the loop meets the deadline, nothing, or a datagram.
- TFTP buffers within 600 bytes of 4 GiB: the 32-bit sum in the size test would wrap.
- Growable tables' locking and `kmalloc` itself: the allocator's answers are inputs.
- Crash dump stack walking, export files and region configuration: they read memory and files outside the record.
- Installer device errors, ext2 formatting, journal and crash regions: the model covers the layout, the MBR and formatting the FAT32 partition.
- GPT parsing in `partition.c`: what it finds is a parameter of `ReadTable`.
- Block drivers, schedulers, the TCP/UDP stacks, cryptography and the shell: not part of this model.
