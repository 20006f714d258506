# Dafny model of a vhost-user server and of QEMU's memory, migration and block core

This project models the parts of the repository whose correctness rests on an invariant over many
steps, and proves those invariants and what follows from them.  Each module follows one component.

* `Radix`, `PhysPageMap`, `AddressDispatch`: the six-level radix tree from guest pages to sections,
  its path compression, subpages, and a whole address space update (exec.c).
* `RamList`: the list of RAM blocks, gap search and the most recently used shortcut (exec.c).
* `KvmSlots`, `KvmIrqRouting`: KVM memory slots as a map, and GSI and MSI routes (kvm-all.c).
* `BlockMigration`, `BlockMigrationOvertaking`, `BlockMigrationStream`: live block migration as a
  protocol over all interleavings, when it goes wrong, and the code that drives it
  (block-migration.c).
* `TrackedRequests`, `Multiwrite`, `ByteIo`: isolation of copy-on-read requests, merging of write
  requests, byte I/O on sectors (block.c).
* `Xbzrle`, `RamStream`: delta encoding of pages, and the byte stream of RAM migration (xbzrle.c,
  arch_init.c).
* `RamScan`, `RamPages`, `RamMigration`: the circular dirty scan, what is sent for a page and what
  the cache then holds, and convergence of the whole (arch_init.c, page_cache.c).
* `Dump`: the layout of a memory dump, written by two independent walks (dump.c,
  memory_mapping.c).
* `Tlb`: large-page tracking of the software TLB, over 64-bit words (cputlb.c).
* `Virtqueue`: the consumer of a split virtqueue, after section 2.4 of the VIRTIO 1.0 specification
  (vhost_user.c, vring.h).
* `Arithmetic`, `Octets`, `Bytes`, `Wrappers`: types and facts shared by the others.

State that the C code updates in place is a class with the same fields; what a method is proved
against is a function or predicate on values, so that the properties over whole runs are lemmas
about those values.  Pages, sectors and addresses are unbounded numbers unless a width matters:
16-bit ring indices, 32-bit length sums, 64-bit subtraction, 64-bit words and 16- and 32-bit header
counts are written out.

Some properties that one would expect turn out not to hold of the code.  Each is kept as the code has
it, with an input that shows it and the condition under which the property does hold.

* A re-read can overtake a bulk read of block migration, because bulk reads are not marked in
  flight (`BlockMigration.BulkReadOvertaken`).  Runs without that converge
  (`BlockMigration.Converges`), and wherever it can happen the disks can end up different
  (`BlockMigrationOvertaking.OvertakingDiverges`).
* A nested write request cuts off the end of the request it joins (`Multiwrite.NestedIsLost`).  What
  the sorted array must look like for the merge to be faithful is in `Multiwrite.MergeExact`.
* A RAM page that is sent as zero leaves its older copy in the delta cache
  (`RamMigration.StaleCopyLost`, `RamPages.StaleExactly`), and the RAM scan drops the very last page
  when it is dirtied again right after the first pass has sent it and nothing else is dirty
  (`RamMigration.LastPageLost`).  Which pages arrive in the end, and that only these two things keep
  a page from arriving, is in `RamMigration.RamState.SaveComplete`.
* Releasing a virq with several routes can leave some of them (`KvmIrqRouting.LinesReleased`, and
  exactly when in `KvmIrqRouting.ReleaseExactly`); adding a line to a GSI with an MSI route breaks
  the routing invariant (`KvmIrqRouting.LineOnMsiRoute`, and exactly when in
  `KvmIrqRouting.IrqState.AddIrqRoute`).  These are properties of the exported functions: the
  callers outside kvm-all.c add lines only at set-up and release only virqs of
  `kvm_irqchip_add_msi_route`, for which `KvmIrqRouting.IrqState.ReleaseMsiRoute` holds.
* The search for overlapping KVM slots misses slots and ranges that end at 2^64
  (`KvmSlots.LastPageHidden`, `KvmSlots.WrapHides`).  The whole call is still the map update exactly
  when no live slot is overlapped unseen (`KvmSlots.KvmState.Replace`).
* The clamped length of an access can run past the end of its region (`AddressDispatch.NotCut`, and
  exactly when in `AddressDispatch.Dispatch.Translate`).

## Model

| member | source | states |
|---|---|---|
| PhysPageMap.PhysMap.Reserve | qemu_vhost_user/exec.c:146-153 | capacity for `n` more nodes afterwards, and no reallocation when it was already there |
| PhysPageMap.PhysMap.AllocNode | qemu_vhost_user/exec.c:155-168 | a fresh node of empty entries at the end of the node array, within the reserved capacity |
| PhysPageMap.PhysMap.EnsureNode | qemu_vhost_user/exec.c:176-189 | the entry has a node of the right level and base, and no page resolves differently for it |
| PhysPageMap.PhysMap.SlotEntry | qemu_vhost_user/exec.c:192-201 | what becomes of one slot, a leaf or a filled subtree: every page under it resolves to the leaf inside the range and as before outside it |
| PhysPageMap.PhysMap.SetSlot | qemu_vhost_user/exec.c:192-201 | one slot of a level maps exactly the part of the range that falls in it; index and count advance by that part; nodes used stay within the cost of the slot |
| PhysPageMap.PhysMap.SetSlots | qemu_vhost_user/exec.c:191-202 | the loop over a node maps exactly the range within the node, advances index and count exactly, and allocates at most the computed cost |
| PhysPageMap.PhysMap.SetLevel | qemu_vhost_user/exec.c:170-203 | after the recursive call every page of the subtree resolves to the leaf inside the range and as before outside it |
| PhysPageMap.PhysMap.Set | qemu_vhost_user/exec.c:205-213 | refines a flat page map: pages in the range resolve to the leaf, all other pages as before, with at most 2 * 6 - 1 new nodes, so the reservation of 3 * 6 is never exceeded |
| PhysPageMap.CostStep | qemu_vhost_user/exec.c:146-203 | the node bound of a level follows from those of its slots: at most two slots of a level are partly covered |
| PhysPageMap.PhysMap.Walk | qemu_vhost_user/exec.c:277-290 | the descent with skip counts returns the section that the recursive definition of lookup gives, or the unassigned one |
| PhysPageMap.PhysMap.CompactSlot | qemu_vhost_user/exec.c:229-240 | compacting a child keeps what every page under the slot resolves to, and leaves nothing to bypass under it |
| PhysPageMap.PhysMap.CompactSlots | qemu_vhost_user/exec.c:228-240 | compacting all children keeps every slot and leaves nothing to bypass under any; the count returned is the number of slots in use, and with a count of one the slot is the only one |
| PhysPageMap.PhysMap.Compact | qemu_vhost_user/exec.c:218-266 | path compression of a subtree keeps every lookup that hit, for any shape of the tree, and bypasses every node that can be: where a node with a single slot in use remains, the two skip counts do not fit their field |
| PhysPageMap.PhysMap.CompactAll | qemu_vhost_user/exec.c:268-275 | after compression every mapped page of the whole tree still resolves to its section, and no node is left that could have been bypassed |
| PhysPageMap.BypassKept | qemu_vhost_user/exec.c:241-266 | replacing a node by its only child with the skips added keeps lookups, where the ranges of the sections decide about pages that resolved to nothing |
| PhysPageMap.TightHasNoSingle | qemu_vhost_user/exec.c:241-266 | in a compressed tree of at most the six levels no node that a walk meets has a single slot in use: no sum of skips leaves its three bits there |
| PhysPageMap.FindShift | qemu_vhost_user/exec.c:277-290 | a compressed entry ignores the index bits it skips: addresses that differ only there reach the same leaf |
| AddressDispatch.Dispatch.constructor | qemu_vhost_user/exec.c:1754-1801 | mem_begin: four fixed sections, an empty tree, and no address that resolves to a region |
| AddressDispatch.Dispatch.SectionAdd | qemu_vhost_user/exec.c:824-841 | sections are numbered in the order they are added |
| AddressDispatch.Dispatch.RegisterMultipage | qemu_vhost_user/exec.c:894-904 | whole pages become one section and every other byte resolves as before |
| AddressDispatch.Dispatch.SubpageRegister | qemu_vhost_user/exec.c:1714-1732 | the table of a subpage names the section on exactly the given bytes, and an out-of-page range is refused without a change |
| AddressDispatch.Dispatch.NewSubpage | qemu_vhost_user/exec.c:877-887 | a page that resolved to nothing gets an empty subpage, and still resolves to nothing |
| AddressDispatch.Dispatch.EnsureSubpage | qemu_vhost_user/exec.c:864-887 | the page has a subpage afterwards and no byte resolves differently for it |
| AddressDispatch.Dispatch.RegisterSubpage | qemu_vhost_user/exec.c:864-891 | a fragment of a page becomes visible on exactly its bytes; it takes one section number, and one more exactly when the page had no subpage |
| AddressDispatch.Dispatch.AddHead | qemu_vhost_user/exec.c:913-921 | what lies before the first page boundary becomes visible on exactly its bytes, and nothing if there is no such part |
| AddressDispatch.Dispatch.AddPiece | qemu_vhost_user/exec.c:922-936 | one turn of the loop: a run of whole pages or the rest of a page becomes visible on exactly its bytes, for exactly the section numbers counted for it |
| AddressDispatch.Dispatch.MemAdd | qemu_vhost_user/exec.c:906-937 | head, whole pages and tail tile the section: exactly its bytes now resolve to it; it takes exactly one section number for each piece and one for each page that needs a subpage and had none |
| AddressDispatch.Dispatch.Commit | qemu_vhost_user/exec.c:1803-1817 | compression changes no answer for any byte of the address space |
| AddressDispatch.Dispatch.PageFind | qemu_vhost_user/exec.c:277-299 | the range test sends an address that reaches a wrong leaf of a compressed tree to the unassigned section |
| AddressDispatch.Dispatch.LookupRegion | qemu_vhost_user/exec.c:307-320 | the section of the page, or of the byte when subpages are resolved |
| AddressDispatch.Dispatch.Translate | qemu_vhost_user/exec.c:322-339 | the region and the offset in it for a mapped byte, the unassigned section for any other, and the section of the page when subpages are not resolved; the length given back is the greatest that is asked for and ends within the size counted from the start of the section; the access stays inside the region exactly when the section shows the region from its start or the access fitted anyway |
| AddressDispatch.NotCut | qemu_vhost_user/exec.c:322-339 | an access to the second page of a region of two pages, of two pages length, is not cut |
| AddressDispatch.CompactionKeepsView | qemu_vhost_user/exec.c:218-299 | two trees that agree on mapped pages give the same section and the same view for every address |
| AddressDispatch.Update | qemu_vhost_user/exec.c:864-937 | a whole update, from mem_begin over any list of byte-disjoint sections to mem_commit: each byte resolves to the one section that contains it, with the right offset, and to nothing where there is none; the section table ends with exactly the numbers counted from the list |
| RamList.RamBlocks.FindOffset | qemu_vhost_user/exec.c:1125-1158 | the start of a smallest sufficient gap that follows a block, and failure exactly when every gap is too small |
| RamList.BestFitIsFree | qemu_vhost_user/exec.c:1125-1158 | the chosen place overlaps no block and stays below the address limit |
| RamList.RamBlocks.NextStart | qemu_vhost_user/exec.c:1136-1144 | the nearest block start at or after the end of a block |
| RamList.RamBlocks.Alloc | qemu_vhost_user/exec.c:1232-1300 | the new block is disjoint from all others, nothing else changes, the list stays sorted by decreasing length and its version grows |
| RamList.RamBlocks.Position | qemu_vhost_user/exec.c:1285-1290 | the insertion point that keeps the list sorted |
| RamList.RamBlocks.Free | qemu_vhost_user/exec.c:1342-1371 | exactly the block at the address goes, order and disjointness stay, the cached block is forgotten and the version grows if a block went |
| RamList.RamBlocks.Get | qemu_vhost_user/exec.c:704-725 | the shortcut through the most recently used block returns what the scan of the list returns, for every address |
| RamList.HitIsHolds | qemu_vhost_user/exec.c:708-718 | the unsigned comparison of the source is the range test |
| KvmSlots.KvmState.AllocSlot | qemu_vhost_user/kvm-all.c:125-137 | a free slot, and failure exactly when all slots are live |
| KvmSlots.KvmState.LookupOverlapping | qemu_vhost_user/kvm-all.c:160-182 | of the slots that meet the range, in 64-bit sums, the one with the lowest start; none exactly when no slot meets it |
| KvmSlots.WrapHides | qemu_vhost_user/kvm-all.c:160-182 | the 64-bit test misses an overlap exactly when the slot or the range ends at 2^64 |
| KvmSlots.LastPageHidden | qemu_vhost_user/kvm-all.c:160-182 | a slot on the last page of the address space is not found for its own range |
| KvmSlots.KvmState.CutOut | qemu_vhost_user/kvm-all.c:685-767 | removing one overlapping slot and putting back what sticks out erases the map on exactly the overlap |
| KvmSlots.KvmState.CutTurn | qemu_vhost_user/kvm-all.c:670-768 | one turn ends the loop, with the range already right or erased of all that is seen, or lowers the measure by one and erases only inside the range |
| KvmSlots.KvmState.Keep | qemu_vhost_user/kvm-all.c:729-767 | a prefix or suffix slot puts back the old host pointers of its addresses |
| KvmSlots.KvmState.CutAll | qemu_vhost_user/kvm-all.c:670-768 | the loop ends and leaves the slots disjoint; if it sees every slot in the way it erases exactly the range with at most one more slot; slots up to the last address neither come nor go |
| KvmSlots.KvmState.Register | qemu_vhost_user/kvm-all.c:777-789 | a free slot is taken, and fails exactly when there is none; the slots stay disjoint if and only if nothing of the range was mapped |
| KvmSlots.KvmState.Replace | qemu_vhost_user/kvm-all.c:670-789 | for every range, also one that ends at 2^64: the guest-to-host map is overridden or erased on exactly the range, and the slots stay disjoint, if and only if no live slot overlaps the range unseen |
| KvmSlots.SeenIs | qemu_vhost_user/kvm-all.c:160-182 | what that means for a caller: a range up to 2^64 is mapped nowhere, and another ends before the slot that reaches 2^64 |
| KvmSlots.SetPhysMem | qemu_vhost_user/kvm-all.c:631-789 | a change of a section is the map update that its page-aligned part describes, if and only if it sees every slot it overlaps; two spare slots are then enough; each guest address then leads to the host byte the section names for it, to none, or where it led before, by the fields of the section alone |
| KvmSlots.RunChanges | qemu_vhost_user/kvm-all.c:631-789 | any sequence of changes that see what they overlap, which can be told from the map before the run, composes as map updates |
| KvmSlots.PotentialBound | qemu_vhost_user/kvm-all.c:670-768 | the measure that bounds the slots in use: live slots plus the two edges that a cut may split |
| KvmSlots.EffectIsWithin | qemu_vhost_user/kvm-all.c:640-668 | the effect of a section lies within it, and is all of it when the section is page aligned RAM |
| KvmSlots.EffectExactly | qemu_vhost_user/kvm-all.c:640-668 | whether a section has an effect, on which addresses, from which host pointer on, and whether it adds or removes, by the fields of the section: an address is affected exactly when its whole page lies in the section beyond the padding |
| KvmSlots.EffectOnMap | qemu_vhost_user/kvm-all.c:640-668 | what one address leads to after the change: the byte of the region at its offset for RAM and for a ROM device in ROM mode, nothing for a removal or a device that must trap, and the old answer elsewhere |
| KvmIrqRouting.IrqState.FindFree | qemu_vhost_user/kvm-all.c:1116-1126 | the lowest clear bit |
| KvmIrqRouting.IrqState.ReleaseVirq | qemu_vhost_user/kvm-all.c:1069-1086 | the loop that moves the last route into each gap leaves the table that `Release` gives, and clears one bit |
| KvmIrqRouting.ReleaseExactly | qemu_vhost_user/kvm-all.c:1076-1084 | all routes of the virq go if and only if none of the last m - 1 entries is for it, with m the number of its routes; routes of other GSIs all stay, as often as before, and none is made up |
| KvmIrqRouting.LinesReleased | qemu_vhost_user/kvm-all.c:1055-1086 | a run: two lines are added to one GSI, which is released, and one of them stays |
| KvmIrqRouting.ReleaseMsi | qemu_vhost_user/kvm-all.c:1076-1084 | a virq with an MSI route loses it, and every other route stays |
| KvmIrqRouting.IrqState.FlushBucket | qemu_vhost_user/kvm-all.c:1101-1105 | the bucket is empty afterwards, only its routes go, and a GSI is free if it had any |
| KvmIrqRouting.IrqState.FlushDynamic | qemu_vhost_user/kvm-all.c:1095-1107 | every dynamic route goes and every other route stays; if there was a dynamic route then a GSI is free afterwards |
| KvmIrqRouting.IrqState.GetVirq | qemu_vhost_user/kvm-all.c:1109-1133 | the lowest clear bit; dynamic routes are flushed at most once and only when all bits are set |
| KvmIrqRouting.IrqState.LookupMsi | qemu_vhost_user/kvm-all.c:1135-1148 | a route is found in one bucket exactly when one for the message exists in any bucket |
| KvmIrqRouting.MsiEntry | qemu_vhost_user/kvm-all.c:1172-1178 | the entry of a message carries the low and the high half of its address and its data, which together determine the message |
| KvmIrqRouting.ForExactly | qemu_vhost_user/kvm-all.c:1140-1145 | the comparison by words accepts an entry exactly when it stands for the message, and for no second message |
| KvmIrqRouting.IrqState.SendMsi | qemu_vhost_user/kvm-all.c:1150-1192 | with direct MSI nothing changes; otherwise the message has a route afterwards unless all GSIs are taken by others; an existing route is reused, and other routes go only if they are dynamic and no GSI was free |
| KvmIrqRouting.IrqState.AddMsiRoute | qemu_vhost_user/kvm-all.c:1194-1223 | the new virq was free, belongs to the caller and routes the message; it fails exactly when no GSI is free and no dynamic route can be given up |
| KvmIrqRouting.IrqState.ReleaseMsiRoute | qemu_vhost_user/kvm-all.c:1069-1086 | releasing an owned virq keeps the consistency of all other routes |
| KvmIrqRouting.IrqState.AddIrqRoute | qemu_vhost_user/kvm-all.c:1055-1067 | an irqchip route is added; the routing invariant stays if and only if the line is one of the GSIs of the kernel and carried no MSI route |
| KvmIrqRouting.LineOnMsiRoute | qemu_vhost_user/kvm-all.c:1055-1067 | a run that breaks the routing invariant that way |
| KvmIrqRouting.IrqState.constructor | qemu_vhost_user/kvm-all.c:965-994 | GSIs beyond the count of the kernel are marked used from the start |
| KvmIrqRouting.ReleaseDynamicOk | qemu_vhost_user/kvm-all.c:1095-1107 | the routing invariant survives the release of the head of a bucket |
| BlockMigration.Converges | qemu_vhost_user/block-migration.c:234-721 | over every interleaving of bulk reads, re-reads, guest writes, completions, sends and synchronous sends in which no bulk read is overtaken by a re-read of its chunk, the destination equals the source once all is finished |
| BlockMigration.RunKeeps | qemu_vhost_user/block-migration.c:234-721 | the migration invariant holds in every state of every such run |
| BlockMigration.StepKeeps | qemu_vhost_user/block-migration.c:234-721 | every single event keeps the invariant |
| BlockMigration.FinishedIsEqual | qemu_vhost_user/block-migration.c:685-721 | with nothing dirty, in flight or queued the invariant means equal disks |
| BlockMigration.BulkReadOvertaken | qemu_vhost_user/block-migration.c:296-305 | a run that ends with different disks: bulk reads are not marked in flight, so a re-read can overtake one |
| BlockMigrationOvertaking.OvertakingDiverges | qemu_vhost_user/block-migration.c:296-305 | from every state of the invariant, with no failed read, in which a re-read may overtake the bulk read of its chunk, the code can go on to finish with a destination that differs from the source |
| BlockMigrationOvertaking.RereadExactly | qemu_vhost_user/block-migration.c:428-495 | a re-read keeps the invariant if and only if it does not overtake the bulk read of its chunk |
| BlockMigrationOvertaking.StuckEnds | qemu_vhost_user/block-migration.c:685-721 | from any state with a wrong sector that nothing will send again migration can finish, and the sector stays wrong |
| BlockMigrationOvertaking.FinishRead | qemu_vhost_user/block-migration.c:234-248 | any read in flight can be completed with exactly what it had captured and what the disk holds for the rest |
| BlockMigration.CompleteKeeps | qemu_vhost_user/block-migration.c:234-248 | the completion of a read, or its failure, keeps the invariant |
| BlockMigrationStream.LoadUndoesSend | qemu_vhost_user/block-migration.c:117-145 | the loader writes exactly the chunk that was sent, as data or as a zero mark, also for the short last chunk |
| BlockMigrationStream.SendFormat | qemu_vhost_user/block-migration.c:117-145 | the record of a chunk: the sector number above nine flag bits, the flag of a zero chunk exactly when zero chunks are detected and all of it is zero, and the data exactly otherwise |
| BlockMigrationStream.Migration.FlushBlks | qemu_vhost_user/block-migration.c:520-557 | the first blocks of the queue, as many as the rate limit allows, are in the stream in that order and no others; a failed read at the head stops it, which it reports; nothing else changes |
| BlockMigrationStream.Migration.SaveDeviceBulk | qemu_vhost_user/block-migration.c:252-309 | one bulk step of the protocol for the chunk at the cursor, or no change at the end of the disk, which it reports exactly |
| BlockMigrationStream.Migration.Drain | qemu_vhost_user/block-migration.c:434-444 | no read is in flight afterwards, what was read is queued and no dirty bit changes |
| BlockMigrationStream.Migration.RereadDirty | qemu_vhost_user/block-migration.c:428-495 | submits the first dirty chunk from the cursor on and clears its bit, or reports that there is none; no other chunk is read and no other bit changes |
| BlockMigrationStream.Migration.RereadDirtyBlock | qemu_vhost_user/block-migration.c:503-516 | the asynchronous pass over the devices: the first dirty chunk of the first device that has one beyond its cursor, or 1 exactly when there is none |
| BlockMigrationStream.Migration.ReadOn | qemu_vhost_user/block-migration.c:640-673 | the loop of a round: every turn reads one chunk, bulk before dirty, while fewer than the allowed blocks are outstanding; it stops only when enough are or when nothing is left to read |
| BlockMigrationStream.Migration.SaveBulkedBlock | qemu_vhost_user/block-migration.c:380-415 | one bulk step for the first device that is not finished, and 0 exactly when there is none |
| BlockMigrationStream.Migration.SendDirty | qemu_vhost_user/block-migration.c:428-495 | reads the first dirty chunk of the device and sends it at once, clearing its bit, or reports that there is none; nothing else changes |
| BlockMigrationStream.Migration.SendDirtyBlock | qemu_vhost_user/block-migration.c:503-516 | the synchronous pass over the devices sends the first dirty chunk of the first device that has one, or reports that none is dirty |
| BlockMigrationStream.Migration.SendAllDirty | qemu_vhost_user/block-migration.c:705-710 | the final loop ends, with nothing dirty left on any device |
| BlockMigrationStream.Migration.SaveIterate | qemu_vhost_user/block-migration.c:627-681 | one round of the iterative stage: what the rate allows of the queue is flushed; then chunks are read one by one, the bulk ones of the first unfinished device first and then the first dirty one, until the rate is reached or nothing is left to read; then the queue is flushed again; the stream gains exactly those blocks in order and the end mark |
| BlockMigrationStream.Migration.SaveComplete | qemu_vhost_user/block-migration.c:685-721 | when it succeeds, the stream written so far loads to disks equal to the source and ends with the report of 100 percent and the end mark |
| TrackedRequests.RoundedOverlap | qemu_vhost_user/block.c:2001-2030 | comparing the rounded range of one request with the unrounded range of another finds exactly the requests that share a cluster |
| TrackedRequests.BlockDriverState.FindOverlap | qemu_vhost_user/block.c:2032-2066 | the first tracked request that shares a cluster, or the certainty that there is none |
| TrackedRequests.BlockDriverState.Begin | qemu_vhost_user/block.c:1980-1996 | a request is tracked only when isolation still holds with it |
| TrackedRequests.BlockDriverState.Arrive | qemu_vhost_user/block.c:2651-2736 | a new request waits exactly when it copies, or a copy is in flight, and a tracked request shares a cluster with it, and then for the first such request; otherwise it is tracked at once; nothing else changes |
| TrackedRequests.BlockDriverState.Resume | qemu_vhost_user/block.c:2032-2066 | a woken request looks again from the start: it waits for the first request that shares a cluster, or is tracked exactly when there is none |
| TrackedRequests.BlockDriverState.End | qemu_vhost_user/block.c:1971-1975 | the request goes and exactly its waiters are woken |
| TrackedRequests.CopyIsInvisible | qemu_vhost_user/block.c:2582-2646 | a copy reads whole clusters and writes them back later: whatever other tracked requests write in between, writing back loses none of it |
| Multiwrite.MergeWrites | qemu_vhost_user/block.c:3772-3826 | the merged requests write the same bytes as the originals in order if and only if no byte is lost by a join |
| Multiwrite.MergeInvisible | qemu_vhost_user/block.c:3772-3826 | the merge cannot be told from the originals on any disk under the same condition |
| Multiwrite.MergeExact | qemu_vhost_user/block.c:3772-3826 | on the sorted array, before the merge: it is invisible on every disk if each end that sticks out over a later touching request is written by a still later one; while all vectors together stay within IOV_MAX, only then |
| Multiwrite.TailsSuffice | qemu_vhost_user/block.c:3772-3826 | if every such end is rewritten nothing is lost, at any IOV_MAX |
| Multiwrite.TailsNeeded | qemu_vhost_user/block.c:3772-3826 | within IOV_MAX an end that is not rewritten is lost |
| Multiwrite.NeverNestedIsInvisible | qemu_vhost_user/block.c:3772-3826 | the merge is invisible when no request ends before the one before it that it touches |
| Multiwrite.NestedIsLost | qemu_vhost_user/block.c:3790-3815 | a nested request cuts off the end of the one it joins |
| Multiwrite.MergeIovMax | qemu_vhost_user/block.c:3787-3790 | no merged vector is longer than IOV_MAX if no original is |
| Multiwrite.MultiwriteMerge | qemu_vhost_user/block.c:3772-3826 | the in-place loop leaves the merged requests at the front of the array and the rest alone; the disk is as without merging if every end that sticks out is rewritten, and within IOV_MAX only then |
| Multiwrite.MergeOne | qemu_vhost_user/block.c:3782-3819 | one turn joins the request to the last output or appends it |
| Multiwrite.TakeFlat | qemu_vhost_user/util/iov.c:305-343 | taking a prefix of a vector takes a prefix of its bytes |
| ByteIo.Disk.Pread | qemu_vhost_user/block.c:2443-2486 | exactly the bytes of the range, for every alignment; it succeeds exactly when every sector it touches is good |
| ByteIo.Disk.Pwritev | qemu_vhost_user/block.c:2488-2543 | on success exactly the bytes of the range change, to the data; on failure nothing changes outside the sectors touched; it succeeds exactly when they are all good |
| ByteIo.Disk.WriteThenRead | qemu_vhost_user/block.c:2443-2543 | reading a range that was just written returns what was written |
| ByteIo.Disk.PatchSector | qemu_vhost_user/block.c:2504-2510 | a read-modify-write changes only the bytes patched in |
| ByteIo.Disk.ReadAligned | qemu_vhost_user/block.c:2470-2484 | whole sectors and the part of the last one are joined without a gap |
| ByteIo.SpliceWithin | qemu_vhost_user/block.c:2504-2510 | patching a copy of a sector and writing it back is patching the disk |
| Dump.DumpState.RegionAdd | qemu_vhost_user/memory_mapping.c:196-257 | joining a section to the last block, or adding a block, extends the guest-to-host map by exactly the section and keeps the rest; neighbouring blocks that could be joined never remain |
| Dump.DumpState.AddMappingSorted | qemu_vhost_user/memory_mapping.c:24-36 | the mapping list stays sorted by physical address and gains exactly the mapping |
| Dump.DumpState.SimpleMappings | qemu_vhost_user/memory_mapping.c:315-324 | one mapping for every block, in order |
| Dump.DumpState.FilterMappings | qemu_vhost_user/memory_mapping.c:326-351 | an address is covered afterwards if and only if it was covered and lies in the filter |
| Dump.DumpState.GetStartBlock | qemu_vhost_user/dump.c:689-715 | the first block that the filter touches, and an error exactly when there is none |
| Dump.DumpState.GetNextBlock | qemu_vhost_user/dump.c:615-640 | the next block that the filter touches; the ones passed over contribute nothing |
| Dump.DumpState.WriteMemory | qemu_vhost_user/dump.c:394-417 | page by page and then the rest: the bytes written are the range in order |
| Dump.DumpState.DumpIterate | qemu_vhost_user/dump.c:643-670 | what the filter leaves of every block is written, in order, and it fails exactly when the file has no room |
| Dump.DumpState.GetOffsetRange | qemu_vhost_user/dump.c:420-479 | an offset exactly for the guest addresses in RAM and in the filter; it lies in the block of the address and the size stops at its end |
| Dump.PlacedIsStored | qemu_vhost_user/dump.c:394-479 | the two walks agree: the announced range of the file holds the guest memory from the address on |
| Dump.DumpState.InitSizes | qemu_vhost_user/dump.c:790-829 | the offset of the memory is the sum of header, program headers, section header and notes, for any number of mappings; the count of headers is the number of mappings and one, or the escape value with a section header exactly from 0xfffd mappings on |
| Dump.DumpState.WriteElfLoads | qemu_vhost_user/dump.c:481-517 | one header for each mapping, up to the limit of the 32-bit count |
| Dump.DumpState.DumpBegin | qemu_vhost_user/dump.c:520-606 | exactly as many bytes as the offset of the memory announces |
| Dump.DumpState.CreateVmcore | qemu_vhost_user/dump.c:672-687 | every PT_LOAD that names a place in the file names the guest memory of its physical address there; the dump succeeds exactly when the filter touches RAM and the file has room |
| Dump.DumpState.DumpSimple | qemu_vhost_user/dump.c:717-841 | without paging every PT_LOAD is stored in full and every byte of guest RAM in the filter is in some PT_LOAD |
| Tlb.Widen | qemu_vhost_user/cputlb.c:215-234 | the widening loop ends; the region takes in the new page and all that it took in before, and every aligned region that does so takes in this one |
| Tlb.CpuTlb.AddLargePage | qemu_vhost_user/cputlb.c:215-234 | the region covers every large page entered since the last full flush; each page widens it to the smallest aligned region that takes in both |
| Tlb.CpuTlb.SetPage | qemu_vhost_user/cputlb.c:239-310 | the entry hits exactly the addresses of its page, for the accesses allowed, and each of its words has exactly the flags the section, the dirty log and the watchpoints ask for; no other entry changes; a large page widens the region to the smallest that takes it in |
| Tlb.NewEntryTranslates | qemu_vhost_user/cputlb.c:262-309 | the flag bits for I/O, write tracking and watchpoints never change which addresses hit |
| Tlb.NewEntryFlags | qemu_vhost_user/cputlb.c:262-309 | flag by flag: which accesses are valid, which go to I/O, when a write is tracked and when a watchpoint is looked up, from the kind of section, the protection and the state of the page |
| Tlb.CpuTlb.Flush | qemu_vhost_user/cputlb.c:55-80 | all entries of all modes are empty and no large page is remembered |
| Tlb.CpuTlb.FlushEntry | qemu_vhost_user/cputlb.c:82-92 | the entry goes exactly when some access would hit the address through it |
| Tlb.CpuTlb.FlushPage | qemu_vhost_user/cputlb.c:94-124 | no access in any mode hits an entry of a mapping that contains the address; outside the region of large pages only the entries of that one page go |
| Tlb.CoversAll | qemu_vhost_user/cputlb.c:94-106 | an address of a covered large page always forces the full flush |
| Virtqueue.Vring.ProcessAvail | vhost_user.c:976-1001 | consumes exactly the outstanding entries across the 16-bit wrap, advances both indices by that count and fills the used ring with heads and lengths in order |
| Virtqueue.Vring.ProcessDesc | vhost_user.c:896-973 | the used element names the head and the length of the frame; an empty frame leaves the ring alone |
| Virtqueue.CopyChain | vhost_user.c:916-942 | the frame is the longest prefix of the chain that fits a packet buffer, and byte for byte what the guest addresses of its descriptors hold |
| Virtqueue.GreedyIsLongest | vhost_user.c:931-935 | taking descriptors while they fit takes the most that fit |
| Virtqueue.FrameBytes | vhost_user.c:916-942 | each byte of the frame is the byte of shared memory at the translated address of its descriptor plus the distance from where that descriptor starts in the frame |
| Virtqueue.OneChain | vhost_user.c:916-940 | a head has at most one chain: following the next fields from it gives one list of descriptors |
| Virtqueue.CopiedFrom | vhost_user.c:626-644 | with regions that do not overlap, a byte of a descriptor that lies in one region is read from that region, where translating the address of the byte itself leads |
| Virtqueue.NoFrame | vhost_user.c:943-947 | exactly which chains get no element in the used ring |
| Virtqueue.WrapNeedsDivisor | vhost_user.c:976-1001 | counting positions agrees with reducing the 16-bit index at every index if and only if the ring size divides 65536 |
| Virtqueue.TranslationsAgree | vhost_user.c:597-644 | both address translations lead to the same byte of shared memory |
| Virtqueue.MapGuestAddr | vhost_user.c:626-644 | the first region that holds a guest address decides |
| Virtqueue.MapUserAddr | vhost_user.c:597-624 | the first region that holds a peer address decides |
| Xbzrle.RoundTrip | qemu_vhost_user/xbzrle.c:26-173 | decoding an encoded page on top of the older copy gives the page |
| Xbzrle.EmptyMeansSame | qemu_vhost_user/xbzrle.c:74-82 | nothing is encoded exactly when nothing has changed |
| Xbzrle.ChunkFormat | qemu_vhost_user/xbzrle.c:26-124 | a chunk is the length of the unchanged run, the length of the changed run, and the bytes of the changed run as they are in the new page |
| Xbzrle.DecodeOver | qemu_vhost_user/xbzrle.c:126-173 | an encoding decodes on top of any page of the size, and puts exactly the changed bytes on it |
| Xbzrle.DeltaExactly | qemu_vhost_user/xbzrle.c:126-173 | a delta gives the page if and only if the base already agrees wherever nothing had changed |
| Xbzrle.TrickIsExact | qemu_vhost_user/xbzrle.c:104-117 | the subtraction trick finds a zero byte exactly when there is one |
| Xbzrle.WordsMeet | qemu_vhost_user/xbzrle.c:104-117 | the word test says exactly whether one of eight bytes is unchanged |
| Xbzrle.ScanUnchanged | qemu_vhost_user/xbzrle.c:46-71 | the scan by bytes and words finds the end of the unchanged run |
| Xbzrle.ScanChanged | qemu_vhost_user/xbzrle.c:94-117 | the scan by bytes and words finds the end of the changed run |
| Xbzrle.EncodeBuffer | qemu_vhost_user/xbzrle.c:26-124 | the buffer holds the encoding; room runs out if and only if the encoding, with two more bytes when the page ends unchanged, is longer than the buffer |
| Xbzrle.DecodeBuffer | qemu_vhost_user/xbzrle.c:126-173 | in place, and failing exactly on the streams that the format does not allow |
| Xbzrle.UlebInverse | qemu_vhost_user/util/cutils.c:482-509 | a length of at most 14 bits is read back as it was written |
| Xbzrle.UlebIsLeb128 | qemu_vhost_user/util/cutils.c:482-495 | the bytes written are the unsigned LEB128 form of the length: seven bits a byte, low bits first, the top bit set on all but the last |
| Xbzrle.UlebAtExactly | qemu_vhost_user/util/cutils.c:497-509 | a length is read exactly when one or two bytes of that form stand there, and then it is their value |
| RamStream.RunLoads | qemu_vhost_user/arch_init.c:609-961 | a setup section and any number of rounds load as the records that were sent, although a block is named only when it changes, also from one round to the next |
| RamStream.RoundLoads | qemu_vhost_user/arch_init.c:451-533 | a round loads record by record and the loader ends with the last block of the sender |
| RamStream.RecordUndone | qemu_vhost_user/arch_init.c:255-270 | a record is decoded for the block, address and contents that were meant; flags never collide with page addresses |
| RamStream.RecordFormat | qemu_vhost_user/arch_init.c:255-324 | the bytes of a record: eight octets with the address above the flag bits, the name of the block with its length before it exactly when the block changes, and the fill byte, the page, or the marked and sized delta |
| RamStream.BodyExactly | qemu_vhost_user/arch_init.c:920-952 | of any bytes: a body loads exactly when they begin with one in the format that the flags ask for, and then as that record |
| RamStream.EntryExactly | qemu_vhost_user/arch_init.c:885-915 | of any bytes: an entry of the block list is accepted exactly when it names a block of the destination with the length that block has |
| RamStream.ValueOfFirst | qemu_vhost_user/savevm.c:960-984 | numbers are read with the most significant octet first |
| RamStream.SetupLoads | qemu_vhost_user/arch_init.c:642-655 | the setup section loads without a record |
| RamStream.SetupFormat | qemu_vhost_user/arch_init.c:642-655 | the section begins with the total size and its flag, holds the list, and ends with the end mark |
| RamStream.ListFormat | qemu_vhost_user/arch_init.c:644-648 | entry by entry: the length of the name in one octet, the name, and the size of the block in eight |
| RamStream.RoundFormat | qemu_vhost_user/arch_init.c:660-757 | a round ends with the end mark |
| RamStream.ListExact | qemu_vhost_user/arch_init.c:879-917 | of any list, the loader reads exactly the announced entries if and only if the last one is not empty, as in every list of RAM blocks |
| RamStream.Saver.SaveBlockHdr | qemu_vhost_user/arch_init.c:255-270 | the header names the block exactly when it is not continued |
| RamStream.Saver.Send | qemu_vhost_user/arch_init.c:479-527 | one record in the context of the block sent last |
| RamStream.Saver.SaveRound | qemu_vhost_user/arch_init.c:660-757 | the bytes of a round are what the loader is proved to undo |
| RamStream.Saver.SaveSetup | qemu_vhost_user/arch_init.c:642-655 | the bytes of the setup section |
| RamStream.RamLoad | qemu_vhost_user/arch_init.c:856-961 | the loading loop computes what the definition of loading gives, errors included |
| RamMigration.RamState.SaveComplete | qemu_vhost_user/arch_init.c:729-757 | with the guest stopped it ends with no page dirty; a page of RAM arrives if and only if a condition on the state before holds for it; every page arrives that was never sent as zero over a cached copy, except the last page of RAM in exactly one situation |
| RamMigration.RamState.LastBlock | qemu_vhost_user/arch_init.c:739-748 | one call in the last stage: pages dealt with are as they will end, the others as they began, and a bit is lost exactly when the last page is dirty again and alone |
| RamMigration.RamState.SaveBlock | qemu_vhost_user/arch_init.c:451-533 | also while the guest writes: it ends; the dirty count equals the bits set; it sends one dirty page, the next in turn from where the scan stood, and the copy that was seen of it fixes the record, the destination and the cache, or no page of any block is dirty; every other page it cleared equals its cached copy or has been written since; a page is dropped in exactly one situation |
| RamMigration.RamState.Turn | qemu_vhost_user/arch_init.c:463-528 | one turn of the loop: a page sent, the end of a block, or the end of the round |
| RamMigration.LastPageLost | qemu_vhost_user/arch_init.c:463-477 | a whole run that loses a page: the very last page is written again after the first pass has sent it, and completion does not send it |
| RamMigration.StaleCopyLost | qemu_vhost_user/arch_init.c:499-510 | a whole run that leaves a page wrong: cached, then sent as zero, then written back; the sender sends nothing, and completion does not either |
| RamMigration.RamState.FindAndReset | qemu_vhost_user/arch_init.c:338-360 | the shortcut of the first pass keeps the count equal to the bits set |
| RamMigration.RamState.SetDirty | qemu_vhost_user/arch_init.c:362-374 | the count grows exactly when the bit was clear |
| RamMigration.RamState.Sync | qemu_vhost_user/arch_init.c:378-442 | the log moves into the bitmap, for pages of RAM only, and nothing is lost |
| RamMigration.RamState.SavePage | qemu_vhost_user/arch_init.c:479-527 | the record, the destination and the cache that follow from the copy seen of the page, also if the guest writes meanwhile; every page that is not bad stays settled and its cached copy right |
| RamMigration.RamState.ReadPage | qemu_vhost_user/arch_init.c:290-291 | a copy of a page is what it holds, or the log has it afterwards |
| RamMigration.RamState.SaveXbzrlePage | qemu_vhost_user/arch_init.c:274-324 | what is sent for a page and what the cache holds afterwards agree, whatever the guest writes between the copies that are taken; unless the guest has written the page, both follow exactly from its contents and the cached copy |
| RamPages.DeliversExactly | qemu_vhost_user/arch_init.c:274-324 | sending a page fails to deliver it if and only if a delta is made against a copy that differs from the destination where nothing changed |
| RamPages.SendIsRight | qemu_vhost_user/arch_init.c:274-324 | if the cached copy is what the destination holds, the destination ends with the page |
| RamPages.SeenArrives | qemu_vhost_user/arch_init.c:288-312 | also while the guest writes: the destination ends with the copy that was seen |
| RamPages.RecordApplies | qemu_vhost_user/arch_init.c:856-961 | the loader makes of the record what the destination is said to receive |
| RamPages.StaleExactly | qemu_vhost_user/arch_init.c:499-510 | the cache stays right for a page exactly when the page is not sent as zero over a cached copy that is not zero |
| RamPages.PageSettles | qemu_vhost_user/arch_init.c:479-527 | dealing with a page settles it, or the guest has written it since, and disturbs no other |
| RamPages.PageStaysFresh | qemu_vhost_user/arch_init.c:479-527 | the cache goes on holding what the destination holds, except for a page left stale |
| RamPages.OutcomeEnd | qemu_vhost_user/arch_init.c:729-757 | when nothing is marked any more each page is what its cached copy, its contents and the destination decided at the start, and arrives exactly under the condition on them |
| RamScan.ScanDone | qemu_vhost_user/arch_init.c:463-477 | a scan that has come round has seen every page of every block |
| RamScan.AtBreak | qemu_vhost_user/arch_init.c:465-469 | a call that sends nothing leaves no page dirty, and has dropped one exactly when it began with the last page dirty again |
| RamScan.AtOrder | qemu_vhost_user/arch_init.c:463-528 | the page found is the next in turn: in the first pass the page after the cursor, or the first page if it is dirty again; afterwards everything from the cursor up to it, round the end of the list, is clean |
| RamScan.EndNotSent | qemu_vhost_user/arch_init.c:338-360 | in such a call the last page is never the page that is sent |
| RamMigration.RamState.constructor | qemu_vhost_user/arch_init.c:609-658 | every bit set and counted |
| RamMigration.Delivered | qemu_vhost_user/arch_init.c:609-961 | from end to end: however the records sent were divided into rounds, the bytes of the setup section and of the rounds, read by the loader and applied to what the destination held at first, give it every page of RAM that is not bad |

## Left out

- PhysPageMap.PhysMap.Set: the range must be unmapped before the call, as the callers in exec.c guarantee.
- AddressDispatch.Dispatch.MemAdd: sections are non-empty and the section table has room for the numbers counted, as phys_section_add asserts; the branch for an unaligned remainder cannot be reached and is proved so.
- AddressDispatch.Dispatch.Translate: the sizes of the regions are a parameter.
- KvmSlots.SetPhysMem: the workaround for kernels that cannot change a slot, dirty logging and slot flags are not part of this model; a failing ioctl is a failing slot allocation only.
- KvmSlots.RunChanges: says nothing of a run in which a change overlaps a slot that it does not see; KvmSlots.SetPhysMem says of that one change that the map is then wrong.
- KvmIrqRouting.IrqState.GetVirq: bits are booleans rather than words of a bitmap; direct GSI mapping, route updates and the byte order of messages are not part of this model.
- KvmIrqRouting.IrqState.AddIrqRoute: the line has a bit in the bitmap, which the source indexes with it without a test.
- BlockMigration.Converges: a shared base image, progress reports and the rate estimate are not part of this model.
- BlockMigrationStream.Migration.SaveIterate: the guest does not write during the round, which BlockMigration.Converges allows at every step; the number of bytes it returns on success is not modelled.
- TrackedRequests.CopyIsInvisible: throttling, the choice between data and a zero fill and the contents returned to the reader are not part of this model.
- Multiwrite.MultiwriteMerge: takes the requests sorted by sector, as the library sort leaves them; completion callbacks and flushes are not part of this model.
- ByteIo.Disk.Pwritev: the vector is given as its bytes; which sectors fail is a parameter.
- Dump.DumpState.CreateVmcore: the contents of ELF headers and notes are blank bytes of the right size, and virtual addresses are dropped; mappings from guest page tables are an arbitrary list.
- Tlb.CpuTlb.SetPage: the I/O address, the addend to host addresses, the translation block cache and the write-tracking updates of existing entries are not part of this model.
- Virtqueue.Vring.ProcessDesc: a frame is recorded with its 10-byte header, so the size handed on for a frame shorter than the header is not modelled; the header test only prints.
- Virtqueue.Vring.ProcessAvail: each chain made available is finite, the descriptors copied from it lie in mapped regions, and at most one ring of entries is outstanding, as the VIRTIO specification demands of a driver; nothing is asked of other descriptors.  What the guest shares does not change during a call.
- Virtqueue.CopyChain: the descriptor at which copying stops is shorter than 2^32 - 1518 bytes, so that the 32-bit sum with what has been copied does not wrap.
- RamStream.RamLoad: RDMA hooks and version numbers are not part of this model.
- RamMigration.RamState.SaveBlock: the guest is stopped in the last stage, as ram_save_complete finds it; the block list is fixed and there is no RDMA hook.
- RamMigration.RamState.SaveComplete: how often and how long the iterative rounds run is left to the caller.
- Sockets, the select loop, eventfds, shared memory setup and the message handlers of vhost_user.c: plumbing around foreign calls.
- put_vring and put_rx_vring in vhost_user.c: no contract to state, ring positions are used as descriptor numbers.
- Merging of page-table mappings in memory_mapping.c, IOMMU translation, MMIO dispatch, watchpoints, translation blocks, vCPU execution and the coroutine and AIO back ends: hardware detail or easy members.
- cache_resize in page_cache.c, accounting and auto-converge throttling in arch_init.c: statistics and tuning, no effect on what is sent.
