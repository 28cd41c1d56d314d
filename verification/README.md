# Verified models of parts of riscv-isa-sim

Spike, the RISC-V instruction set simulator, carries several small systems whose correctness does not show in any one
function. This project models them in Dafny and proves what each of them is for. `dafny verify dfyconfig.toml` checks
everything.

## What is modelled

- **libfdt, a device tree in one byte buffer** (modules `Fdt*`; format of sections 5.2 to 5.5 of the Devicetree
  Specification v0.4). A stored tree keeps padding and NOPs, so that encoding is exact; what a blob *means* is a tree of
  names, property values and subnodes (`FdtView.Tree`). Readers, the sequential writer, the read-write operations, packing,
  the overlay merge and phandle renumbering are methods on bytes that are proved against that tree.
  `FdtTokens` to `FdtTree` hold the tag scan and trees, `FdtScan` to `FdtProps` the readers, `FdtEdit` to `FdtOps` edits as
  splices, `FdtBlob` and `FdtMeaning` the read-write blob, `FdtMerge`, `FdtIter` and `FdtOverlay` the merge, `FdtTour`
  parents, `FdtTrail`, `FdtPath`, `FdtRoundTrip` and `FdtLeftOver` paths, `FdtWriter`, `FdtSw` and `FdtBuild` the writer,
  `FdtPack` packing, `FdtRsv` reserve maps, and `FdtRenumber`, `FdtInPlace`, `FdtPhandle`, `FdtFixup`, `FdtReference` and
  `FdtFixupCases` phandles and references.
- **Address translation** (`Bits`, `Pmp`, `PmpLock`, `Mmu`, `Tlb`; sections 3.7 and 4.3.2 of the RISC-V Privileged
  Architecture v1.12 and Smepmp v1.0): PMP matching and its homogeneity test, PMP locks over runs of register writes, the
  page-table walk, and the three tag arrays that shortcut walk and PMP check. `PmpRules`, `PmpWrites`, `MmuRules` and
  `AccessRules` say what these answer in terms of register fields, tables of permissions and the words of the page tables.
  Words are integers; bit operations are defined on binary digits and related to arithmetic in `Bits`.
- **The debug module** (`DmState`, `DmProgram`, `Handshake`, `HandshakeRuns`, `DmRules`, `DebugModule`; chapter 3 of RISC-V
  External Debug Support v0.13.2): the registers changed by debugger accesses and hart stores, every interleaving of these
  with the steps of the harts through the debug ROM, what one side reads of what the other wrote (`DmRules`), and the
  program of a register access run on a hart (`DmProgram`).
- **Smaller ones**: chunked memory access (`Memif`), the set-associative cache simulator (`CacheSim`), wide multiplication
  and saturating addition (`Arith`).

Methods change objects and arrays in place as the source does, and each states its whole result; recursive functions beside
them say what that result is, and lemmas say what it means. Lookups that return a pointer in the source return an offset
here. Ghost parameters (a path in the tree, for example) name what an offset stands for and have no effect on the result.

## Where the code differs from what is promised

- The tag scan adds the property length in wrapping arithmetic: for one length field it does not move at all
  (`FdtTokens.NextTagCanStall`), and for every other it does (`FdtTokens.NextTagAdvances`).
- A path does not always lead back to its node: `FdtRoundTrip.PathRoundTrip` has the exact condition. One part of it is
  that the path has as many components as the node is deep: each slash in the name of a node that the walk passes leaves
  one more (`FdtLeftOver.LeftOver`, `FdtLeftOver.SlashRoundTrip`, and `FdtLeftOver.SlashedNotFound` for a node whose own
  path has no such name).
- A TOR entry with its bounds in the wrong order matches nothing, and yet the homogeneity test refuses some blocks because
  of it (`PmpRules.SubsetIsPartial`); that costs a cached translation and no more.
- A leaf that marks a badly formed Svnapot range has its accessed and dirty bits set before the page fault
  (`MmuRules.TablesAfter`).
- The 64 KiB Svnapot range is read from sixteen separate entries; translation is linear over it exactly when each other
  entry either marks a range and holds the same range number, or marks none and holds the page number that the range gives
  its page (`Mmu.WalkNapot`), and they need not (`Mmu.NapotCanDisagree`).
- An overlay phandle of zero becomes the largest phandle of the base (`FdtRenumber.AboveTheBase`).
- A reference that the fixups list k times is raised k times, and is right exactly when k - 1 times the number added is
  zero modulo 2^32 (`FdtFixup.ReferencesKept`; `FdtFixupCases.TwiceListedLost` for an overlay). A phandle that they list is
  raised once all the same, or renumbering fails (`FdtFixup.PhandleListed`).
- Fixups may be fixed before they are used: where a subnode of the fixup node is named like the fixup node itself a
  reference can be lost (`FdtFixupCases.FixedFixupsLost`), and where one of them has two phandle properties a phandle can be
  raised twice (`FdtFixupCases.GivenTwiceLost`). Without these, phandles and words listed once come out right
  (`FdtFixup.RenumberKeeps`).
- The bounds test for a word stored into a property wraps around: `FdtFixup.PlaceOutside` has the places outside the
  value that it accepts.
- Of two values that an overlay node gives one property the merge takes the second, where a lookup finds the first
  (`FdtMerge.TwoValues`).
- The test for room in the string table of the sequential writer wraps around: `FdtSw.RoomTest` has the exact condition.
- An abstract command that writes the scratch register in which the program saves s0 writes s0 as well
  (`DmProgram.ProgramMoves`).
- The handshake rests on the debugger not selecting another hart and not resetting the module while a command executes
  (`Handshake.SelectionMatters`, `HandshakeRuns.ResetMatters`).
- A command issued to a hart that has just seen its resume flag stays busy until the hart halts again
  (`HandshakeRuns.GoneIsReachable`, `Handshake.CannotFinish`); every other command ends by itself (`Handshake.CanFinish`).
- A cache flush misses lines when their end, rounded up, wraps around (`CacheSim.FlushRange`, `CacheSim.LastLineMissed`);
  one of no bytes at an unaligned address flushes a line (`CacheSim.EmptyRange`).

## Model

| member | source | states |
|---|---|---|
| `FdtTokens.ReadNextTag` | riscv-isa-sim/fdt/fdt.c:131-182 | returns the tag and the offset that the specification function gives for any bytes and offset, the wrapping length sum included |
| `FdtTokens.NextTagAt` | riscv-isa-sim/fdt/fdt.c:131-182 | on an encoded token stream the scan at the offset of token i returns the tag of token i and the offset of token i + 1 |
| `FdtTokens.NextTagAdvances` | riscv-isa-sim/fdt/fdt.c:131-182 | from an aligned offset a successful scan moves strictly forward if and only if the tag is not a property whose length field is 0xfffffff4 |
| `FdtTokens.NextTagCanStall` | riscv-isa-sim/fdt/fdt.c:156-170 | eight bytes on which the scan returns the offset it started from |
| `FdtDecode.DecodeEncode` | riscv-isa-sim/fdt/fdt.c:131-182 | decoding the encoding of any well-formed stored tree gives exactly the tree it means |
| `FdtDecode.DecodeNodeSound` | riscv-isa-sim/fdt/fdt.c:131-182 | a structure block that decodes is, byte for byte, the encoding of what it decodes to |
| `FdtScan.ReadNextNode` | riscv-isa-sim/fdt/fdt.c:202-240 | returns offset and depth as the recursive scan defines them, and terminates on every block on which tags advance |
| `FdtScan.NextNodeFromIsScan` | riscv-isa-sim/fdt/fdt.c:202-240 | counting tags on the bytes is counting depth on the token stream |
| `FdtTour.NextNodeIsNextPath` | riscv-isa-sim/fdt/fdt.c:202-240 | from any node the scan reaches the next node in preorder with its depth, and after the last one the end of the tree with depth -1 |
| `FdtPhandle.NextNodeFree` | riscv-isa-sim/fdt/fdt.c:202-240 | the scan without a depth limit reaches the next node in preorder, and after the last one reports not found |
| `FdtNodes.ReadFirstSubnode` | riscv-isa-sim/fdt/fdt.c:242-251 | returns the first subnode as the specification function defines it |
| `FdtNodes.ReadNextSubnode` | riscv-isa-sim/fdt/fdt.c:253-268 | the loop over deeper nodes returns the next subnode as the specification function defines it |
| `FdtIter.SubnodesInOrder` | riscv-isa-sim/fdt/fdt.c:242-268 | first-subnode and next-subnode list exactly the direct subnodes of any node, in order, and then report not found |
| `FdtNodes.ReadNodeEnd` | riscv-isa-sim/fdt/fdt_wip.c:73-81 | the depth loop returns what the recursive scan defines |
| `FdtSplice.NodeEndOnTree` | riscv-isa-sim/fdt/fdt_wip.c:73-81 | for every node below the root the offset found is that of the item after the node, just past its matching end tag |
| `FdtNodes.ReadSubnodeOffset` | riscv-isa-sim/fdt/fdt_ro.c:211-234 | the lookup loop returns what the specification function defines |
| `FdtNodes.NameMatches` | riscv-isa-sim/fdt/fdt_ro.c:13-32 | a node name is matched by itself and by what it has before its unit address, and by nothing else |
| `FdtOps.SubnodeOnTree` | riscv-isa-sim/fdt/fdt_ro.c:211-228 | the lookup returns the offset of the first direct subnode that the name matches, or not found |
| `FdtProps.ReadFindProp` | riscv-isa-sim/fdt/fdt_ro.c:379-406 | the property loop returns the offset that the recursive search defines |
| `FdtSplice.FindPropOnTree` | riscv-isa-sim/fdt/fdt_ro.c:379-433 | the search finds the first property of that name of exactly this node, or reports not found |
| `FdtPhandle.GetProp` | riscv-isa-sim/fdt/fdt_ro.c:435-485 | returns where the property lies and how long it is, with the value that the node means by that name, or not found when it has none |
| `FdtTour.SupernodeAtDepth` | riscv-isa-sim/fdt/fdt_ro.c:573-607 | for any offset: the offset of the ancestor at the wanted depth and the depth of the node, or the error, which tells an offset inside the tree at which no node starts, the end of the tree and an offset past it apart |
| `FdtTour.ParentOffset` | riscv-isa-sim/fdt/fdt_ro.c:620-628 | for any offset: the parent of a node, not found for the root, and the error of the ancestor lookup where no node starts |
| `FdtTour.ParentOfKid` | riscv-isa-sim/fdt/fdt_ro.c:609-628 | the node at a listed subnode offset is the subnode of the node it was listed under, so the parent lookup inverts the listing |
| `FdtPath.GetPath` | riscv-isa-sim/fdt/fdt_ro.c:521-571 | writes the components that the walk to the node has left in the buffer, with a NUL in place of the last slash; fails for lack of space exactly when a name on the path did not fit, and with bad offset exactly when no node starts there |
| `FdtPath.PlainPath` | riscv-isa-sim/fdt/fdt_ro.c:521-571 | where no node up to this one has a slash in its name, what is written is the path of the node, and there is room exactly when path and NUL fit |
| `FdtTrail.TrailNext` | riscv-isa-sim/fdt/fdt_ro.c:534-553 | from one node of the walk to the next the buffer changes by backing up one component for each node left and by the name entered, if it fits below names that did |
| `FdtTrail.TrailCovers` | riscv-isa-sim/fdt/fdt_ro.c:534-553 | a path that was written has the components of the names on the path to the node, in order, among ones left over from nodes passed before |
| `FdtLeftOver.LeftOver` | riscv-isa-sim/fdt/fdt_ro.c:536-541 | with room enough and no empty components, the path written has one component for each node on the way to the node and one more for each slash in a name passed |
| `FdtPath.PathOffset` | riscv-isa-sim/fdt/fdt_ro.c:236-284 | the loop over the components of an absolute path returns what the lookups one after another give |
| `FdtPath.LookupOnTree` | riscv-isa-sim/fdt/fdt_ro.c:236-279 | looking names up one after another on the bytes ends at the node that the same lookups reach in the tree, or reports not found |
| `FdtRoundTrip.PathRoundTrip` | riscv-isa-sim/fdt/fdt_ro.c:236-284 | for any names and any buffer in which the path was written: looking it up returns the node if and only if the path has as many components as the node is deep and no name below the root on the way to it is empty, holds a slash, or is matched by an earlier sibling |
| `FdtLeftOver.SlashRoundTrip` | riscv-isa-sim/fdt/fdt_ro.c:521-571 | with room enough and no empty components: the path written leads back to the node if and only if no node up to it in preorder has a slash in its name and no name on its path is matched by an earlier sibling |
| `FdtLeftOver.PlainRoundTrip` | riscv-isa-sim/fdt/fdt_ro.c:521-571 | where no node up to this one has a slash in its name and the path fits: it leads back to the node if and only if no name on it is empty or is matched by an earlier sibling |
| `FdtLeftOver.SlashedNotFound` | riscv-isa-sim/fdt/fdt_ro.c:536-541 | a root with subnodes a/b and c: the path of c is written as /a/c, which is not found, in five bytes or more, and as /c, which is found, in three or four |
| `FdtBlob.Blob.SpliceData` | riscv-isa-sim/fdt/fdt_rw.c:52-65 | moves the tail of the data and nothing else, with the exact conditions of the two errors |
| `FdtBlob.Blob.SpliceStruct` | riscv-isa-sim/fdt/fdt_rw.c:80-92 | splices the structure block; strings and reserve map decode as before at their new offsets, and nothing changes on error |
| `FdtBlob.FindString` | riscv-isa-sim/fdt/fdt.c:268-281 | returns the least offset at which the name and its NUL lie in the strings, and nothing exactly when they lie nowhere |
| `FdtBlob.LiesWhereRead` | riscv-isa-sim/fdt/fdt.c:268-281 | they lie somewhere if and only if some offset is read back as that name |
| `FdtBlob.Blob.FindAddString` | riscv-isa-sim/fdt/fdt_rw.c:115-139 | returns an offset at which exactly that string is read, the least one where the string was there; then and only then the table does not grow; no space exactly when a string that is not there has no room; every existing string keeps its offset |
| `FdtBlob.Blob.AddProperty` | riscv-isa-sim/fdt/fdt_rw.c:188-218 | inserts a first property with that name and length, or changes nothing and rolls back the string it added |
| `FdtBlob.Blob.ResizeProperty` | riscv-isa-sim/fdt/fdt_rw.c:170-186 | gives the first property of that name another length and changes nothing else, with the exact condition of each error |
| `FdtBlob.Blob.Setprop` | riscv-isa-sim/fdt/fdt_rw.c:243-274 | sets the first property of that name or adds it first; on failure tree and strings are what they were; the error conditions are exact; the reserve map stays |
| `FdtMeaning.SetInMeaning` | riscv-isa-sim/fdt/fdt_rw.c:261-274 | in the meaning of the whole blob a set property changes that property of that node and nothing else |
| `FdtMeaning.SetPropLookup` | riscv-isa-sim/fdt/fdt_rw.c:261-274 | a lookup after setting gives the new value for that name and the old one for every other name |
| `FdtMeaning.TreePutHere` | riscv-isa-sim/fdt/fdt_rw.c:261-274 | the edited subtree is what is found at the place of the edit |
| `FdtMeaning.TreePutElsewhere` | riscv-isa-sim/fdt/fdt_rw.c:261-274 | every node outside the edited subtree keeps its name and properties |
| `FdtBlob.Blob.Delprop` | riscv-isa-sim/fdt/fdt_rw.c:303-316 | removes the bytes of the first property of that name, or reports not found exactly when there is none |
| `FdtMeaning.DelPropMeaning` | riscv-isa-sim/fdt/fdt_rw.c:303-316 | the meaning loses the first property of that name and nothing else |
| `FdtBlob.Blob.AddSubnode` | riscv-isa-sim/fdt/fdt_rw.c:318-362 | adds an empty node before the other subnodes and returns its offset; exists, no space and bad offset exactly in their cases |
| `FdtMeaning.AddSubnodeMeaning` | riscv-isa-sim/fdt/fdt_rw.c:318-357 | the meaning gains an empty first subnode of that name and nothing else changes |
| `FdtBlob.Blob.DelNode` | riscv-isa-sim/fdt/fdt_rw.c:364-376 | removes the node with everything below it and nothing else |
| `FdtMeaning.DelNodeMeaning` | riscv-isa-sim/fdt/fdt_rw.c:364-376 | the meaning loses exactly that subnode of its parent |
| `FdtBlob.Blob.NopRegion` | riscv-isa-sim/fdt/fdt_wip.c:51-57 | overwrites the region, rounded up to whole words, with NOP tags and nothing else |
| `FdtBlob.Blob.NopProperty` | riscv-isa-sim/fdt/fdt_wip.c:59-71 | replaces the first property of that name by NOPs in place |
| `FdtBlob.Blob.NopNode` | riscv-isa-sim/fdt/fdt_wip.c:83-94 | replaces the node and everything below it by NOPs in place |
| `FdtMeaning.NopMeansDelete` | riscv-isa-sim/fdt/fdt_wip.c:51-94 | any item replaced by NOPs and the same item removed leave the same meaning |
| `FdtPack.NumMemRsv` | riscv-isa-sim/fdt/fdt_ro.c:149-185 | counts the reserve entries before the first of size zero, or reports a truncated map |
| `FdtPack.CountIsFirst` | riscv-isa-sim/fdt/fdt_ro.c:175-185 | a count is the index of the first entry of size zero |
| `FdtRsv.ReserveRoundTrip` | riscv-isa-sim/fdt/fdt_sw.c:180-209 | a reserve map written entry by entry and terminated is counted as ending at the first entry of size zero, after all of them if there is none, and every entry is read back with its address and size |
| `FdtPack.Pack` | riscv-isa-sim/fdt/fdt_rw.c:378-476 | in place: same tree, same strings, the reserve entries with their terminator; the blocks follow the header without a gap and the total size is their end |
| `FdtSw.SwBlob.Create` | riscv-isa-sim/fdt/fdt_sw.c:105-142 | starts an empty blob, or leaves the buffer alone with the exact error |
| `FdtSw.SwBlob.AddReservemapEntry` | riscv-isa-sim/fdt/fdt_sw.c:180-198 | appends one entry to the reserve map, or nothing with the exact error |
| `FdtSw.SwBlob.FinishReservemap` | riscv-isa-sim/fdt/fdt_sw.c:200-209 | appends the terminating entry and opens the blob for nodes |
| `FdtSw.SwBlob.GrabSpace` | riscv-isa-sim/fdt/fdt_sw.c:90-103 | grows the structure block up towards the strings exactly when the two still do not meet |
| `FdtSw.SwBlob.BeginNode` | riscv-isa-sim/fdt/fdt_sw.c:211-226 | appends one begin-node call to what has been written, or nothing with the exact error |
| `FdtSw.SwBlob.EndNode` | riscv-isa-sim/fdt/fdt_sw.c:228-240 | appends one end-node call to what has been written, or nothing with the exact error |
| `FdtSw.SwBlob.AddString` | riscv-isa-sim/fdt/fdt_sw.c:242-257 | puts the string below the others and returns its offset from the end; other offsets from the end keep their strings |
| `FdtSw.RoomTest` | riscv-isa-sim/fdt/fdt_sw.c:242-257 | the 32-bit test for room is right if and only if the string table with the new string is no longer than the whole blob; beyond that it always finds room |
| `FdtSw.SwBlob.FindAddString` | riscv-isa-sim/fdt/fdt_sw.c:268-283 | returns an offset from the end at which exactly that name is read; adds the name exactly when deduplication is off or the name lies nowhere in the strings, and else returns the first place where it lies |
| `FdtSw.SwBlob.PropertyPlaceholder` | riscv-isa-sim/fdt/fdt_sw.c:285-315 | appends one property of that name and length and returns where its value goes; on failure the string added is rolled back |
| `FdtSw.SwBlob.Property` | riscv-isa-sim/fdt/fdt_sw.c:317-327 | appends one property call with name and value, or nothing with the exact error |
| `FdtSw.SwBlob.Resize` | riscv-isa-sim/fdt/fdt_sw.c:144-178 | moves a partly built blob to any other place and size, whatever the overlap; blocks and everything written are the same |
| `FdtWriter.WrittenDecodes` | riscv-isa-sim/fdt/fdt_sw.c:211-240 | tokens that stand for the depth-first calls of a tree, closed by the end tag, decode to exactly that tree |
| `FdtWriter.StoreNameOff` | riscv-isa-sim/fdt/fdt_sw.c:352-368 | storing a relocated offset changes the name of that property and no other byte |
| `FdtSw.SwBlob.RelocateNames` | riscv-isa-sim/fdt/fdt_sw.c:352-372 | rewrites every negative name offset, and no other word, so that it counts from the start of the strings |
| `FdtWriter.FinishDecodes` | riscv-isa-sim/fdt/fdt_sw.c:329-376 | relocated tokens written by the calls of a tree decode to that tree |
| `FdtSw.SwBlob.Finish` | riscv-isa-sim/fdt/fdt_sw.c:329-376 | if the calls written are the depth-first calls of a tree the finished blob decodes to exactly that tree; on failure nothing changes |
| `FdtBuild.WriteTree` | riscv-isa-sim/fdt/fdt_sw.c:211-327 | the begin, property and end calls made for a whole tree append exactly its depth-first calls, and fail for lack of space exactly when the blob with all of them is larger than the buffer |
| `FdtBuild.RoomForNames` | riscv-isa-sim/fdt/fdt_sw.c:242-257 | in a buffer that has room for all of the calls the 32-bit test for room never goes wrong |
| `FdtBuild.Build` | riscv-isa-sim/fdt/fdt_sw.c:105-376 | a blob created, written for any tree and finished decodes to exactly that tree, with an empty reserve map; the calls succeed exactly when header, reserve map, structure block and the names that lie nowhere yet fit in the buffer, and that is its size |
| `FdtOverlay.ApplyProperties` | riscv-isa-sim/fdt/fdt_overlay.c:556-577 | sets on the target every property of the overlay node, in order |
| `FdtOverlay.ApplySubnodes` | riscv-isa-sim/fdt/fdt_overlay.c:579-600 | merges every subnode of the overlay node, in order, matching or added |
| `FdtOverlay.ApplyNode` | riscv-isa-sim/fdt/fdt_overlay.c:556-601 | on success the target means the recursive merge of what it meant with the overlay node; on failure only the target subtree has changed; no space is the only error |
| `FdtOverlay.OffsetKept` | riscv-isa-sim/fdt/fdt_overlay.c:556-601 | a target offset held across splices stays that of its node while only the tree below it changes |
| `FdtOverlay.MergingMeaning` | riscv-isa-sim/fdt/fdt_overlay.c:556-601 | outside the target the base means what it meant |
| `FdtMerge.MergeIsDeep` | riscv-isa-sim/fdt/fdt_overlay.c:543-601 | with unambiguous sibling names the merge has, at every path and name, the last overlay value where there is one and the base value elsewhere, and a node exactly where one of the two has one |
| `FdtMerge.LookupIsLast` | riscv-isa-sim/fdt/fdt_overlay.c:556-577 | where the overlay node gives no property twice, the value merged is the one a lookup in the overlay finds |
| `FdtMerge.TwoValues` | riscv-isa-sim/fdt/fdt_overlay.c:556-577 | with two values of one property the merge has the second, and a lookup in the overlay finds the first |
| `FdtPhandle.GetPhandleAt` | riscv-isa-sim/fdt/fdt_ro.c:487-502 | returns the phandle that the node means: phandle, else linux,phandle, else zero |
| `FdtRenumber.PhandleIs` | riscv-isa-sim/fdt/fdt_ro.c:487-502 | the phandle of a node is the big-endian word of phandle, if that has four bytes, else of linux,phandle, if that has, else zero |
| `FdtPhandle.FindMaxPhandle` | riscv-isa-sim/fdt/fdt_ro.c:103-129 | returns a phandle of the blob, or zero, that no node of the blob exceeds |
| `FdtPhandle.SetWord` | riscv-isa-sim/fdt/fdt_wip.c:13-31 | for any 32-bit place: the word of the property is stored when it lies in the value, no node or item moves, and the two errors come exactly when the property is missing or the wrapping bounds test fails |
| `FdtFixup.PlaceOutside` | riscv-isa-sim/fdt/fdt_wip.c:26-27 | a place outside the value is answered with an error except exactly when its end wraps around to no more than the size of the value; then the call succeeds and raises nothing |
| `FdtInPlace.ValueSteady` | riscv-isa-sim/fdt/fdt_wip.c:13-49 | storing a value of the same size moves no node and no item of the tree |
| `FdtPhandle.PhandleAddOffset` | riscv-isa-sim/fdt/fdt_overlay.c:116-139 | raises the property by the offset, or fails exactly for a wrong size or a sum that reaches the largest word |
| `FdtPhandle.AdjustNodePhandles` | riscv-isa-sim/fdt/fdt_overlay.c:156-177 | result and new meaning are those of the recursive renumbering, the partial change up to the first error included; nothing moves |
| `FdtRenumber.AdjustSucceeds` | riscv-isa-sim/fdt/fdt_overlay.c:116-177 | renumbering succeeds if and only if at every node both phandle properties, where present, are words that stay below the largest one |
| `FdtRenumber.AdjustedAt` | riscv-isa-sim/fdt/fdt_overlay.c:156-177 | after success every node has the properties it had, with the two phandle properties raised and no other change |
| `FdtRenumber.AboveTheBase` | riscv-isa-sim/fdt/fdt_overlay.c:829-843 | renumbered by the largest base phandle, an overlay phandle lies above every base phandle if it was not zero, and above the largest one only then |
| `FdtReference.FixProperty` | riscv-isa-sim/fdt/fdt_overlay.c:228-284 | the words that a fixup property lists are raised in place in the property of that name, up to the first place that the wrapping bounds test refuses |
| `FdtReference.UpdateReferences` | riscv-isa-sim/fdt/fdt_overlay.c:220-305 | result and new meaning are those of the recursive fixing of the tree by the fixup nodes, which are read as they are at the time, also where they are fixed themselves; fixup offsets held across stores stay valid |
| `FdtFixup.OwnIsFix` | riscv-isa-sim/fdt/fdt_overlay.c:286-305 | a fixup node without a subnode named like itself does not change while it is used, so that it is applied as it was |
| `FdtFixup.FixedAt` | riscv-isa-sim/fdt/fdt_overlay.c:220-305 | after success every property of every node is what raising the words at the places that the fixups list for it, one after another, makes of it |
| `FdtFixup.ReferencesKept` | riscv-isa-sim/fdt/fdt_overlay.c:156-305 | a word that named a node by its phandle and is listed k times, with no other listed word overlapping it, names the same node afterwards if and only if k - 1 times the number added is zero modulo 2^32 |
| `FdtFixup.RenumberKeeps` | riscv-isa-sim/fdt/fdt_overlay.c:829-847 | when the whole renumbering succeeds, every node has its phandle raised once, every nonzero overlay phandle lies above every base phandle, and every word that is listed once names the node it named |
| `FdtFixupCases.TwiceListedLost` | riscv-isa-sim/fdt/fdt_overlay.c:258-283 | an overlay that lists one reference twice: renumbering succeeds and the reference no longer leads to its node |
| `FdtFixupCases.FixedFixupsLost` | riscv-isa-sim/fdt/fdt_overlay.c:286-305 | an overlay whose fixup node has a subnode named like itself: renumbering succeeds and a reference listed once is not raised |
| `FdtFixupCases.GivenTwiceLost` | riscv-isa-sim/fdt/fdt_overlay.c:156-305 | an overlay whose fixup node has two properties named phandle: renumbering succeeds and a phandle is raised twice |
| `FdtFixup.PhandleListed` | riscv-isa-sim/fdt/fdt_overlay.c:156-305 | a phandle property that is listed is raised once, as one that is not: the place that lists it is itself a phandle property and has been raised, and either lies outside the value, where the wrapping bounds test lets it through, or nothing is added |
| `FdtReference.Renumber` | riscv-isa-sim/fdt/fdt_overlay.c:829-847 | error and new meaning of the overlay are those of the renumbering of the tree it meant, its own fixup node looked up in it, by an offset that is a phandle of the base, or zero, and that no base phandle exceeds |
| `Pmp.NapotIsInterval` | riscv-isa-sim/riscv/csrs.cc:138-159 | outside TOR mode an address matches exactly when it lies in the aligned interval whose size is set by the trailing ones of the register, widened to the granularity |
| `PmpRules.MatchIsRange` | riscv-isa-sim/riscv/csrs.cc:126-159 | an entry matches exactly the addresses of its range, which is given from the mode, the address register and the one before it by clearing bits below the granularity and counting ones |
| `PmpRules.SubsetIsPartial` | riscv-isa-sim/riscv/csrs.cc:161-181 | the subset test refuses an aligned power-of-two block exactly when the entry matches some of its addresses and not others, or is a TOR entry with its bounds in the wrong order and the block begins below both and reaches the lower one |
| `PmpRules.PermittedIs` | riscv-isa-sim/riscv/csrs.cc:183-215 | without MML a configuration permits the types whose bit is set, and in M-mode without the lock everything; with MML it permits what the sixteen rows of the Smepmp table say for M-mode and for the others |
| `Pmp.EntryHomogeneous` | riscv-isa-sim/riscv/csrs.cc:161-181 | an entry that the subset test passes matches every address of an aligned power-of-two block or none |
| `Pmp.CheckPmp` | riscv-isa-sim/riscv/mmu.cc:343-373 | the loop over entries and four-byte steps returns what the specification of the check says, which is what PmpRules.Answer says of it |
| `PmpRules.Answer` | riscv-isa-sim/riscv/mmu.cc:343-373 | an access is allowed exactly when there are no entries, or the lowest-numbered entry whose range holds any four-byte step of it holds every step and permits the type in that mode, or no range holds any step and it is an M-mode access with MMWP clear that is no fetch under MML |
| `Pmp.CheckHomogeneous` | riscv-isa-sim/riscv/mmu.cc:375-388 | returns whether no entry may match part of the block only |
| `Pmp.HomogeneousIsSound` | riscv-isa-sim/riscv/mmu.cc:343-388 | in an accepted aligned block every two naturally aligned accesses of one type and mode get the same answer |
| `PmpLock.PmpCsrs.WritePmpAddr` | riscv-isa-sim/riscv/csrs.cc:109-136 | the new registers are those of the specification of a write (PmpWrites.AddrWritten); the answer is no exactly when nothing may change |
| `PmpLock.PmpCsrs.WritePmpCfg` | riscv-isa-sim/riscv/csrs.cc:239-279 | the loop over the configuration bytes gives the registers of the specification of a write (PmpWrites.CfgWritten) |
| `PmpLock.PmpCsrs.WriteMseccfg` | riscv-isa-sim/riscv/csrs.cc:305-332 | the sticky and lockable bits after the write are those of its specification (PmpWrites.StickyBits and BypassWritten) |
| `PmpWrites.CfgWritten` | riscv-isa-sim/riscv/csrs.cc:239-279 | each implemented entry written without the bypass keeps its byte exactly when it is locked or, under MML, the byte is one of those that let M-mode execute; else it has the L, X and R of the byte, its W unless MML and R are clear, its A with NAPOT for NA4 exactly when the grain is not zero, and no reserved bit; every other entry and every address stays |
| `PmpWrites.StoredOnce` | riscv-isa-sim/riscv/csrs.cc:239-279 | what is stored for a byte is determined by that |
| `PmpWrites.AddrWritten` | riscv-isa-sim/riscv/csrs.cc:101-136 | an address takes effect, as exactly its low 54 bits, if and only if the entry is implemented and the bypass is set or neither the entry is locked nor the next one is a locked TOR entry; nothing else changes |
| `PmpWrites.StickyBits` | riscv-isa-sim/riscv/csrs.cc:305-332 | after any run of writes MML is set exactly when it was or some write of the run asked for it, and so for MMWP |
| `PmpWrites.BypassWritten` | riscv-isa-sim/riscv/csrs.cc:305-332 | the bypass takes the value written unless it is off and an implemented entry is locked; entries stay |
| `PmpLock.LocksHold` | riscv-isa-sim/riscv/csrs.cc:109-332 | over every run of writes with RLB clear and an entry locked: RLB stays clear, locked entries keep configuration and address, MML and MMWP never clear |
| `PmpLock.LockedRangeKept` | riscv-isa-sim/riscv/csrs.cc:109-279 | a locked entry matches exactly the same addresses after every run of writes, a TOR base included |
| `PmpLock.MFetchIs` | riscv-isa-sim/riscv/csrs.cc:183-215 | under MML an entry grants M-mode fetch exactly when its configuration is one that the write refuses to add |
| `PmpLock.MFetchNeverGrows` | riscv-isa-sim/riscv/csrs.cc:183-279 | once MML is set, after every run of writes an entry that grants M-mode fetch granted it before, over the same addresses |
| `Mmu.WalkLoop` | riscv-isa-sim/riscv/mmu.cc:484-579 | the loop over the levels gives the result and the page tables of the recursive walk, which are what MmuRules.WalkIs and MmuRules.TablesAfter say |
| `MmuRules.WalkIs` | riscv-isa-sim/riscv/mmu.cc:484-579 | a page is found if and only if the address is canonical and, from the root, each entry lies in memory that PMP lets supervisor mode read and is a valid pointer with R, W, X, A, D, U, N, PBMT and reserved bits clear, down to a valid aligned leaf, not W without R, with X to fetch, R (or X with MXR) to load, R and W to store, U that fits the mode and SUM, A (and D to store) set or settable, and a well-formed range; the page is the one of that leaf. The walk ends in an access fault exactly when one of these entries may not be read, or the bits may not be stored |
| `MmuRules.TablesAfter` | riscv-isa-sim/riscv/mmu.cc:541-570 | a walk that finds a page sets the missing accessed and dirty bits of the leaf and nothing else; any other changes nothing but where the leaf marks a badly formed range, whose bits are set before the page fault |
| `MmuRules.FieldsAre` | riscv-isa-sim/riscv/mmu.cc:512-556 | the fields of an entry are the bits of its word at the places of the format |
| `MmuRules.CanonicalIs` | riscv-isa-sim/riscv/mmu.cc:500-505 | an address is accepted exactly when all its bits from the top one of the virtual address space on are equal |
| `MmuRules.Geometry` | riscv-isa-sim/riscv/mmu.h:496-514 | for each mode, levels and index width make up the width of its virtual addresses, a table fills one page and the root is the page that satp names |
| `MmuRules.Untranslated` | riscv-isa-sim/riscv/mmu.cc:484-499 | without translation the page is that of the address, cut to the width of a register |
| `Mmu.DecodeSetAd` | riscv-isa-sim/riscv/mmu.cc:541-556 | or-ing the accessed and dirty bits into an entry changes these two fields and nothing else |
| `Mmu.WalkGrows` | riscv-isa-sim/riscv/mmu.cc:484-579 | a walk changes page tables by accessed and dirty bits of leaves only |
| `Mmu.WalkAgain` | riscv-isa-sim/riscv/mmu.cc:484-579 | a translation once found is found again, without a further change, in page tables that only gained such bits |
| `Mmu.SamePage` | riscv-isa-sim/riscv/mmu.cc:484-579 | access types that translate at all translate to the same page |
| `Mmu.LeafIsSum` | riscv-isa-sim/riscv/mmu.cc:559-568 | the page number built by or-ing is the specified sum of leaf base and offset |
| `Mmu.NapotRange` | riscv-isa-sim/riscv/mmu.cc:559-568 | the pages that a Svnapot entry and another entry of its group give are as far apart as the virtual pages of the range if and only if the other one holds the same range number or, marking no range, the page number that the range gives its page |
| `Mmu.WalkFromNapot` | riscv-isa-sim/riscv/mmu.cc:505-570 | the walks of two pages of one 64 KiB Svnapot range read the same entries above the last level and there two entries of one group of sixteen; their pages are as far apart as the virtual ones if and only if these two agree in that way |
| `Mmu.WalkNapot` | riscv-isa-sim/riscv/mmu.cc:484-579 | the same for whole walks |
| `Mmu.NapotCanDisagree` | riscv-isa-sim/riscv/mmu.cc:484-579 | page tables with two entries of one group that disagree: neighbouring virtual pages of one range, both found, seventeen pages apart |
| `Mmu.WalkFromLinear` | riscv-isa-sim/riscv/mmu.cc:505-570 | two virtual pages in the range of one leaf other than an Svnapot one read the same entries, set the same bits and map to pages the same distance apart |
| `Mmu.WalkLinear` | riscv-isa-sim/riscv/mmu.cc:484-579 | the same for whole walks, the canonical-address check included |
| `Mmu.WalkFits` | riscv-isa-sim/riscv/mmu.cc:55-69 | no physical address that a walk comes to wraps around |
| `Tlb.MmuState.constructor` | riscv-isa-sim/riscv/mmu.cc:9-43 | a fresh unit is valid: every tag invalid |
| `Tlb.MmuState.FlushTlb` | riscv-isa-sim/riscv/mmu.cc:36-43 | all tags are invalid and the unit is valid for any page tables |
| `Tlb.MmuState.Translate` | riscv-isa-sim/riscv/mmu.cc:55-69 | the result is the walk followed by the PMP check, and the cache stays valid for the page tables the walk left |
| `Tlb.PageChecked` | riscv-isa-sim/riscv/mmu.cc:330-336 | the one PMP check made, with homogeneity, holds for every access inside the page |
| `Tlb.MmuState.RefillTlb` | riscv-isa-sim/riscv/mmu.cc:311-341 | tags and data after the refill are exactly the specified ones, and every valid tag still names a page that walk and PMP give |
| `Tlb.TlbRefilled` | riscv-isa-sim/riscv/mmu.cc:311-341 | a refill of one index by an access of any type keeps all tags at that index naming one page with one translation |
| `Tlb.OneEntry` | riscv-isa-sim/riscv/mmu.cc:311-341 | fetches, loads and stores of a page that are cached at all are cached by the same entry, so that the three tag arrays can share one array of data |
| `Tlb.HitIsReference` | riscv-isa-sim/riscv/mmu.h:97-145 | a hit gives the same physical address and host place as walk and PMP check would, for any aligned access inside the page |
| `Tlb.MmuState.Load` | riscv-isa-sim/riscv/mmu.cc:192-222 | result and page tables are those of an access without a cache, on the fast path, the slow path and after a refill; with triggers on loads no load takes the fast path, which does not check them |
| `Tlb.MmuState.Store` | riscv-isa-sim/riscv/mmu.cc:253-278 | result and page tables are those of an access without a cache, and no store is made unchecked while there are triggers on stores |
| `Tlb.MmuState.Fetch` | riscv-isa-sim/riscv/mmu.cc:71-94 | result and page tables are those of an access without a cache, and no fetch is made unchecked while there are triggers on fetches |
| `AccessRules.AccessIs` | riscv-isa-sim/riscv/mmu.cc:55-69 | an access of any type comes to a place in memory exactly when the page tables give its page and permit it, that page is memory, and PMP allows the physical access in the mode of the access |
| `AccessRules.FaultsAre` | riscv-isa-sim/riscv/mmu.cc:55-69 | it ends in a page fault exactly when they give no page and every access of the walk is permitted, in an access fault exactly when one of those is not or PMP refuses the access itself |
| `DmState.WriteThenRead` | riscv-isa-sim/riscv/debug_module.cc:252-269 | a stored word is read back and every other word stays |
| `DmState.ProgramFits` | riscv-isa-sim/riscv/debug_module.cc:629-803 | the program of no command overruns its twelve words, and one that is run ends in a break or a jump to the program buffer |
| `DmState.CustomRegisters` | riscv-isa-sim/riscv/debug_module.cc:774-786 | after V was written to custom register n a read of register m gives V + m - n |
| `DmProgram.ProgramMoves` | riscv-isa-sim/riscv/debug_module.cc:642-797 | run on a hart from its first instruction, the program of a register access reads or writes exactly the register or CSR that the command names, 32 or 64 bits wide, and leaves every other one, s0 and mstatus included, but for the scratch registers; a write to the scratch register that holds s0 goes to s0 too |
| `DmProgram.NeverTraps` | riscv-isa-sim/riscv/debug_module.cc:661-670 | no instruction of such a program traps: floating-point state is switched on wherever a floating-point register or CSR is touched |
| `DmProgram.OutcomeIs` | riscv-isa-sim/riscv/debug_module.cc:642-803 | which commands have a program, which are custom accesses, and that the others are refused as not supported |
| `DebugModule.Module.Store` | riscv-isa-sim/riscv/debug_module.cc:166-250 | the module after a store of a hart is that of the specification, for data, program buffer and the four handshake addresses |
| `DmRules.HartReports` | riscv-isa-sim/riscv/debug_module.cc:202-240 | what the three numbers a hart stores change: its halted state, its GO and resume flags, its acknowledgement, and the completion of the command when the selected hart reports itself with no GO pending; nothing at any other hart |
| `DmRules.ExceptionReports` | riscv-isa-sim/riscv/debug_module.cc:202-240 | an exception is reported only if no error was reported before |
| `DebugModule.Module.RunTestIdle` | riscv-isa-sim/riscv/debug_module.cc:601-608 | busy falls exactly when the idle cycles have run out and the command has completed |
| `DebugModule.Module.PerformAbstractCommand` | riscv-isa-sim/riscv/debug_module.cc:635-818 | each refusal, custom access and issue changes exactly what the specification says |
| `DmRules.CommandAnswer` | riscv-isa-sim/riscv/debug_module.cc:635-818 | a command is refused for the first of: error pending, busy, command type, hart not halted, access not supported, and then changes no flag, data or busy; else it is issued: busy, its program in place, and GO set for the selected hart and no other; a custom access is done at once |
| `DebugModule.Module.DmiWrite` | riscv-isa-sim/riscv/debug_module.cc:820-934 | the module after a write is that of the specification, automatic execution included (DmRules.WriteIs, ControlReads, ControlAsks, ErrorCleared, AutoReads) |
| `DebugModule.Module.DmiRead` | riscv-isa-sim/riscv/debug_module.cc:384-414 | value and module after a read are those of the specification, automatic execution included (DmRules.WrittenReads, StoredReads, ReadStarts) |
| `DebugModule.Module.Load` | riscv-isa-sim/riscv/debug_module.cc:125-163 | a hart loads the bytes that lie in the data registers or the program buffer at that address |
| `DmRules.WrittenReads` | riscv-isa-sim/riscv/debug_module.cc:384-405 | while no command executes, what the debugger writes to a data register or a word of the program buffer is what it then reads at that address, and at every other such address it reads what it read before |
| `DmRules.WriteIs` | riscv-isa-sim/riscv/debug_module.cc:827-850 | a write while no command executes is that word stored, followed by the command again exactly when the autoexec bit of that register is set |
| `DmRules.ReadStarts` | riscv-isa-sim/riscv/debug_module.cc:388-413 | a read starts the command again exactly when the autoexec bit of that register is set, and changes nothing else |
| `DmRules.BusyAccess` | riscv-isa-sim/riscv/debug_module.cc:384-413 | an access to a data register while a command executes reports busy only if no error was reported before, one to the program buffer does not; neither changes anything else |
| `DmRules.StoredReads` | riscv-isa-sim/riscv/debug_module.cc:189-200 | four bytes that a hart stores at the address of a data register or word of the program buffer are what the debugger then reads there, and every other one reads as before |
| `DmRules.LoadedReads` | riscv-isa-sim/riscv/debug_module.cc:150-158 | what a hart loads from there is the word that the debugger reads |
| `DmRules.CustomAnswer` | riscv-isa-sim/riscv/debug_module.cc:774-786 | a custom read gives the number of the register, counted from 0xc000, plus the base in data register 0 and zero in the other, and a custom write makes that register read as data register 0 |
| `DmRules.ErrorCleared` | riscv-isa-sim/riscv/debug_module.cc:925-927 | a write of the error field clears the bits written as one and nothing else |
| `DmRules.ControlReads` | riscv-isa-sim/riscv/debug_module.cc:855-875 | dmcontrol reads back as written, but for the acknowledgement and reserved bits, when it keeps the module on and names a hart that is there |
| `DmRules.ControlAsks` | riscv-isa-sim/riscv/debug_module.cc:877-903 | a write of dmcontrol asks exactly the harts it selects to halt or not and to resume, and acknowledges their reset; for the others nothing changes |
| `DmRules.ResetReads` | riscv-isa-sim/riscv/debug_module.cc:855-862 | after switching the module on no error, busy or autoexec bit reads as set |
| `DmRules.AutoReads` | riscv-isa-sim/riscv/debug_module.cc:929-934 | the autoexec fields read back as written |
| `DebugModule.Module.WriteControl` | riscv-isa-sim/riscv/debug_module.cc:855-903 | the loop over the harts gives the halt and resume requests of the specification |
| `Handshake.BusyWrite` | riscv-isa-sim/riscv/debug_module.cc:820-850 | while a command executes no write over the debug interface changes data, program buffer, abstract program or a GO flag |
| `Handshake.BusyRead` | riscv-isa-sim/riscv/debug_module.cc:384-414 | while a command executes a read changes none of these and gives all ones for words the command may use |
| `Handshake.StepKeeps` | riscv-isa-sim/riscv/debug_module.cc:202-238 | every step of a hart, access or idle cycle keeps the invariant of the handshake |
| `Handshake.BusyFalls` | riscv-isa-sim/riscv/debug_module.cc:202-238 | in every interleaving busy falls only at an idle cycle after the selected hart went through the program of that command exactly once |
| `Handshake.GoIsSelected` | riscv-isa-sim/riscv/debug_module.cc:809-815 | in every interleaving GO is set only for the selected hart and only while its command executes |
| `Handshake.OnlyTheProgramStores` | riscv-isa-sim/riscv/debug_module.cc:187-198 | in every interleaving, while a command executes, data and program buffer differ from those at issue by the stores of the program only |
| `Handshake.ReportsAreTrue` | riscv-isa-sim/riscv/debug_module.cc:202-240 | in every run, whatever the debugger writes, a hart reported as halted has not left the debug ROM, and a resume is not acknowledged before the hart leaves |
| `Handshake.CanFinish` | riscv-isa-sim/riscv/debug_module.cc:601-608 | unless the selected hart has left the ROM before seeing GO and is not asked to halt, a bounded number of its steps and idle cycles ends the command |
| `Handshake.CannotFinish` | riscv-isa-sim/riscv/debug_module.cc:202-240 | if it has, no steps of any harts and no idle cycles end the command, whatever their number and order |
| `HandshakeRuns.GoneIsReachable` | riscv-isa-sim/riscv/debug_module.cc:855-888 | from every start ordinary writes and hart steps reach that state: a command issued to a hart that has just seen its resume flag |
| `Handshake.SelectionMatters` | riscv-isa-sim/riscv/debug_module.cc:855-888 | selecting another halted hart while GO is pending makes busy fall without the program having run |
| `HandshakeRuns.SelectionIsReachable` | riscv-isa-sim/riscv/debug_module.cc:855-888 | with two harts a run from every start leads to a command pending for one hart while the other is about to report itself halted |
| `HandshakeRuns.ResetMatters` | riscv-isa-sim/riscv/debug_module.cc:855-875 | switching the module off and on while GO is pending makes busy fall without the program having run, with GO still set |
| `Memif.ChunkedMem.ReadChunk` | riscv-isa-sim/fesvr/memif.cc:9-40 | a chunk read requires an aligned address, a multiple of the alignment and a length within the limit, and copies exactly those bytes |
| `Memif.ChunkedMem.WriteChunk` | riscv-isa-sim/fesvr/memif.cc:42-84 | a chunk write requires the same and changes exactly those bytes |
| `Memif.MemIf.Read` | riscv-isa-sim/fesvr/memif.cc:9-40 | returns exactly the bytes at the address, for any alignment and length |
| `Memif.MemIf.Write` | riscv-isa-sim/fesvr/memif.cc:42-84 | changes exactly the bytes at the address, for any alignment and length |
| `Memif.ReadBack` | riscv-isa-sim/fesvr/memif.cc:9-84 | reading back a written range gives what was written, and a disjoint range what was there |
| `CacheSim.IndexShift` | riscv-isa-sim/riscv/cachesim.cc:40-61 | the loop over the line size gives its logarithm |
| `CacheSim.TagsTellHistory` | riscv-isa-sim/riscv/cachesim.cc:100-182 | every valid word is in the set its index bits name, no line is held twice, and a line is dirty exactly when stored to since it was last evicted, cleaned or invalidated |
| `CacheSim.CacheSim.CheckTag` | riscv-isa-sim/riscv/cachesim.cc:100-110 | hits exactly when the history says that the line is held |
| `CacheSim.CacheSim.Victimize` | riscv-isa-sim/riscv/cachesim.cc:112-119 | replaces any one word of the set of a line that is not held |
| `CacheSim.CacheSim.Access` | riscv-isa-sim/riscv/cachesim.cc:121-157 | history, counters and requests below after a hit, a read miss and a write miss, with a dirty victim written back at its own line address; writebacks and dirty lines together never exceed write accesses |
| `CacheSim.CacheSim.CleanInvalidate` | riscv-isa-sim/riscv/cachesim.cc:159-182 | exactly the held lines of the range are cleaned or invalidated, and writebacks are counted for the dirty ones cleaned |
| `CacheSim.FlushedMeans` | riscv-isa-sim/riscv/cachesim.cc:159-182 | after a flush a line is held or dirty exactly when it was and the range and mode do not say otherwise |
| `CacheSim.FlushRange` | riscv-isa-sim/riscv/cachesim.cc:159-165 | a flush visits exactly the lines that hold one of the bytes if and only if their end, rounded up to a line, does not wrap around |
| `CacheSim.LastLineMissed` | riscv-isa-sim/riscv/cachesim.cc:159-165 | the last line of the address space is not visited by a flush of all its bytes |
| `CacheSim.EmptyRange` | riscv-isa-sim/riscv/cachesim.cc:159-165 | a flush of no bytes visits a line if and only if it starts inside one that is not the last; it is that line |
| `Arith.PartialSum` | riscv-isa-sim/riscv/arith.h:12-30 | no partial sum of the schoolbook multiplication wraps |
| `Arith.LastSum` | riscv-isa-sim/riscv/arith.h:12-30 | the last partial sum is at most the largest word but one, and that much exactly for two largest operands |
| `Arith.Mulhu` | riscv-isa-sim/riscv/arith.h:12-30 | returns the floor of the unsigned product divided by 2^64 |
| `Arith.Mulh` | riscv-isa-sim/riscv/arith.h:32-37 | returns the floor of the signed product divided by 2^64, the least word included |
| `Arith.Mulhsu` | riscv-isa-sim/riscv/arith.h:39-44 | returns the floor of the signed by unsigned product divided by 2^64 |
| `Arith.SatAdd` | riscv-isa-sim/riscv/arith.h:47-66 | returns the clamped sum; the flag is set exactly when the true sum is out of range |
| `Arith.SatAdd3` | riscv-isa-sim/riscv/arith.h:68-87 | returns the clamped sum of three; the flag is set exactly when the true sum is out of range |
| `Arith.OrderMatters` | riscv-isa-sim/riscv/arith.h:68-87 | adding in the given order would give another result exactly when the first sum saturates and the third operand points back into range |

## Left out

libfdt:

- Header words are fields of the blob object, not bytes of the buffer; magic, version, checksums of block offsets and the probes of each function are taken to hold. Versions below 17 are not modelled.
- The root node cannot be deleted or overwritten with NOPs here (`FdtBlob.Blob.DelNode`, `FdtBlob.Blob.NopNode`).
- Offsets passed to the read-write operations are those of nodes, or ones that the header check rejects; offsets into the middle of a value that happen to look like a node are not modelled.
- FdtPath.PathOffset: absolute paths only; aliases are not part of this model.
- FdtPath.GetPath: the offset lies before the end of the root node; from there on the source backs up over the root's name to before the buffer.
- FdtRoundTrip.PathRoundTrip: the root has the empty name; the path of any other root does not start with a slash.
- FdtPack.Pack: the reserve map ends inside its block; the source would move a wrong number of bytes otherwise.
- FdtSw.SwBlob.PropertyPlaceholder: the string table with the name is no longer than the blob; the source finds room beyond that too (`FdtSw.RoomTest`) and stores before the buffer.
- FdtBuild.Build: the same condition on the names that are reached, which a buffer large enough for the tree meets (`FdtBuild.RoomForNames`), and any buffer when names are shorter than the header (`FdtBuild.ShortNamesFit`).
- FdtSw.SwBlob.Resize: the two places lie in one memory, which is what makes overlap possible.
- FdtOverlay.ApplyNode: written as several methods, one for each loop and loop body; target lookup, external fixups and symbols of an overlay are not modelled.
- FdtPhandle.SetWord: a store that the wrapping bounds test lets through outside the value goes four gigabytes past it, to no byte of the blob.
- FdtReference.FixProperty: the word at a place outside the value is not read.
- FdtReference.Renumber: magic words are not erased.
- fdt_open_into, fdt_set_name, appending to a property, string lists and compatible lookups.

Address translation:

- Two-stage translation (the second stage is the identity), device memory beyond its address, page tables in device memory, memory tracers, what triggers match and do, big-endian targets, misaligned accesses and load reservations.
- Mmu.WalkLoop: Sv64 is not modelled, since its canonical-address check shifts by more than a word; satp is given as mode and page number.
- Pmp.CheckPmp: the address mask, the number of entries and the granularity are parameters.
- Tlb.MmuState.Load: the bytes are not copied; the outcome is the place in physical and host memory, or the device or fault.
- Tlb.MmuState.Store: stores that only probe for permission are not modelled.
- Changes of CSRs are a new unit; between flushes the configuration is constant and page tables change by accessed and dirty bits only.
- PmpLock.PmpCsrs.WritePmpCfg: the bytes of the value are given as a sequence; reads of the registers and permission traps are not modelled.

Debug module:

- Authentication, system bus access, halt groups, hart reset, hart availability and the array window (the array itself is there) are not modelled; dmstatus, hartinfo and the registers of what is left out read as unspecified values.
- DebugModule.Module.PerformAbstractCommand: the words of the program are computed first and then written, and are instructions before encoding.
- DmProgram.ProgramMoves: a hart of 64 bits whose CSRs are plain cells, one for each number; what a CSR does on being written, and those that are views of others, are not modelled. Encodings of instructions are not.
- Handshake.OnlyTheProgramStores: in the handshake a program is any sequence of stores to data and program buffer; it does not store to the handshake addresses.
- DebugModule.Module.Load: of the addresses a hart loads from, the ROM, the jump word, the flags and the program are not modelled as bytes.
- Handshake.BusyFalls: no reset and no change of the selected hart while a command executes; the jump word and the ROM are constant.
- Handshake.CanFinish: a running hart enters debug mode when it is asked to halt; what else makes it do so is an event of its own.

Others:

- CacheSim.CacheSim.Access: counters are unbounded; the next level is the list of requests made of it; the random choice of a way is a parameter.
- Arith.SatAdd: the test on sign bits is written as comparisons of signs.
- Arith.Mulhu: the final or of two half words without a common bit is a sum.
- Memif.MemIf.Write: addresses do not wrap around.
- The fully associative cache simulator, unsigned and subtracting saturation, and everything else in the repository.
