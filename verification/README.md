# Verified models of Spike's device tree library and reference models

This project models parts of the Spike RISC-V simulator in Dafny and proves that they do what
their documentation, and the standards they implement, promise. Run `dafny verify dfyconfig.toml`.

## What is modelled

**The flattened device tree library (libfdt)**, for version 17 of the format (chapter 5 of the
Devicetree Specification). `Tokens`, `Trees` and `Views` give a structure block three readings: bytes,
a list of tokens, and a tree. Padding and NOPs belong to the concrete tree, so that a block *is* the
encoding of its tree, and every operation can be stated as an equation.

- `Walks`, `Scan`, `Lookup`, `Cursors`, `Ancestry`, `Paths`, `PathLookup`, `Aliases`: the read-only loops over
  the bytes, and what they find in the tree: nodes, properties, ancestors, paths.
- `Blob`, `Splices`, `Edits`, `PropEdits`, `NodeEdits`, `Locations`: the edits of a blob in its buffer. Each
  method of the class `Fdt`, and each method that edits one, is an edit of the tree.
- `InPlace`, `Merges`, `Overlay`, `Phandles`, `References`, `Renumber`, `Fixups`: overlays. Merging a node,
  renumbering phandles, and fixing the overlay's references to itself.
- `Writer`, `Sequential`, `Parser`, `Builds`: the sequential writer as a class whose invariant ties the two
  growing blocks to a log of the calls made, and the parser that reads the result.
- `Checks`: the whole-blob check, on any bytes. `Constants`: the numbers of the format and of the library.
- `Repack`, `PackLimits`, `Reopen`, `Resizing`: blobs as byte ranges of one memory, header included, and the
  overlapping moves of `fdt_pack`, `fdt_open_into` and `fdt_resize`.

**The vector reduction reference model** (`Bits`, `ReductionOps`, `Expressions`, `ReductionLaws`, `Lanes`,
`Reductions`, `Instructions`): elements spread over lanes, accumulators and sub-word parts, and the linear and
tree merges. The proof follows each element through the lanes as a leaf of an expression; the algebra then
shows that for integer operations only the leaves matter.

**CPFloat rounding** (`Formats`, `CPFloat`, `RoundingProofs`, `Roundings`, `Specials`): the bit-level rounding
of binary32 patterns to a narrower format, proved correct against a definition of correct rounding on exact
integers (magnitudes are counted in units of 2^-149).

**Physical memory protection** (`Pmp`, `PmpMatch`): register writes as steps of a state machine, runs
of them, and the matching arithmetic on pages and regions.

**Memory access, cache simulator, arithmetic helpers** (`Memory`, `Cache`, `Arith`).

Conventions: a method of the C or C++ source is a Dafny method over the same state (a class, an array, or
a byte sequence that is only read). Offsets and paths that locate a node in the tree are ghost parameters. Error
codes keep their values, negated.

## Findings

Where a promised property fails, lemmas give the exact condition and an input. A method whose source
would access memory outside of its buffers, or pass on an address outside, says exactly when in an out-parameter
such as `escapes`; the model stops there. Pointers are taken to have 64 bits.

- `fdt_setprop_inplace_namelen_partial` adds in 32 bits, and `overlay_update_local_node_references` reads
  each listed word before that check: entries from 2^32 - 4 on can be answered with success
  (`PropEdits.FitsExact`, `References.StrayIs`, `References.StrayTaken`, `References.RefusedTooLate`).
- `fdt_add_string_` compares sizes in 32 bits, which wraps for a name longer than what is left
  of the buffer (`Writer.RoomCheckExact`, `Writer.RoomCheckWraps`, `Sequential.Sw.AddString`).
- `fdt_resize` adds up the size of the head in 32 bits (`Resizing.InsideExact`, `Resizing.HeadWraps`).
- `fdt_next_tag` does not advance at a property with the length word 2^32 - 12, and larger length words pass as
  negative lengths: `fdt_check_full` then does not end, or accepts what is no token list (`Checks.StuckIs`,
  `Checks.LoopsExample`, `Checks.AcceptedIffPlain`, `Checks.NegativeAccepted`).
- `fdt_get_path` reads before its buffer for an offset at or behind the end of the root (`Paths.GetPath`,
  `Paths.NoSlashLeft`, `Paths.BehindRoot`).
- `fdt_pack` computes a negative size when the reservation list does not end in the blob, and loses content when
  the list does not end before the structure block (`Repack.Pack`, `Repack.SafeInPlace`,
  `PackLimits.UnterminatedEscapes`, `PackLimits.OverlappingLoses`).
- `fdt_blocks_misordered_` adds offsets and sizes in 32 bits, so `fdt_pack` and `fdt_open_into` can go on with
  blocks that are not in the blob (`Repack.OrderExact`, `Repack.WrongOrder`, `PackLimits.WrappingEscapes`).
- `fdt_open_into` keeps the size of the new blob, and that of the reservation list, in an int: 2^31 bytes or more,
  or a list without an end, are taken for a negative size that fits (`Reopen.OpenInto`, `Reopen.SizeExact`,
  `Reopen.RoomExact`, `PackLimits.HugeEscapes`, `PackLimits.UnterminatedReopened`).
- `fdt_num_mem_rsv` bounds no offset in a blob smaller than one entry (`Parser.RsvExact`, `Parser.NumMemRsv`), and
  `fdt_get_mem_rsv` takes an entry number modulo 2^28 and then reads at the number itself (`Parser.GetMemRsv`,
  `Parser.RsvWraps`, `Parser.EntryFar`).
- `fdt_open_into`, reordering blocks, reads the boot CPU from the old header after the new blob has been
  moved, so it is kept when the new blob is clear of those four bytes (`Reopen.OpenReordered`,
  `Reopen.BootKept`, `Reopen.BootLost`, `Reopen.BootExample`).
- `fdt_add_subnode` takes the parent offset -1 for a missing child, overwrites the end of the reservation list, and
  answers with an error (`NodeEdits.AddSubnode`, `NodeEdits.StoreMisplaced`).
- `subset_match` also reports a top-of-range entry that is empty but ends inside the page
  (`PmpMatch.SubsetExact`, `PmpMatch.PhantomExample`). For caching a page this is merely cautious.
- The rounding macros treat the bits of a NaN like those of a number, and it can become an infinity or a zero
  (`Specials.NanCut`, `Specials.NanLost`).
- `clean_invalidate` computes the end of its range in 64 bits: a range that ends in the last line of the address space
  is skipped (`Cache.RangeExact`, `Cache.LastLineMissed`, `Cache.EmptyExact`).
- A phandle of value 0 in an overlay becomes the phandle of a base node (`Phandles.ZeroCollides`).
- `fdt_path_offset` recurses without end for an alias that leads back to itself (`Aliases.PathOffset`,
  `Aliases.EndlessIff`, `Aliases.EndlessAlias`).
- A path is found again exactly when no component of it matches an earlier sibling (`PathLookup.RoundTrip`,
  `PathLookup.ShadowedPath`).

## Model

| member | source | states |
|---|---|---|
| Tokens.NextTag | spike/fdt/fdt.c:131-182 | the loop returns exactly the tag and next offset that the format prescribes for the bytes at an offset, or the truncation or structure error |
| Tokens.TagAtToken | spike/fdt/fdt.c:131-182 | on the encoding of any valid token list, reading at token i yields its tag and the offset of token i + 1 |
| Constants.TokenBytes | spike/fdt/fdt.h:53-58 | one token of each kind, byte by byte |
| Constants.ErrorCodes | spike/fdt/libfdt.h:16-100 | the error codes are those of the library |
| Constants.Numbers | spike/fdt/fdt.h:50 | the magic numbers, and the sizes of the header and of a reservation |
| Tokens.OffAligned | spike/fdt/fdt.c:181 | every token starts at a multiple of four |
| Scan.NextNode | spike/fdt/fdt.c:202-240 | stops at the next BEGIN_NODE, at the END_NODE that leaves the start node, or at FDT_END, with the depth it has reached |
| Walks.WalkItems | spike/fdt/fdt.c:202-240 | repeated calls visit exactly the nodes of the tree in preorder, each at its depth, and leave a list at the depth they entered it |
| Scan.NameEqIs | spike/fdt/fdt_ro.c:13-32 | a node matches exactly its whole name, and the part in front of its first @ |
| Scan.SubnodeOffset | spike/fdt/fdt_ro.c:211-228 | finds the first child whose whole name, or part in front of the unit address, is the name; NOTFOUND means that no child has it |
| NodeEdits.ChildOffset | spike/fdt/fdt_ro.c:211-228 | that child is the first one of the tree, at its offset |
| Lookup.KidIndexIs | spike/fdt/fdt_ro.c:211-228 | so is the child of the tree that edits, paths and overlays mean by a name |
| Scan.NodeEndOffset | spike/fdt/fdt_wip.c:73-81 | returns the offset behind the END_NODE that belongs to the node |
| NodeEdits.NodeExtent | spike/fdt/fdt_wip.c:73-81 | from the offset of a node to that end lie exactly the bytes that encode the node |
| Scan.NextProp | spike/fdt/fdt_ro.c:187-209 | skips NOPs to the next property, or says why there is none |
| Scan.OffsetRefused | spike/fdt/fdt.c:184-200 | an offset that is negative, unaligned, or not at such a token is refused |
| Scan.GetProperty | spike/fdt/fdt_ro.c:379-406 | finds the first property of a name among the leading properties and NOPs of a node |
| Edits.FindProperty | spike/fdt/fdt_ro.c:379-406 | in terms of the tree: offset and length of the first property of that name, NOTFOUND exactly when there is none |
| Scan.FindString | spike/fdt/fdt.c:270-280 | the first offset that reads as the string, and -1 only when no offset of the block does |
| Cursors.PropertyFrom | spike/fdt/fdt_ro.c:324-340 | iterating over properties visits the property items of the node in order |
| Cursors.FirstSubnode | spike/fdt/fdt.c:242-251 | the first child item of the node, or NOTFOUND |
| Cursors.NextSubnode | spike/fdt/fdt.c:253-268 | the next sibling, whatever the subtree in between contains |
| Blob.Fdt.Splice | spike/fdt/fdt_rw.c:52-65 | the bytes behind the splice point move as one piece and all others stay; BADOFFSET and NOSPACE exactly when a limit is crossed, with the buffer unchanged |
| Blob.Fdt.SpliceStruct | spike/fdt/fdt_rw.c:80-92 | structure block spliced, strings block moved along whole, header sizes and offsets adjusted; nothing changes on failure |
| Blob.Fdt.FindAddString | spike/fdt/fdt_rw.c:115-139 | returns an offset that reads as the name, appending it exactly when no offset does; fails exactly when the appended name would not fit |
| Blob.Fdt.DelLastString | spike/fdt/fdt_rw.c:95-100 | takes back the string that was appended |
| Splices.SpliceRefines | spike/fdt/fdt_rw.c:80-92 | putting an encoded item list in place of items a..b of any list gives a well-formed block whose tree is the edited tree |
| Trees.EditToks | spike/fdt/fdt_rw.c:80-92 | an edit of a nested list is a splice of the flat token list |
| Edits.ResizeProperty | spike/fdt/fdt_rw.c:170-186 | the first property of the name gets the new length and keeps what fits of its value; NOSPACE exactly when the blob would outgrow totalsize |
| Edits.AddProperty | spike/fdt/fdt_rw.c:188-218 | a new first property with that name; NOSPACE exactly when header, value and a name that is not there yet do not fit, and then the added string is rolled back |
| PropEdits.SetProp | spike/fdt/fdt_rw.c:243-274 | the tree gets the value for the first property of that name, or a new first property; exact error and size conditions; a failing call leaves everything a reader sees unchanged |
| PropEdits.AppendProp | spike/fdt/fdt_rw.c:276-301 | the value is appended to the first property of that name, or becomes a new first property; exact error and size conditions |
| PropEdits.DelProp | spike/fdt/fdt_rw.c:303-316 | the tree loses the first property of that name and the blob its bytes; NOTFOUND exactly when there is none |
| PropEdits.NopProperty | spike/fdt/fdt_wip.c:59-71 | the tree loses the same property while every byte outside it stays |
| PropEdits.SetPropInplacePartial | spike/fdt/fdt_wip.c:13-31 | bytes idx.. of the value are overwritten and nothing else in the tree or in the shape of the block changes; NOTFOUND and NOSPACE exactly as the 32-bit check says; where the check is wrong the answer is 0, the copy goes to an address behind every blob, and the tree stays as it was |
| PropEdits.FitsExact | spike/fdt/fdt_wip.c:26 | for sizes below 2^31 the check is right exactly when idx + len does not wrap, or wraps to more than the value holds |
| PropEdits.SetPropInplace | spike/fdt/fdt_wip.c:33-49 | replaces the value when the length agrees, and answers NOSPACE otherwise |
| NodeEdits.SetName | spike/fdt/fdt_rw.c:220-241 | the node alone is renamed; NOSPACE exactly when the name area outgrows the blob |
| NodeEdits.AddSubnode | spike/fdt/fdt_rw.c:318-357 | a new first child behind the properties; EXISTS exactly when some child answers to the name; the returned offset is that of the new node; for the offset -1 the node is stored over the end of the reservation list and the answer is TRUNCATED |
| NodeEdits.StoreMisplaced | spike/fdt/fdt_rw.c:328-357 | what that call leaves: the first 8 bytes of the node stand in place of the last 8 of the list, and the structure block begins with the rest of the node and those 8 bytes |
| NodeEdits.DelNode | spike/fdt/fdt_rw.c:364-376 | the tree loses that child with its subtree and the blob its bytes |
| NodeEdits.NopNode | spike/fdt/fdt_wip.c:83-94 | the tree loses that child while every byte outside it stays |
| Edits.NopItem | spike/fdt/fdt_wip.c:51-57 | overwriting an item with NOPs leaves a well-formed block without the item and every other byte in place |
| Views.SetView | spike/fdt/fdt_rw.c:170-376 | new contents for one list are new contents for one node of the tree, and nothing else |
| Views.ViewExtend | spike/fdt/fdt_rw.c:102-139 | a grown strings block changes no name of the tree |
| Locations.EditedTree | spike/fdt/fdt_rw.c:170-376 | the edit theorem: after any of the edits the tree is the old tree with that one node updated |
| Locations.NamesAll | spike/fdt/fdt.c:184-191 | every BEGIN_NODE of a block is a node of the tree, so the edits speak about the offset of every token |
| InPlace.LikePlaces | spike/fdt/fdt_wip.c:13-49 | in-place edits move nothing: every item of every list keeps its token index and its offset |
| Overlay.Reenter | spike/fdt/fdt_overlay.c:556-601 | editing inside a node moves neither that node nor anything before it |
| Overlay.ApplyProps | spike/fdt/fdt_overlay.c:562-578 | the target has the overlay's properties set over its own, one after the other |
| Overlay.TargetChild | spike/fdt/fdt_overlay.c:585-594 | the child of the target that answers to the name, or a fresh first child; fails only for lack of space |
| Overlay.ApplyNode | spike/fdt/fdt_overlay.c:556-601 | on success the target is the recursive merge with the overlay node and nothing outside it changes; it fails only with NOSPACE, and only when there is no room for the whole overlay node on top |
| Overlay.PropRoomIs | spike/fdt/fdt_rw.c:188-218 | the room counted for a property is that of its token, and of its name with a NUL |
| Overlay.KidRoomIs | spike/fdt/fdt_rw.c:318-357 | the room counted for a node is that of its two tokens and of its contents |
| Merges.MergeMeans | spike/fdt/fdt_overlay.c:556-601 | read as nested maps, with sibling names that match only exactly, that merge is: overlay properties override, children merge by name |
| Phandles.MaxIsBound | spike/fdt/fdt_ro.c:103-129 | no node of a tree has a larger phandle than its maximum |
| Phandles.MaxIsTaken | spike/fdt/fdt_ro.c:103-129 | some node has it |
| Renumber.GetPhandle | spike/fdt/fdt_ro.c:487-502 | the four-byte phandle property, else the four-byte linux,phandle, else 0 |
| Renumber.FindMaxPhandle | spike/fdt/fdt_ro.c:103-129 | the scan over all nodes returns the maximum of the tree and never fails on a well-formed blob |
| Renumber.PhandleAddOffset | spike/fdt/fdt_overlay.c:116-139 | shifts one phandle property in place with the exact error for a missing, odd-sized or overflowing one; nothing else changes |
| Renumber.AdjustNodePhandles | spike/fdt/fdt_overlay.c:156-177 | the recursion turns the subtree into the shifted tree in place, stopping where the first error says, and returns that error |
| Phandles.ShiftSucceeds | spike/fdt/fdt_overlay.c:116-177 | it succeeds exactly when every phandle property is a cell whose sum stays below 2^32 - 1 |
| Phandles.ShiftedAt | spike/fdt/fdt_overlay.c:156-177 | on success every node is shifted in its place |
| Phandles.NodeShifted | spike/fdt/fdt_overlay.c:116-139 | a node that had a phandle has the sum, one without still has none |
| Phandles.Renumbered | spike/fdt/fdt_overlay.c:116-177 | shifted by the base maximum, phandles of at least 1 exceed every base phandle, stay below 2^32 - 1, and are equal exactly when they were |
| Phandles.ZeroCollides | spike/fdt/fdt_overlay.c:116-177 | the bound 1 is sharp: when some base node has a phandle of at least 1, a phandle property of value 0 becomes the phandle that a base node holds |
| Fixups.FixProperty | spike/fdt/fdt_overlay.c:232-276 | every cell listed by one fixup property is shifted in the tree property of that name; BADOVERLAY for a bad list, a missing property, or an entry that fails the 32-bit check; a word is read outside of the value exactly when some entry leads out of it |
| Fixups.FixNodeProps | spike/fdt/fdt_overlay.c:229-277 | all fixup properties of a node, in order, while the fixups themselves stay as they are; an entry that passes the check wrongly changes nothing |
| Fixups.UpdateLocalNodeReferences | spike/fdt/fdt_overlay.c:220-305 | the recursion over two places of one blob turns the tree node into the fixed tree, with the exact answer for every list of entries |
| References.AnswerIs | spike/fdt/fdt_overlay.c:252-275 | the answer is 0 exactly when every entry passes the 32-bit check; then every entry leads into the value or is one that the check lets pass wrongly |
| References.StrayIs | spike/fdt/fdt_wip.c:26 | a value of n bytes is left, with answer 0, exactly by the entries from 2^32 - 4 to 2^32 - 4 + n |
| References.StrayTaken | spike/fdt/fdt_overlay.c:252-275 | such an input: entry 2^32 - 4 for a cell of four bytes is reported as fixed and the cell is as it was |
| References.RefusedTooLate | spike/fdt/fdt_overlay.c:265 | fixups that read no word outside of the value succeed, so every refusal comes after such a read; and a success has read outside exactly when some entry is 2^32 - 4 or more |
| References.ListedFixed | spike/fdt/fdt_overlay.c:252-275 | a cell of the value that is listed once gets the shift exactly once, modulo 2^32 |
| References.ClearKept | spike/fdt/fdt_overlay.c:252-275 | a cell clear of all listed ones keeps its value |
| References.FixedProp | spike/fdt/fdt_overlay.c:229-277 | properties that no fixup names stay, the others change by their own list only |
| References.FixedKid | spike/fdt/fdt_overlay.c:280-302 | distinct fixup children change distinct children of the tree |
| References.FixedAt | spike/fdt/fdt_overlay.c:220-305 | a node after the fixups: changed by its own fixup node if it has one, untouched otherwise |
| References.ReferenceKept | spike/fdt/fdt_overlay.c:116-305 | after renumbering and fixups together, a listed cell of a property names a node exactly when it named it before |
| Sequential.Sw.CreateWithFlags | spike/fdt/fdt_sw.c:105-137 | an empty unfinished blob behind a header area of 48 bytes, or the exact error with the buffer unchanged |
| Sequential.Sw.AddReservemapEntry | spike/fdt/fdt_sw.c:180-198 | one more reservation is recorded; BADSTATE and NOSPACE exactly as the state says |
| Writer.ReservesRead | spike/fdt/fdt_sw.c:180-198 | in every state of the writer, the finished blob included, reservation k reads as two big-endian numbers of eight bytes at 48 + 16 k: the address and the size that were given |
| Sequential.Sw.FinishReservemap | spike/fdt/fdt_sw.c:200-209 | the terminating reservation, and the step to the structure state |
| Sequential.Sw.GrabSpace | spike/fdt/fdt_sw.c:90-103 | space exactly when structure and strings do not meet |
| Sequential.Sw.BeginNode | spike/fdt/fdt_sw.c:211-226 | the call is recorded as the next token; exact errors; failing calls change nothing |
| Sequential.Sw.EndNode | spike/fdt/fdt_sw.c:228-240 | likewise for the end of a node |
| Sequential.Sw.AddString | spike/fdt/fdt_sw.c:242-257 | the string goes below the strings block and keeps its distance from the end; 0 exactly when there is no room, except for a name longer than what the strings leave of the buffer, whose copy starts before the buffer |
| Sequential.Sw.FindAddString | spike/fdt/fdt_sw.c:268-283 | a string that reads as the name, shared exactly when one was there; the copy escapes exactly for a new name that is too long |
| Sequential.Sw.PropertyPlaceholder | spike/fdt/fdt_sw.c:285-315 | a property whose value is whatever the buffer holds; without room the string is rolled back; escapes exactly in the structure state with a new name that is too long |
| Sequential.Sw.AddProperty | spike/fdt/fdt_sw.c:317-327 | the property call is recorded with its name and value, with exact errors, unless the name escapes |
| Sequential.Sw.Finish | spike/fdt/fdt_sw.c:329-376 | the round trip: the finished blob parses back to exactly the calls made, in order |
| Sequential.Sw.Relocate | spike/fdt/fdt_sw.c:353-367 | the loop turns every distance from the end of the strings into an offset from their start |
| Writer.WrittenPrepend | spike/fdt/fdt_sw.c:242-257 | strings already written keep their meaning when the strings block grows down |
| Writer.FixedCalls | spike/fdt/fdt_sw.c:353-367 | relocated name offsets read as the names that were given |
| Writer.ParsedBack | spike/fdt/fdt_sw.c:329-376 | what a finished blob parses to is the list of calls |
| Parser.ParseTokens | spike/fdt/fdt.c:131-182 | parsing an encoded token list gives the calls that its tokens record |
| Writer.RoomCheckExact | spike/fdt/fdt_sw.c:242-257 | the 32-bit room check answers correctly exactly when the name is no longer than what the strings leave of the buffer |
| Writer.RoomCheckWraps | spike/fdt/fdt_sw.c:242-257 | an input: after fdt_finish_reservemap in a fresh buffer of 100 bytes, the check finds room for a name of 100 characters, and there is none |
| Builds.WriterBuilds | spike/fdt/fdt_sw.c:211-376 | calls that write a tree leave a blob that represents that tree |
| Parser.NumMemRsv | spike/fdt/fdt_ro.c:175-185 | the number of reservations before the first of size zero, or TRUNCATED when the list does not end inside the blob; it reads outside of the blob exactly when the total size is below that of an entry and does not bound the first offset |
| Parser.RsvExact | spike/fdt/fdt_ro.c:149-159 | the 32-bit offset and the 64-bit comparison find exactly the entries inside the blob, and else only the first one of a blob that is smaller than an entry |
| Parser.GetMemRsv | spike/fdt/fdt_ro.c:161-173 | the two big-endian numbers of an entry, or BADOFFSET; it escapes exactly when the number, times 16 in 32 bits, wraps to the offset of an entry |
| Parser.RsvWraps | spike/fdt/fdt_ro.c:149-159 | the check finds exactly the entry with that number modulo 2^28 |
| Parser.EntryFar | spike/fdt/fdt_ro.c:149-159 | an input: entry 2^28 of a list that has an entry 0 |
| Builds.GetReserve | spike/fdt/fdt_ro.c:161-173 | from what the writer has finished every reservation reads back as it was given |
| Checks.CheckFull | spike/fdt/fdt_ro.c:837-898 | for any bytes and header of version 17 or later: the exact answer, magic and versions included, or that the loop does not advance, or that it reads behind the block; when the properties it meets are plain, it accepts exactly a block that encodes a balanced token list with readable names, with sound sizes and a reservation list that ends |
| Checks.HeaderErrorIs | spike/fdt/fdt.c:74-119 | the header check passes exactly the right magic, versions that can be read, and blobs that hold their blocks, and tells the three failures apart |
| Checks.CheckStruct | spike/fdt/fdt_ro.c:859-897 | the token loop computes that outcome for any bytes |
| Checks.VerdictIs | spike/fdt/fdt_ro.c:859-897 | from any offset and depth, on plain properties the loop ends with an answer, and it is 0 exactly when the tokens read from there are balanced with the open nodes and their names can be read |
| Checks.ReadEncodes | spike/fdt/fdt.c:131-182 | the tokens read from any bytes encode to those bytes |
| Checks.EncodedRead | spike/fdt/fdt.c:131-182 | and a token list encoded in the bytes is the one that is read, with plain properties only |
| Checks.PlainAccepted | spike/fdt/fdt_ro.c:859-897 | so a block of plain properties is accepted exactly when some balanced token list with readable names is encoded at its start |
| Checks.AcceptedIffPlain | spike/fdt/fdt_ro.c:859-897 | a block that is accepted encodes a token list exactly when its properties are plain |
| Checks.StuckIs | spike/fdt/fdt.c:131-182 | fdt_next_tag returns an offset that is not larger exactly at a property with the length word 2^32 - 12 |
| Checks.LoopsExample | spike/fdt/fdt_ro.c:859-897 | a block on which the loop does not end |
| Checks.NegativeAccepted | spike/fdt/fdt_ro.c:859-897 | a block that is accepted with a property of length -1, and that encodes no token list |
| Writer.AcceptedIffBalanced | spike/fdt/fdt_ro.c:837-898 | on a finished blob the loop answers, and accepts exactly when the begin and end calls were balanced |
| Builds.CheckFinished | spike/fdt/fdt_ro.c:837-898 | so fdt_check_full accepts the writer's result exactly then |
| Repack.PackBlocks | spike/fdt/fdt_rw.c:378-398 | memory after the three moves, in place or into a safe one, whatever overlaps |
| Repack.BlocksPacked | spike/fdt/fdt_rw.c:378-398 | the new header describes what lay in the place of each block when its turn came, and nothing but the new blob has been written |
| Repack.TakenWhole | spike/fdt/fdt_rw.c:378-398 | when no move reaches a block before its turn, that is the content of the old blob |
| Repack.SafeInPlace | spike/fdt/fdt_rw.c:464-476 | in place that is so exactly when the reservations, and with them the structure block, end before what follows them, unless that is empty; then the blob does not grow |
| Repack.Pack | spike/fdt/fdt_rw.c:464-476 | exact answers of the 32-bit probe; it escapes exactly when that passes and a block does not end in the blob, the reservation list does not end in it, or the packed blob would end behind memory; otherwise the content is what the moves take, and in a safe blob it is kept, totalsize says so, and nothing behind the blob changes |
| Repack.OrderExact | spike/fdt/fdt_rw.c:13-24 | the check of the order of the blocks is right exactly when none of its sums wraps, or when there is a reason to refuse that wrapping does not hide |
| Repack.RoProbeIs | spike/fdt/fdt.c:19-44 | the probe of a header field by field: magic, versions, the structure block of an unfinished blob, and the total size |
| Repack.RwProbeIs | spike/fdt/fdt_rw.c:13-38 | the probe of the editing functions is that and the order of the blocks |
| Repack.CheckedOrder | spike/fdt/fdt_rw.c:13-24 | after fdt_check_header it is right |
| Repack.WrongOrder | spike/fdt/fdt_rw.c:13-24 | where it is wrong some block ends behind the blob |
| PackLimits.WrappingEscapes | spike/fdt/fdt_rw.c:464-476 | an input that passes the probe, whose list ends, and whose strings block has 2^32 - 72 bytes |
| PackLimits.UnterminatedEscapes | spike/fdt/fdt_rw.c:464-476 | an input that passes the probe and whose list has no end |
| PackLimits.OverlappingLoses | spike/fdt/fdt_rw.c:378-398 | an input that passes the probe and whose strings are overwritten before they are moved |
| Repack.PackKeeps | spike/fdt/fdt_rw.c:464-476 | the tree and the reservations read the same afterwards, and packing again finds nothing to remove |
| Repack.SameTree | spike/fdt/fdt_rw.c:378-476 | the same three blocks are the same tree with the same reservations, wherever they lie |
| Reopen.OpenInto | spike/fdt/fdt_rw.c:400-462 | for any relative position of the two buffers: the exact answer, with the size of the new blob as an int, and exactly when it escapes; blocks taken to be in order are copied byte for byte; with blocks in the blob and a list that ends the content arrives, ordered, in a blob of the size of the buffer; nothing outside the buffer changes |
| Reopen.SizeExact | spike/fdt/fdt_rw.c:435-437 | the size computed for the new blob is right exactly when it is an int |
| Reopen.RoomExact | spike/fdt/fdt_rw.c:435-450 | NOSPACE is right exactly when that size is an int, or there is no room for the number that it is taken for |
| Reopen.BuildAtIs | spike/fdt/fdt_rw.c:442-450 | the new blob is built in the buffer when it would end before the old one or begin behind it, and else behind the old one |
| Reopen.StaysInside | spike/fdt/fdt_rw.c:400-462 | no blob that holds its header, list and blocks makes it leave its buffers while the new size is an int |
| Reopen.CopyOpens | spike/fdt/fdt_rw.c:424-433 | the copy of blocks in order is such a blob |
| PackLimits.UnterminatedReopened | spike/fdt/fdt_rw.c:411-439 | an input whose list has no end and whose answer is 0, for every buffer behind it |
| PackLimits.HugeEscapes | spike/fdt/fdt_rw.c:435-450 | an input: overlapping blocks that need 0xC0000038 bytes are taken to fit into a buffer of 0x10000000 |
| Reopen.OpenReordered | spike/fdt/fdt_rw.c:432-461 | building behind the old blob when the buffer overlaps it keeps the content; the boot CPU is, for every overlap, the word at its place in the old header as memory is when the new blob has been moved |
| Reopen.BootKept | spike/fdt/fdt_rw.c:459 | the boot CPU is kept when the new blob is clear of its four bytes in the old header |
| Reopen.BootLost | spike/fdt/fdt_rw.c:459 | in place it is the word behind the old blob; where the new blob covers it, clear of its own boot CPU, it is a word of the new blob |
| Reopen.BootExample | spike/fdt/fdt_rw.c:459 | an input: a bare root whose reservations come last, opened in place, has boot CPU 7 before and 0 afterwards |
| Reopen.ReversedOpens | spike/fdt/fdt_rw.c:400-462 | that input is a proper blob that fdt_open_into takes |
| Reopen.BuildSafe | spike/fdt/fdt_rw.c:439-447 | the place chosen for the new blob never overlaps the old one and ends inside the buffer |
| Reopen.OpenKeeps | spike/fdt/fdt_rw.c:400-462 | tree and reservations read the same in the new buffer, in whatever order the blocks were |
| Resizing.MoveBoth | spike/fdt/fdt_sw.c:160-171 | the two moves, in the order that the direction asks for, bring head and tail over whole for every overlap |
| Resizing.Resize | spike/fdt/fdt_sw.c:144-178 | exact errors with the head added up in 32 bits; the head and the strings at the new end of the buffer are the old ones, and the header names the new size, unless the sum is less than a header |
| Resizing.InsideExact | spike/fdt/fdt_sw.c:151-158 | the size checks are right exactly when the sum of structure offset and size does not wrap, or wraps to more than there is room for |
| Resizing.WriterGoesOn | spike/fdt/fdt_sw.c:144-178 | after a resize the writer stands where it stood: every recorded call is still recorded |
| Ancestry.ScanFinds | spike/fdt/fdt_ro.c:573-607 | in the preorder scan the last node seen at depth d up to a node is its ancestor at depth d |
| Ancestry.SupernodeAtDepth | spike/fdt/fdt_ro.c:573-607 | returns the unique ancestor at the depth, the depth of the node, and the exact error when there is no such ancestor or no such node |
| Ancestry.NodeDepth | spike/fdt/fdt_ro.c:609-618 | is the depth of the node in the tree |
| Ancestry.ParentOffset | spike/fdt/fdt_ro.c:620-628 | is the node one level up, and NOTFOUND for the root |
| Ancestry.TargetOf | spike/fdt/fdt_ro.c:573-628 | every node offset of a block has such an address |
| Paths.GetPath | spike/fdt/fdt_ro.c:521-571 | writes the path of a node with its NUL; NOSPACE exactly when path length + 1 exceeds buflen, whatever longer names were skipped on the way; it reads before its buffer exactly when the offset is at or behind the end of the root and buflen is at least 2 |
| Paths.Visit | spike/fdt/fdt_ro.c:531-552 | one turn of the scan keeps in the buffer the longest prefix of open names that fits |
| Paths.NoSlashLeft | spike/fdt/fdt_ro.c:535-538 | with one name or none left in the buffer there is no slash at which the loop that takes names off would stop |
| Paths.BehindRoot | spike/fdt/fdt_ro.c:531-552 | an input: the block of a bare root and the offset behind its END_NODE |
| PathLookup.Follow | spike/fdt/fdt_ro.c:256-276 | the loop over the components leads to the node reached by going to the first child that answers to each, or to NOTFOUND; an error goes through |
| Aliases.GetAlias | spike/fdt/fdt_ro.c:504-514 | the place of the value of that property of /aliases, or NULL |
| Aliases.AliasEnds | spike/fdt/fdt_ro.c:252 | the string that is read there ends inside the structure block, at the latest with the token behind the property |
| Aliases.PathOffset | spike/fdt/fdt_ro.c:236-284 | for any path: the node that it means, through any number of aliases, or the exact error; the recursion has no end exactly when the chain of aliases has none |
| Aliases.EndlessIff | spike/fdt/fdt_ro.c:236-284 | a chain of aliases has no end exactly when it is longer than the structure block |
| Aliases.MeaningAny | spike/fdt/fdt_ro.c:236-284 | the meaning of a path does not depend on the number of steps allowed for |
| Aliases.AbsoluteMeans | spike/fdt/fdt_ro.c:236-279 | an absolute path means the node that its components lead to, or NOTFOUND |
| Aliases.AliasMeans | spike/fdt/fdt_ro.c:244-279 | an alias for an absolute path means that path put in its place |
| Aliases.EndlessAlias | spike/fdt/fdt_ro.c:246-255 | an input: a node /aliases with the property a = "a" |
| PathLookup.PathComponents | spike/fdt/fdt_ro.c:521-571 | the components of a written path are the names below the root |
| PathLookup.DescendNames | spike/fdt/fdt_ro.c:252-276 | following the names of a node leads back to it exactly when no earlier sibling answers to one of them |
| PathLookup.RoundTrip | spike/fdt/fdt_ro.c:236-571 | looking up the path that was written for a node gives that node exactly when none of its components matches an earlier sibling |
| PathLookup.ShadowedPath | spike/fdt/fdt_ro.c:236-571 | an input: below a root with the children a@0 and a, the path of the second leads to the first |
| ReductionOps.GetElem | spike/red_ref_model/reduction_op.cc:268-274 | the element is the little-endian number in its bytes |
| ReductionOps.DecodeFields | spike/red_ref_model/reduction_op.cc:36-47 | decoding undoes the encoding of the fields: masked when vm is 0, widening when both top bits of funct6 are set, floating point when funct3 is 1, ordered for the two ordered sums alone |
| ReductionOps.SignExtendIs | spike/red_ref_model/reduction_op.cc:307-318 | sign_extend is two's-complement extension to 64 bits at every width |
| ReductionOps.AdjustIs | spike/red_ref_model/reduction_op.cc:299-305 | adjust_to_sew keeps the value modulo 2^result width |
| ReductionOps.OperationLift | spike/red_ref_model/reduction_op.cc:167-266 | an element absorbed by an accumulator is combined as its own extended value |
| Lanes.OperateAccums | spike/red_ref_model/reduction_op.cc:350-368 | parts combine position by position, and an uninitialised part yields the other one |
| Lanes.Fold | spike/red_ref_model/reduction_op.cc:456-470 | all parts of an accumulator end up in part 0 |
| Lanes.ReductionOp.InitLanes | spike/red_ref_model/reduction_op.cc:282-297 | fresh accumulators hold nothing, and the scalar sits in one part of lane 0 |
| Lanes.ReductionOp.FillLane | spike/red_ref_model/reduction_op.cc:112-143 | one visit of a lane goes on by at least one element; afterwards exactly the active ones among the first n elements have been absorbed, each once |
| Lanes.ReductionOp.IntralaneMerge | spike/red_ref_model/reduction_op.cc:320-348 | linear or by recursive halving, accumulator 0 ends up with all that the lane has absorbed |
| Lanes.ReductionOp.InterlaneMerge | spike/red_ref_model/reduction_op.cc:383-399 | lane 0 ends up with all that the lanes have absorbed |
| Lanes.ReductionOp.TreeMerge | spike/red_ref_model/reduction_op.cc:405-454 | so does the recursive tree over any range of lanes, and no other lane changes |
| Lanes.ReductionOp.ReductionSetup | spike/red_ref_model/reduction_op.cc:26-65 | the scalar is cut to the accumulator width, and tree merges are off where the instruction excludes them |
| Lanes.ReductionOp.ReductionUnord | spike/red_ref_model/reduction_op.cc:106-165 | for any operator, lanes, accumulators, vector length, mask and tree flags the result is the value of an expression whose leaves are the scalar and the active elements, each exactly once |
| Lanes.ReductionOp.ReductionOrd | spike/red_ref_model/reduction_op.cc:87-104 | the ordered reduction is the left fold over the scalar and the active elements |
| Lanes.ReductionOp.DoReduction | spike/red_ref_model/reduction_op.cc:67-85 | dispatch between the two; integer results are the reduction of section 14 of the "V" extension |
| ReductionLaws.Commutes | spike/red_ref_model/reduction_op.cc:167-266 | every integer operation commutes on accumulator values |
| ReductionLaws.Associates | spike/red_ref_model/reduction_op.cc:167-266 | and associates |
| ReductionLaws.FoldPermutes | spike/red_ref_model/reduction_op.cc:167-266 | the left fold depends on which inputs there are, not on their order |
| ReductionLaws.ShapeDoesNotMatter | spike/red_ref_model/reduction_op.cc:106-165 | any expression over the inputs has the value of the left fold over them |
| ReductionLaws.FoldMeans | spike/red_ref_model/reduction_op.cc:167-318 | the fold cut to the result width is the sum modulo 2^width, the bitwise combination, or the signed or unsigned extremum of the inputs, widening sums included |
| ReductionLaws.ExpressionMeans | spike/red_ref_model/reduction_op.cc:106-318 | hence so is every expression, whatever the hardware shape |
| Instructions.ResultIs | spike/red_ref_model/reduction_op.cc:167-318 | the reductions by funct6, in terms of the numbers read |
| Instructions.FpDone | spike/red_ref_model/reduction_op.cc:67-165 | floating-point results as folds or expressions of the operator, elements converted where the result is wider |
| Reductions.V64ToV8 | spike/red_ref_model/reduction.cc:7-15 | byte n of the buffer is byte n of the register words |
| Reductions.PackedElem | spike/red_ref_model/reduction.cc:7-15 | elements read from the bytes are the elements of the register |
| Reductions.PackedBit | spike/red_ref_model/reduction.cc:7-15 | mask bits read from the bytes are the mask bits of the register |
| Reductions.Load | spike/red_ref_model/reduction.cc:17-30 | unpacking the registers sets the reduction up over exactly their elements and mask bits |
| Instructions.Reduction | spike/red_ref_model/reduction.cc:17-41 | vd holds in its low bits what the instruction word asks for, and ones above, whatever the lanes, accumulators and tree flags: by funct6, vm and funct3, the sum, bitwise combination or extremum of the scalar and the active elements, the left fold of an ordered floating-point sum, or an expression that uses each input once |
| RoundingProofs.GlobalMasks | spike/bf16_cpfloat/cpfloat_template.h:283-330 | the leading and trailing masks of a precision are the kept and discarded bits |
| RoundingProofs.LocalMask | spike/bf16_cpfloat/cpfloat_template.h:331-350 | narrowing the masks for a subnormal gives the masks of the remaining digits |
| RoundingProofs.LocalIs | spike/bf16_cpfloat/cpfloat_template.h:331-350 | the local precision keeps exactly the digits that the target format has at that magnitude |
| Formats.NoneBetween | spike/bf16_cpfloat/cpfloat_template.h:283-350 | no number of the target format lies between two neighbouring multiples of the last place |
| Formats.RoundsAt | spike/bf16_cpfloat/cpfloat_template.h:374-527 | picking the right neighbour, or infinity beyond the largest number, is correct rounding |
| RoundingProofs.AddMask | spike/bf16_cpfloat/cpfloat_template.h:374-442 | adding a constant and masking rounds up exactly when the discarded bits reach its complement |
| Roundings.NearestMain | spike/bf16_cpfloat/cpfloat_template.h:384-442 | in the main branch the three nearest modes pick the nearest neighbour with their own tie rule |
| Roundings.DirectedMain | spike/bf16_cpfloat/cpfloat_template.h:462-527 | and the directed modes the neighbour on their side |
| Roundings.UnderflowRounds | spike/bf16_cpfloat/cpfloat_template.h:384-527 | below the smallest subnormal each mode returns zero or that number as it prescribes |
| Roundings.OverflowRounds | spike/bf16_cpfloat/cpfloat_template.h:384-527 | beyond the range each mode returns the largest number or infinity as it prescribes |
| Roundings.GeneralPath | spike/bf16_cpfloat/cpfloat_template.h:283-350 | the general path is correct rounding for every format, every deterministic mode and every finite input |
| Roundings.FastPath | spike/bf16_cpfloat/cpfloat_template.h:374-518 | so is the fast path when the exponent ranges agree |
| Roundings.CorrectUnique | spike/bf16_cpfloat/cpfloat_template.h:374-527 | correct rounding leaves no choice of result |
| Roundings.FastRefinesGeneral | spike/bf16_cpfloat/cpfloat_template.h:374-527 | with equal exponent ranges both paths return numerically the same |
| Specials.InfinityKept | spike/bf16_cpfloat/cpfloat_template.h:374-527 | an infinity is returned as it is, in every mode and on both paths |
| Specials.NanIs | spike/bf16_cpfloat/cpfloat_template.h:374-527 | a NaN fails every comparison, so on both paths a constant below a kept unit is added to its bits and the sum is masked |
| Specials.NanCut | spike/bf16_cpfloat/cpfloat_template.h:374-527 | then it stays a NaN exactly when the sum of that and its fraction keeps a bit and does not carry; otherwise it becomes the infinity of its sign, or the zero of the other sign |
| Specials.NanLost | spike/bf16_cpfloat/cpfloat_template.h:374-527 | two inputs: rounded to bfloat16, 0x7FFFFFFF becomes minus zero and 0x7F800001 an infinity |
| Specials.RoundAll | spike/bf16_cpfloat/cpfloat_template.h:637-687 | the vector loop, in place or not, rounds each finite element correctly, keeps infinities, does that to NaNs, and touches no other element |
| Pmp.PmpUnit.WritePmpaddr | spike/riscv/csrs.cc:108-135 | the address register takes the value unless it, or the range above it, is locked; the answer says which |
| Pmp.PmpUnit.WritePmpcfg | spike/riscv/csrs.cc:238-283 | each byte of the register becomes the legalised configuration unless its entry is locked or the combination refused; no other entry changes |
| Pmp.CfgStored | spike/riscv/csrs.cc:238-283 | what a write leaves of every entry |
| Pmp.LegalBits | spike/riscv/csrs.cc:247-258 | bit by bit what a stored configuration keeps of the byte written |
| Pmp.RefusedIs | spike/riscv/csrs.cc:259-274 | the four combinations of R, W and X that are refused in a locked rule with MML set and RLB clear |
| Pmp.AddrStored | spike/riscv/csrs.cc:108-135 | pmpaddr keeps the low 54 bits of the value, unless RLB is clear and the entry or a range from it is locked |
| Pmp.PmpUnit.LockRecorded | spike/riscv/csrs.cc:303-325 | whether any implemented entry is locked |
| Pmp.PmpUnit.WriteMseccfg | spike/riscv/csrs.cc:303-325 | MML and MMWP only rise, and RLB rises only while no entry is locked |
| Pmp.SecStored | spike/riscv/csrs.cc:303-325 | bit by bit what mseccfg holds afterwards |
| Pmp.LockSafety | spike/riscv/csrs.cc:108-325 | over every sequence of writes with RLB = 0: a locked entry, its address and, for TOR, the address below never change, and RLB stays 0 |
| Pmp.StickyBits | spike/riscv/csrs.cc:303-325 | over every sequence of writes MML and MMWP never fall |
| Pmp.RunSane | spike/riscv/csrs.cc:238-283 | from reset on no entry has W without R while MML is 0, and none is NA4 below the granularity |
| Pmp.ResetSane | spike/riscv/csrs.cc:238-283 | reset satisfies that |
| PmpMatch.TrailingOnes | spike/riscv/csrs.cc:146-150 | m & ~(m + 1) keeps exactly the trailing ones |
| PmpMatch.NapotMaskIs | spike/riscv/csrs.cc:146-150 | napot_mask clears exactly the address bits inside the region |
| PmpMatch.MatchIsMembership | spike/riscv/csrs.cc:152-158 | for every granularity, match4 holds exactly inside the naturally aligned block or the range [base, tor) |
| PmpMatch.LockedRegion | spike/riscv/csrs.cc:108-158 | whatever is written, a locked entry goes on matching the same addresses |
| PmpMatch.SubsetExact | spike/riscv/csrs.cc:160-180 | on an aligned page subset_match reports exactly the entries that cover part but not all of it, if and only if the entry is not an empty top-of-range entry that ends inside the page |
| PmpMatch.PhantomExample | spike/riscv/csrs.cc:160-180 | such an entry: it covers nothing and is reported |
| PmpMatch.Homogeneous | spike/riscv/csrs.cc:160-180 | where it reports nothing the entry treats all addresses of the page alike |
| PmpMatch.AccessIs | spike/riscv/csrs.cc:182-218 | what a rule allows: without MML the bit of the kind of access, or machine mode on an unlocked rule; with MML the sixteen rows of Smepmp 1.0 |
| PmpMatch.PmpOk | spike/riscv/mmu.cc:389-419 | the first entry that matches any four-byte sector decides: it must match all of them and its rights allow the access; where none matches, machine mode alone is let through, not with MMWP, and not to fetch with MML |
| PmpMatch.PageVerdict | spike/riscv/mmu.cc:421-435 | if no entry is reported for a page, every access inside it gets the same verdict |
| Memory.Read | spike/fesvr/memif.cc:9-40 | exactly the addressed bytes, through any device with a power-of-two alignment and a maximum chunk that is a multiple of it |
| Memory.Write | spike/fesvr/memif.cc:42-84 | exactly the addressed bytes change |
| Memory.Modify | spike/fesvr/memif.cc:46-70 | read, modify and write of one aligned unit changes the chosen bytes only |
| Memory.WriteMiddle | spike/fesvr/memif.cc:72-83 | the aligned middle is stored chunk by chunk, and cleared where it is zero |
| Memory.ChunkDevice.ClearChunk | spike/fesvr/htif.cc:222-229 | any length is cleared, a maximum chunk at a time |
| Memory.SparseMemory.Load | spike/riscv/devices.cc:107-127 | reads as a zero-initialised array; rejects exactly what is out of range; allocating pages changes no byte |
| Memory.SparseMemory.Store | spike/riscv/devices.cc:107-127 | writes exactly the addressed bytes across pages, or nothing when out of range |
| Memory.SparseMemory.Contents | spike/riscv/devices.cc:129-139 | allocating a page on demand changes no byte |
| Cache.CacheSim.CheckTag | spike/riscv/cachesim.cc:103-113 | searching one set finds the line if any slot of the cache holds it |
| Cache.CacheSim.Victimize | spike/riscv/cachesim.cc:115-122 | for any way, the slot of that way among those of the residue of the line is replaced |
| Cache.CacheSim.Access | spike/riscv/cachesim.cc:124-160 | a hit changes at most the dirty bit of its slot and asks nothing below; a miss replaces one slot of the set, writes a dirty victim back to its own address and then reads the line; every valid line lies in the slots of its residue modulo the number of sets, and an access evicts and changes lines of its own residue only; a store makes one line dirty unless it was; the run invariant is kept: own lines only, no line twice, dirtied = written back + dirty + dropped |
| Cache.CacheSim.CleanInvalidate | spike/riscv/cachesim.cc:162-185 | exactly the valid lines from that of the address to the 64-bit end of the range are cleaned or invalidated, the call is passed on to the next level, and the run invariant is kept |
| Cache.RangeExact | spike/riscv/cachesim.cc:164-168 | these are the lines that the range touches exactly when the sum for its end stays below 2^64 |
| Cache.EmptyExact | spike/riscv/cachesim.cc:164-168 | for an empty range there are none exactly when it starts a line, or the sum wraps |
| Cache.LastLineMissed | spike/riscv/cachesim.cc:164-168 | an input: the last line of the address space is not visited by its own range |
| Cache.DirtyUpdate | spike/riscv/cachesim.cc:124-185 | changing one slot changes the number of dirty valid lines by what that slot contributes |
| Arith.Mulhu | spike/riscv/arith.h:11-30 | the true high 64 bits of the product, from 32-bit limbs |
| Arith.Mulh | spike/riscv/arith.h:32-37 | the true high half of the signed product |
| Arith.Mulhsu | spike/riscv/arith.h:39-44 | the true high half of signed times unsigned |
| Arith.SatAdd | spike/riscv/arith.h:46-66 | the clamped sum, and the flag exactly when it was clamped, at every width |
| Arith.SatAdd3 | spike/riscv/arith.h:68-87 | the clamped sum of three operands, and the flag exactly when the true sum is out of range |
| Arith.SatSub | spike/riscv/arith.h:89-108 | the clamped difference, and the flag exactly when it was clamped |

## Left out

- Reopen.OpenInto: version 17 or later; the scan for the end of an older structure block is not modelled.
- Checks.CheckFull: version 17 or later, for the same reason.
- Fixups.UpdateLocalNodeReferences: needs fixups that list nothing inside the fixup node itself.
- Paths.GetPath: needs names without slashes.
- Ancestry.SupernodeAtDepth: needs a single root node at offset 0.
- Merges.MergeMeans: needs sibling names that match only exactly; Overlay.ApplyNode states the merge without that condition.
- Lanes.ReductionOp.DoReduction: floating-point operators are uninterpreted, and exception flags and logging are not modelled.
- Roundings.GeneralPath: subnormals in use and precision 2 to 23; the mode without subnormals, stochastic rounding and bit flips are not modelled.
- Pmp.LockSafety: TLB flushing, permission checks on CSR access and reads of the registers are not modelled; mseccfg is its low byte.
- Cache.CacheSim.Access: the next level is the list of requests that it receives; the replacement choice is a parameter, and byte counts are not related to anything.
- Arith.Mulh: signed overflow in the source's intermediate sums is taken as two's-complement wrap-around.
- The header of a blob being edited (class Fdt) and of one being written (class Sw) is a record of fields; Repack and Resizing model it as bytes. Alignment of pointers, magic numbers and versions are modelled there only.
- Device tree versions before 17, memory reservation edits, string lists, compatible searches and lookups by property value.
- Overlay symbols, external fixups, target lookup and the driver that calls the steps in order.
- Sequential.Sw.AddString: names shorter than 2^31 - 1 characters, as their lengths are int.
- Integer overflow of offsets near 2^31 in the editing functions, blobs whose order their probe takes to be right because a sum wraps (Repack.OrderExact says which), and what a stray read or write hits outside of the blob.
- The typed accessors of the memory interface, dumps, and devices that are not chunk devices.
- The fully associative cache, cache configuration parsing and statistics printing.
- Host interface, instruction semantics, disassembler and all other CSR classes.
