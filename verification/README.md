# Verification model of the Java/Bedrock translator

This project models four stateful parts of the translator, and its chat normalization, in Dafny and proves what they keep, what they undo and where they fall short.

- **Inventory.** A Bedrock stack request is compiled into a program of Java container clicks, and every click runs on a simulated player inventory before it is sent. `Clicks` gives the meaning of one click, `Requests` the compiler, `PlayerInventory` the session object that does both in place. `ClickLaws`, `ClickIds`, `TransferLaws` and `SessionLaws` prove conservation, stack identity, exact deltas and responses, and the exact conditions under which transfers, swaps and drops do what was asked; `Shortfalls` gives an accepted request for each way in which they do not, and `Rollback` says which requests change nothing. `IdLaws` says exactly when stack IDs stay different, before and after their counter wraps; `Responses` puts the entries of a response in order, and `Acceptance` says which references, clicks, actions and requests are accepted, in terms of slot numbers and of the stacks that are there.
- **Chunk codec.** `JavaPalette` reads 64-bit packed palettes from a byte cursor, `JavaSections` whole section data, and `PalettedStorage` and `ChunkEncoder` write Bedrock storages and chunks. Each is proved against a reader or a packer of its format: what is written reads back, every block and biome is found at its world position, and `JavaSections` composes both sides, from what a server packs to what a client reads. `VarInts` and `PackedFields` hold the shared number formats.
- **Block states.** `RecentStates` and `StateCache` are the bounded cache of recent states, a map into a recency list; `BlockTracking` and `BlockTrackerClass` add the map and index of block entities, proved over all runs of loads, changes, updates, lookups and unloads. `Evictions` says exactly which entries the cache has lost, and `LookupHistory` gives the answer of every lookup as a function of the events before it.
- **Commands.** `CommandGraph`, `CommandRoutes`, `CommandParameters`, `CommandAliases`, `EnumTables`, `CommandBuilder` and `CommandNames` project a Brigadier graph, which may be cyclic, onto Bedrock commands: the capped depth-first search, redirects, alias groups and interned enums.
- **Chat.** `Chat` normalizes the whitespace of a message in one pass.

State that the source updates in place is held by classes. Their methods are proved against functions on values (`State()`, `View()`, `Lists()`, `Listing()` give the value of an object), and the laws are proved about those functions, over every input and every run.

Where the code does something other than what one would expect, the model follows the code and a lemma states exactly when the expected effect occurs:

- A transfer moves what was asked exactly when `TransferLaws.TransferGuard` holds of the inventory before it (`TransferLaws.TransferExact`). The code does not compare kinds when it compiles a transfer from the cursor, does not check that the destination has room, and merges the cursor into the source slot in a transfer to a cursor that is not empty. `Shortfalls` has an accepted request for each.
- Three left clicks swap two slots exactly when `TransferLaws.ThreeGuard` holds (`TransferLaws.SlotSwapExact`): a stack of the same kind on either side, or on the cursor, merges instead, as in `Shortfalls.SwapOfEqualKindsMerges`.
- Dropping a whole cursor stack removes one item, because the single click that is sent counts as a single drop in the simulation (`TransferLaws.DropExact`, `Shortfalls.WholeCursorDropLeavesFive`).
- A request that is rejected half way keeps the effect of its earlier actions. It has changed nothing exactly when only mined blocks came before the action that rejected it (`Rollback.RejectionKeepsEarlierEffects`; `Rollback.RejectionDoesNotRollBack` is a request that has changed something).
- A comment in `translate/items.go` says that stack IDs are unique within a session. They are, over every run, until the 32-bit counter wraps (`SessionLaws.EveryRunKeepsIds`). Wherever the counter stands, a click keeps them different if and only if it uses no ID, or no present stack carries the one that it is handed apart from the single item that it takes away (`IdLaws.ClickIdsExact`). An update of one slot or of the cursor keeps them different if and only if it replaces nothing, brings no stack, or no other present stack carries its ID (`IdLaws.UpdateIdsExact`). A run from a new session leads to two stacks that share an ID (`SessionLaws.CollisionIsReached`).
- The names shown for the root's literals are those that it lists, each as often, exactly when no literal that belongs to itself is listed twice and none belongs to a literal without a name (`CommandNames.NamesAsListed`). A command that is listed twice is shown once (`CommandNames.DuplicateCommandIsDropped`), and an unnamed literal becomes a command when another belongs to it (`CommandNames.UnnamedOwnerIsShown`).

## Model

| member | source | states |
|---|---|---|
| `PlayerInventory.SessionInventory.NextStackNetworkID` | translate/basic.go:807-819 | hands out the counter, which restarts at 1 after the largest 32-bit value |
| `PlayerInventory.SessionInventory.NextStackNetworkIDLocked` | translate/inventory_actions.go:600-610 | the same for clicks, never handing out 1 |
| `PlayerInventory.SessionInventory.ApplyLeftClick` | translate/inventory_actions.go:543-566 | the simulated inventory afterwards is that of a left click: pick up, put down, swap, or merge up to 64 |
| `PlayerInventory.SessionInventory.ApplyRightClick` | translate/inventory_actions.go:568-598 | the simulated inventory and counter afterwards are those of a right click: split, put one down, swap, or add one |
| `PlayerInventory.SessionInventory.ApplyInventoryClick` | translate/inventory_actions.go:486-541 | refuses exactly the clicks the code rejects, otherwise gives the new inventory with the changed slots |
| `PlayerInventory.SessionInventory.SendInventoryClick` | translate/inventory_actions.go:419-484 | works on a copy; a refused or unencodable click leaves slots and cursor as they were but keeps used stack IDs; a sent one saturates the revision |
| `PlayerInventory.SessionInventory.SendInventoryClicks` | translate/inventory_actions.go:406-417 | runs a program up to its first failing click and collects every reported slot |
| `PlayerInventory.SessionInventory.ValidateStackReference` | translate/inventory_actions.go:685-708 | accepts a negative ID, 1, or the ID of the stack that is there |
| `PlayerInventory.SessionInventory.TranslateStackTransfer` | translate/inventory_actions.go:232-322 | the session afterwards is the one that the compiled transfer program leads to, or unchanged when none is compiled |
| `PlayerInventory.SessionInventory.TranslateStackSwap` | translate/inventory_actions.go:324-360 | the same for swaps |
| `PlayerInventory.SessionInventory.TranslateStackDrop` | translate/inventory_actions.go:362-404 | the same for drops |
| `PlayerInventory.SessionInventory.TranslateItemStackRequest` | translate/inventory_actions.go:59-102 | runs the actions in order up to the first failure, without rollback, and answers with a rejection or the response for all reported slots |
| `PlayerInventory.SessionInventory.AcceptedItemStackRequest` | translate/inventory_actions.go:111-160 | one entry for each reported slot that has a Bedrock name, grouped into containers by ascending number, slots ascending in each, and the cursor last |
| `Responses.OrderContainers` | translate/inventory_actions.go:133-151 | sorting containers by number and their entries by slot keeps every entry and orders both strictly |
| `PlayerInventory.SessionInventory.TranslateWindowItems` | translate/basic.go:835-846 | all 46 slots and the cursor are replaced, missing items by empty ones, each present stack with a fresh ID |
| `PlayerInventory.SessionInventory.TranslateSetSlot` | translate/basic.go:906-931 | the cursor, one slot or nothing is replaced, by window and slot number |
| `PlayerInventory.SessionInventory.TranslateSetCursorItem` | translate/basic.go:597-611 | the cursor is replaced by a stack with a fresh ID |
| `ClickLaws.LeftClickConserves` | translate/inventory_actions.go:543-566 | a left click keeps the total of every kind over slots and cursor |
| `ClickLaws.RightClickConserves` | translate/inventory_actions.go:568-598 | a right click keeps the total of every kind |
| `ClickLaws.ClickConserves` | translate/inventory_actions.go:486-541 | left, right and hotbar clicks on slots keep every total; no click increases one |
| `ClickLaws.RunConserves` | translate/inventory_actions.go:406-465 | any program without drops keeps every total, even when it stops half way; no program creates an item |
| `ClickLaws.RunKeepsCap` | translate/inventory_actions.go:406-465 | stacks of at most 64 stay so over any program |
| `ClickIds.ClickKeepsIds` | translate/inventory_actions.go:486-541 | the invariant that runs need: present stacks keep different IDs below the counter if and only if the counter has room for the ID that the click uses; the counter then moves exactly by that |
| `ClickIds.RunKeepsIds` | translate/inventory_actions.go:406-465 | the same over any program, including the IDs used by clicks that could not be sent |
| `ClickIds.SplitAndMergeIds` | translate/inventory_actions.go:543-598 | merges keep the target's ID, splits leave the old ID on the slot and give the cursor a new one |
| `ClickIds.IdsCollideAfterWrap` | translate/inventory_actions.go:600-610 | a concrete inventory whose IDs are sound and in which two right clicks across the wrap give two stacks one ID |
| `IdLaws.ClickIdsExact` | translate/inventory_actions.go:486-610 | wherever the counter stands, a click keeps different IDs different if and only if it uses none or the one it is handed is not taken |
| `IdLaws.ProgramIdsExact` | translate/inventory_actions.go:406-465 | IDs stay different all along a program if and only if no click that is sent is handed a taken ID |
| `IdLaws.UpdateIdsExact` | translate/basic.go:906-931 | a slot or cursor update keeps different IDs different if and only if it replaces nothing, brings no stack, or its ID is carried by no other present stack |
| `IdLaws.ContentIdsDiffer` | translate/basic.go:835-846 | a full content update leaves all IDs different across a wrap too, for any number of stacks below the number of IDs |
| `IdLaws.FirstCollisionIsTheSecondClick` | translate/inventory_actions.go:600-610 | the split that takes the last ID leaves IDs different; the next single item collides |
| `ClickLaws.DeltaComplete` | translate/inventory_actions.go:486-541 | overlaying a click's changes on the old slots gives the new slots; a slot is reported if and only if it differs or is the target of a hotbar click |
| `ClickLaws.RunReportsChanges` | translate/inventory_actions.go:406-417 | after any program, a slot that is not reported is unchanged |
| `TransferLaws.RightClicksDeposit` | translate/inventory_actions.go:568-598 | n right clicks deposit n items one by one, or as many as fit below 64 |
| `TransferLaws.RightClicksSwap` | translate/inventory_actions.go:593-597 | n right clicks on another kind only swap, back and forth |
| `TransferLaws.TransferToCursor` | translate/inventory_actions.go:267-288 | for every compiled transfer from a slot to the cursor, the program moves exactly the count if and only if the guard held |
| `TransferLaws.TransferFromCursor` | translate/inventory_actions.go:289-298 | the same from the cursor to a slot, including other kinds and full slots |
| `TransferLaws.TransferBetweenSlots` | translate/inventory_actions.go:299-320 | the same between slots, across the whole-stack, half-stack and one-by-one programs |
| `TransferLaws.TransferExact` | translate/inventory_actions.go:232-322 | an accepted transfer, as executed click by click, leaves source minus count, destination plus count and all else alike if and only if its guard held before |
| `TransferLaws.LegalTransferMoves` | translate/inventory_actions.go:232-322 | with stacks of at most 64, room at the destination and an empty cursor unless it is the source, every accepted transfer does what was asked |
| `TransferLaws.ThreeClickSwap` | translate/inventory_actions.go:355-359 | three left clicks exchange two slots, IDs included, and restore the cursor, when no two of the three stacks can merge |
| `TransferLaws.SlotSwapExact` | translate/inventory_actions.go:355-359 | the exact condition on the three stacks for the exchange |
| `TransferLaws.SwapExact` | translate/inventory_actions.go:324-360 | an accepted swap by hotbar click is exact; any other exchanges if and only if its guard held |
| `TransferLaws.DropExact` | translate/inventory_actions.go:362-404 | an accepted drop removes exactly the count and nothing else, except a whole cursor stack of more than one, which loses a single item |
| `TransferLaws.AcceptedIffCompiled` | translate/inventory_actions.go:59-102 | while every stack can be encoded, an action succeeds exactly when it compiles, and every stack can still be encoded afterwards |
| `Acceptance.ReferencesExact` | translate/inventory_actions.go:612-652 | a reference resolves to a Java slot if and only if it is one of the slot's Bedrock names, and to the cursor if and only if it is slot 0 of the cursor container |
| `Acceptance.OtherNamesExact` | translate/inventory_actions.go:612-652 | combined slots resolve like hotbar and inventory slots, the second offhand and output names like the first, and nothing else but the cursor and the names that responses use resolves |
| `Acceptance.NamedByResponses` | translate/basic.go:1385-1402 | responses use the first name of every slot from 0 to 45, never a combined one |
| `Acceptance.RefusedExactly` | translate/inventory_actions.go:486-541 | the clicks that the simulation refuses, by slot, action and button numbers |
| `Acceptance.OutsideExact` | translate/inventory_actions.go:488-501 | outside the window a left click drops the whole cursor stack, a right click or the drop action one item; slots do not change |
| `Acceptance.SentExactly` | translate/inventory_actions.go:419-465 | a click is sent if and only if it is applied and every slot that it changes and the cursor have a Java form; the revision then grows by one up to its maximum |
| `Acceptance.RevisionCounts` | translate/inventory_actions.go:406-465 | a program that is sent to its end counts every click in the revision |
| `Acceptance.AllowedExactly` | translate/inventory_actions.go:59-102 | an action compiles if and only if its references name places and agree with the stacks there, the count is there, and places and kinds go together; the four kinds of transfer are compiled alike |
| `Acceptance.ProgramLengths` | translate/inventory_actions.go:267-404 | how many clicks a transfer, a swap and a drop take |
| `Acceptance.AcceptedExactly` | translate/inventory_actions.go:59-102 | while every stack can be encoded, a request is accepted if and only if it has actions and each is allowed in the inventory that it meets |
| `Acceptance.ContentsExact` | translate/basic.go:835-846 | a content update puts the server's stacks into the slots of the same numbers, nothing into the others, and the carried stack on the cursor |
| `Acceptance.UpdateExact` | translate/basic.go:906-931 | a slot update replaces the cursor, one slot or nothing, by window and slot numbers, and nothing else |
| `Shortfalls.WholeCursorDropLeavesFive` | translate/inventory_actions.go:389-390 | an accepted drop of a cursor stack of six leaves five |
| `Shortfalls.PlaceOntoOtherKindSwaps` | translate/inventory_actions.go:289-298 | an accepted placement of stones onto dirt exchanges them |
| `Shortfalls.TakeOntoCursorMergesBack` | translate/inventory_actions.go:283-286 | an accepted take onto a cursor of the same kind empties the cursor into the slot |
| `Shortfalls.TransferWithoutRoomStrandsItems` | translate/inventory_actions.go:299-320 | an accepted transfer of ten to a slot with sixty leaves six on the cursor |
| `Shortfalls.SwapOfEqualKindsMerges` | translate/inventory_actions.go:355-359 | an accepted swap of equal kinds merges them in the second slot |
| `SessionLaws.JavaSlotRoundTrip` | translate/basic.go:1385-1402 | exactly the slots 0 to 45 have a Bedrock name, and the name resolves back to the slot |
| `SessionLaws.ResponseComplete` | translate/inventory_actions.go:111-160 | an accepted response names every slot that differs after the whole request, and the cursor, each once, with its final count and ID |
| `Rollback.UnchangedExact` | translate/inventory_actions.go:59-102 | for every request, session and encodability of stacks, below the largest revision: the session is left as it was if and only if the request stops before a click is sent or an ID is used |
| `Rollback.StopsUnsentIfOnlyChecks` | translate/inventory_actions.go:65-101 | while every stack can be encoded, that is exactly when only mined blocks come before the end or an action that does not compile |
| `Rollback.RejectionKeepsEarlierEffects` | translate/inventory_actions.go:65-101 | while every stack can be encoded, below the largest revision, a rejected request changed nothing if and only if only mined blocks came before the action that rejected it |
| `Rollback.SaturatedRevisionHidesClicks` | translate/inventory_actions.go:419-465 | at the largest revision a request can send clicks and leave the session as it was |
| `Rollback.RejectionDoesNotRollBack` | translate/inventory_actions.go:65-101 | a concrete request that is rejected and still moves six items to the cursor |
| `SessionLaws.RequestConserves` | translate/inventory_actions.go:59-102 | a request creates no items, and one without drops keeps every total, accepted or rejected |
| `SessionLaws.RequestKeepsCap` | translate/inventory_actions.go:59-102 | stacks of at most 64 stay so over any request |
| `SessionLaws.DecodedIdsAreFresh` | translate/items.go:157-227 | stacks decoded from the server get pairwise different IDs from the counter on, one for each present stack |
| `SessionLaws.StepKeepsIds` | translate/basic.go:835-846 | every server update and every request keeps IDs sound if the counter has room for the IDs it really uses |
| `SessionLaws.EveryRunKeepsIds` | translate/basic.go:807-819 | from a new session, over every mix of updates and requests until the counter wraps, present stacks carry different IDs below the counter |
| `SessionLaws.WrapIsReached` | translate/basic.go:807-819 | a run of server updates from a new session that ends at the last ID with stones in two slots |
| `SessionLaws.CollisionIsReached` | translate/inventory_actions.go:600-610 | one more request ends that run with two stacks of one ID |
| `VarInts.VarIntRoundTrip` | java/protocol/varint.go:9-38 | the five-byte reader inverts the Java VarInt for every 32-bit value |
| `VarInts.ShiftedXorIsZigZag` | translate/chunks.go:526-528 | the shifts and exclusive-or of the code are the ZigZag numbering |
| `VarInts.SignedVarIntRoundTrip` | translate/chunks.go:526-533 | reading a written signed value gives it back and leaves the rest of the input |
| `VarInts.WriteSignedVarInt` | translate/chunks.go:526-533 | appends exactly the ZigZag varint of the value |
| `PackedFields.FieldByShift` | translate/chunks.go:213 | shifting by slot times width and masking gives the field in that slot, for 64-bit words |
| `PackedFields.FieldOfDigits` | translate/chunks.go:470-483 | fields that fit their width do not overlap: each reads back from the number they make up |
| `PalettedStorage.PaletteExact` | translate/chunks.go:456-466 | the palette holds exactly the values, without duplicates |
| `PalettedStorage.WidthIsLeast` | translate/chunks.go:514-524 | the chosen width holds every index, and no narrower allowed width does |
| `PalettedStorage.WidthsExact` | translate/chunks.go:514-524 | the allowed widths, and when no index words are needed |
| `PalettedStorage.StorageMark` | translate/chunks.go:468-469 | the first byte is twice the width plus one |
| `PalettedStorage.WordIsDigits` | translate/chunks.go:471-483 | OR-ing shifted fields into a word adds them up |
| `PalettedStorage.StorageRoundTrip` | translate/chunks.go:455-491 | for 1 to 65536 values, reading a written storage gives the same values and leaves the rest of the input |
| `PalettedStorage.UniformRoundTrip` | translate/chunks.go:455-491 | equal values are stored without index words and read back at any size |
| `PalettedStorage.BuildPalette` | translate/chunks.go:456-466 | the loop with its lookup map gives the palette in order of first appearance and each value's index |
| `PalettedStorage.PackWord` | translate/chunks.go:472-482 | the inner loop packs one word and stops at the last value |
| `PalettedStorage.WriteBedrockStorage` | translate/chunks.go:455-491 | appends header, index words, palette length and palette |
| `JavaPalette.Reader.VarInt` | java/protocol/varint.go:9-27 | the cursor reads what the format says and fails exactly on truncated or oversized numbers |
| `JavaPalette.DecodeJavaPalettedContainer` | translate/chunks.go:146-224 | the decoder succeeds exactly when the format does, with the same values and position, and never indexes out of bounds |
| `JavaPalette.FramedContainer` | translate/chunks.go:146-224 | a framed container is decoded if and only if it has exactly the words its size calls for and no index lies outside the palette |
| `JavaPalette.DecodeInvertsPacking` | translate/chunks.go:197-223 | for every width, palette and index list that fits, packing 64/width fields per word and decoding gives the original values |
| `JavaPalette.DirectRoundTrip` | translate/chunks.go:197-223 | without a palette, at widths 9 to 32, whatever signed values fit the width are decoded as they were |
| `JavaPalette.CountExact` | translate/chunks.go:241-250 | counts are accepted from 0 to 4096 |
| `JavaPalette.MalformedIsRejected` | translate/chunks.go:146-172 | missing input, widths above 32 and empty palettes are rejected |
| `JavaPalette.OutsidePaletteIsRejected` | translate/chunks.go:213-218 | a single index outside the palette makes the decoder reject |
| `JavaSections.DecodeJavaChunkSections` | translate/chunks.go:119-144 | succeeds exactly on one to 32 well-formed sections up to the end of the data, with their block counts, blocks and biomes |
| `JavaSections.SectionsInInverts` | translate/chunks.go:119-144 | 1 to 32 sections packed as the decoder expects, one value at width 0, with a palette at widths 1 to 8 and without from 9 to 32, are decoded to what they mean |
| `JavaSections.BlockFromServerToClient` | translate/chunks.go:119-393 | the block read back at a world position is the table entry of the state that the server sent for it, whichever form packed it, or air for a section that it did not send |
| `JavaSections.BiomeFromServerToClient` | translate/chunks.go:119-393 | the biome read back at a block is the table entry of the one that the server sent for its cell |
| `JavaSections.SectionsAreBounded` | translate/chunks.go:119-127 | section data with no section or with more than 32 is rejected |
| `JavaChunks.FloorDiv16` | translate/block_state_context.go:41-47 | the corrected truncating division is the floor, for negative values too |
| `JavaChunks.FloorMod16` | translate/block_state_context.go:49-55 | the corrected remainder lies in 0 to 15 |
| `JavaChunks.OrThreeIsSum` | translate/block_state_context.go:33 | OR-ing three four-bit fields is the index they spell |
| `JavaChunks.EntityInItsChunk` | translate/block_entities.go:148-156 | a block entity's world position lies in the chunk it came with, at negative chunks too |
| `JavaChunks.EntityPositionExact` | translate/block_entities.go:148-156 | a block entity is at its own column in the chunk and its own height, and has no position exactly when a coordinate does not fit into 32 bits |
| `JavaChunks.StateAtExact` | translate/block_state_context.go:14-39 | a lookup gives the block at the position's own coordinates of the section around it, if the chunk, the section and the state are valid |
| `JavaChunks.ChunkForBlockExact` | translate/block_state_context.go:57-59 | the chunk of a position, at negative coordinates too |
| `ChunkEncoder.FillCell` | translate/chunks.go:502-508 | the three inner loops write the 64 blocks of one biome cell and no others |
| `ChunkEncoder.ExpandJavaBiomes` | translate/chunks.go:493-512 | for a list of any length, after the four loops every one of the 4096 entries holds the image of its Java cell; entries past the 64th start over |
| `ChunkEncoder.ExpandedBiomesAt` | translate/chunks.go:493-512 | the entry of block (x, y, z) is the image of Java cell (x/4, y/4, z/4), 0 for IDs outside the table and for missing cells |
| `ChunkEncoder.ReorderBlocks` | translate/chunks.go:338-354 | the loop over YZX indices moves every block to its XZY index; unknown states become air |
| `ChunkEncoder.SectionValuesAt` | translate/chunks.go:338-354 | the reordered value of block (x, y, z) is the table image of the Java block there |
| `ChunkEncoder.WriteBedrockSection` | translate/chunks.go:434-444 | appends an air sub-chunk without a storage, or one with a single storage |
| `ChunkEncoder.WriteEntities` | translate/chunks.go:372-391 | appends every block entity that is shown, with the state of its block, and fails if one cannot be encoded |
| `ChunkEncoder.EntityBytesExact` | translate/chunks.go:372-391 | block entities that are not shown never fail a chunk, and one that cannot be encoded always does |
| `ChunkEncoder.EntitiesShownWithTheirBlocks` | translate/chunks.go:372-391 | the block entity bytes exist if and only if every shown block entity encodes with the state of the block under it, and are those encodings in order |
| `ChunkEncoder.EntitiesReadBack` | translate/chunks.go:371-391 | reading an encoded chunk ends with exactly those encodings |
| `ChunkEncoder.EncodableExact` | translate/chunks.go:321-359 | the layouts that are encoded: 1 to 32 sections within -128 to 127, each with 0 or 4096 blocks and 0 or 64 biomes |
| `ChunkEncoder.EncodeBedrockChunk` | translate/chunks.go:321-393 | a payload is given exactly when the layout and every section size fit the format and no block entity fails |
| `ChunkEncoder.SubChunkRoundTrip` | translate/chunks.go:434-444 | reading a written sub-chunk gives its signed index and all 4096 blocks |
| `ChunkEncoder.SubChunkFormat` | translate/chunks.go:434-453 | a sub-chunk starts with version 9, its storage count and its index; equal air needs no storage |
| `ChunkEncoder.ChunkRoundTrip` | translate/chunks.go:321-393 | reading an encoded chunk gives every sub-chunk, then every biome storage, the border byte and the block entity bytes |
| `ChunkEncoder.BlockAtWorldPosition` | translate/block_state_context.go:14-39 | the block read back at a world position is the table image of the state the lookup finds there, or air where it finds none |
| `ChunkEncoder.BiomeAtBlock` | translate/chunks.go:360-370 | every block read back shows the biome of its Java cell, or 0 where the section has none |
| `ChunkEncoder.EmptyBedrockChunkPayload` | translate/chunks.go:410-421 | one biome storage, carry markers for the other sections, and the border byte |
| `ChunkEncoder.EmptyChunkRoundTrip` | translate/chunks.go:410-421 | the empty payload reads as biome 0 in every section and nothing left over |
| `ChunkEncoder.EmptyChunkFormat` | translate/chunks.go:410-421 | the bytes of the empty payload for every section count |
| `RecentStates.EvictsLeastRecent` | translate/block_state_context.go:160-223 | after any run the cache has at most 32768 entries without duplicates and is the recent end of the unbounded recency list, so only least recently touched entries were evicted |
| `Evictions.EvictedExactly` | translate/block_state_context.go:160-223 | after any run, a remembered position is still in the cache if and only if no put since its own left 32768 others more recent |
| `Evictions.TrackerRunsTheCache` | translate/block_state_context.go:65-138 | the cache of a tracker is the bounded cache after the operations that its events perform |
| `Evictions.CacheExact` | translate/block_state_context.go:160-223 | after any run of events, the cache holds a position if and only if something was recorded for it and it was not overtaken, with the state recorded last |
| `StateCache.BlockStateCache.LookupAgrees` | translate/block_state_context.go:160-179 | the map finds a position exactly when the list holds it, with the same state |
| `StateCache.BlockStateCache.Put` | translate/block_state_context.go:181-198 | map and list stay in step; the entry is the most recent and the oldest is evicted beyond the bound |
| `StateCache.BlockStateCache.Get` | translate/block_state_context.go:200-210 | a hit becomes the most recent entry, a miss changes nothing |
| `StateCache.BlockStateCache.RemoveChunk` | translate/block_state_context.go:212-223 | removes exactly the entries of the chunk and keeps the order of the others |
| `BlockTrackerClass.BlockTracker.RememberChunkBlockEntityStates` | translate/block_state_context.go:65-87 | clears the chunk, then tracks each block entity with its state or as unknown |
| `BlockTrackerClass.BlockTracker.RememberBlockEntityPosition` | translate/block_state_context.go:89-105 | tracks the position with the cached state, keeping what is known when the cache has none |
| `BlockTrackerClass.BlockTracker.RememberBlockStateChange` | translate/block_state_context.go:107-118 | caches the state and updates a tracked position, an invalid state becoming unknown |
| `BlockTrackerClass.BlockTracker.CachedBlockEntityState` | translate/block_state_context.go:120-128 | answers from the map first, then from the cache, never with a negative state |
| `BlockTrackerClass.BlockTracker.ForgetBlockEntityChunk` | translate/block_state_context.go:130-138 | clears the chunk's tracked positions and its cache entries |
| `BlockTrackerClass.BlockTracker.ClearBlockEntityChunk` | translate/block_state_context.go:149-158 | removes exactly the indexed positions and leaves an empty index for a chunk that had one |
| `BlockTracking.StepConsistent` | translate/block_state_context.go:65-158 | every event keeps map, index and cache consistent with each other and with the unbounded record of last states |
| `BlockTracking.IndexAlwaysConsistent` | translate/block_state_context.go:65-158 | in every reachable state a position is in the map exactly when the index has it under its own chunk, and the index has nothing else |
| `BlockTracking.LookupIsLastRecorded` | translate/block_state_context.go:120-128 | after every run, an answer is the state recorded last for the position since its chunk was forgotten |
| `Evictions.LookupExact` | translate/block_state_context.go:120-128 | after every run, a lookup answers if and only if a valid state was recorded and the position is known to the map or was not evicted; the answer is the state recorded last |
| `LookupHistory.HistoryExact` | translate/block_state_context.go:65-128 | after every run, a position is tracked, and its state known, exactly when the loads, updates, changes and clearings before say so |
| `LookupHistory.BringsExact` | translate/block_state_context.go:70-76 | a load brings a block entity to a position of its chunk if and only if one has the position's column and height |
| `LookupHistory.LoadedExactly` | translate/block_state_context.go:65-87 | after a load a position of the chunk is tracked if and only if a block entity has its column and height, with the state of the block there or as unknown |
| `LookupHistory.FittingEntityIsTracked` | translate/block_state_context.go:65-87 | a load drops exactly the block entities whose world coordinates do not fit into 32 bits |
| `LookupHistory.LookupFromHistory` | translate/block_state_context.go:120-128 | after every run, a lookup answers if and only if the state recorded last is valid and was found for a block entity there, or has not been pushed out of the cache, said of the events alone |
| `BlockTracking.TrackedAnswersDespiteEviction` | translate/block_state_context.go:107-128 | a tracked position with a valid state keeps answering with its latest state despite evictions, until its chunk is cleared or an invalid state is set |
| `BlockTracking.ForgottenChunkHasNoAnswers` | translate/block_state_context.go:130-138 | after a chunk is forgotten no lookup in it succeeds until something is recorded there |
| `EnumTables.DecimalRoundTrip` | translate/commands.go:250 | the decimal form of a length reads back and has only digits |
| `EnumTables.KeyIsInjective` | translate/commands.go:248-251 | different string lists have different keys |
| `EnumTables.EnumTable.AddEnum` | translate/commands.go:247-268 | the index denotes the list; an old list keeps index and table, a new one is added at the end; earlier indices still denote their lists |
| `EnumTables.EnumTable.ListsAreDistinct` | translate/commands.go:247-268 | different indices denote different lists |
| `CommandGraph.OverloadsExact` | translate/commands.go:354-401 | the enumeration lists exactly the parameter lists of simple walks from the node to an executable node, with redirects followed silently and at most 32 parameters |
| `CommandRoutes.OverloadsInOrder` | translate/commands.go:354-401 | the enumeration has one overload for each route of at most 32 parameters through the graph, in preorder by child position |
| `CommandRoutes.AscendingIsUnique` | translate/commands.go:354-401 | listing every route once and in order determines the list, and with it the first 256 |
| `CommandRoutes.RouteIsWalk` | translate/commands.go:354-401 | every route is a simple walk to an executable node and collects the parameters of the walk |
| `CommandParameters.LiteralNamesAt` | translate/commands.go:372-377 | the names of a literal enum are those at the ascending positions of exactly the children that are literals of the graph |
| `CommandParameters.StepParameterExact` | translate/commands.go:382-397 | a literal's parameter has the enum of exactly its literal siblings, a boolean's that of the two values, and any other argument's its parser's type |
| `CommandParameters.OverloadParameters` | translate/commands.go:354-401 | an overload has one such parameter for each child that its route enters, in order, and none for redirects |
| `CommandParameters.BasicTypesExact` | translate/commands.go:403-429 | the parsers of each basic type |
| `CommandParameters.AcceptingExact` | translate/commands.go:354-401 | the walks that overloads stand for, in terms of flags, children and redirects |
| `CommandBuilder.Collector.Collect` | translate/commands.go:354-401 | the search with shared visited set and accumulator ends on every graph, restores the visited set, and leaves the first 256 of the enumeration |
| `CommandBuilder.Collector.CollectChildren` | translate/commands.go:372-400 | the same for the children; the literals among them share the enum of exactly their names, in order |
| `CommandBuilder.Collector.StepFor` | translate/commands.go:382-397 | a child's parameter has the literal siblings' enum, the booleans' enum or the parser's basic type |
| `CommandBuilder.ListingIsStable` | translate/commands.go:247-268 | overloads built so far keep their meaning while the enum tables grow |
| `CommandAliases.ResolveJavaCommandRedirect` | translate/commands.go:341-352 | the loop ends on every graph with the resolved node |
| `CommandAliases.ResolveIsIdempotent` | translate/commands.go:341-352 | resolving a resolved node gives it again, on cycles too |
| `CommandAliases.ResolveIsReached` | translate/commands.go:341-352 | the resolved node is reached from the start by following redirects |
| `CommandAliases.ResolveExact` | translate/commands.go:341-352 | resolution ends at the first node that has no further redirect inside the graph or was met before |
| `CommandAliases.OwnerExact` | translate/commands.go:285-292 | a literal belongs to the node that it resolves to if it redirects and the root lists that node as a literal, and to itself otherwise |
| `CommandAliases.OwnerOwnsItself` | translate/commands.go:285-292 | the command that a root literal belongs to belongs to itself |
| `CommandAliases.GroupsPartition` | translate/commands.go:270-303 | for every graph and list of children: owners are literal children that belong to themselves, one group each; aliases are the other named literals that resolve there, as often as listed; every named literal is in exactly one group |
| `CommandNames.ShownExactly` | translate/commands.go:278-303 | for every graph, list of children and node, after any number of children: the node is shown once if a named literal belongs to it, and as often as it was listed if it belongs to another |
| `CommandNames.NamesExact` | translate/commands.go:304-337 | the listed names are those of the groups' nodes, or the single help command when there are none |
| `CommandNames.CommandsExact` | translate/commands.go:304-328 | every command has the name of its group's node, the names of its aliases, and the first 256 overloads of the node or a single empty one |
| `CommandNames.HelpExact` | translate/commands.go:329-337 | without groups there is the help command |
| `CommandNames.GroupsInOrder` | translate/commands.go:278-303 | groups are in the order of the first child that belongs to each, and aliases in the order of the children |
| `CommandNames.NamesAsListed` | translate/commands.go:270-337 | for every graph: the names of commands and aliases are those of the root's named literals, each as often as listed, if and only if no self-owned literal is listed twice and none belongs to an unnamed one |
| `CommandNames.EveryNameOnce` | translate/commands.go:270-337 | in particular, for distinct children and named literals every name is shown exactly once, as a command or as an alias |
| `CommandNames.DuplicateAliasIsKept` | translate/commands.go:300-302 | an alias that the root lists twice is an alias twice |
| `CommandNames.DuplicateCommandIsDropped` | translate/commands.go:294-302 | a command that the root lists twice is shown once |
| `CommandNames.UnnamedOwnerIsShown` | translate/commands.go:283-299 | a literal without a name becomes a command when another literal belongs to it |
| `CommandBuilder.Projection.GroupChildren` | translate/commands.go:270-303 | the loop with its index map builds those groups, in order of first appearance, with the aliases' names |
| `CommandBuilder.Projection.AddCommand` | translate/commands.go:304-328 | adds the command of a group: its first 256 overloads or an empty one, and its aliases' enum |
| `CommandBuilder.Projection.Build` | translate/commands.go:241-339 | the commands are those of the root's groups, or help; a root outside the graph gives none and one skipped node |
| `Chat.NormalizeIncomingChat` | translate/chat.go:21-51 | the single pass gives the words of the message joined by one space |
| `Chat.SpacesExact` | translate/chat.go:49-51 | whitespace is the 25 code points of the Unicode White_Space property |
| `Chat.WordsSplit` | translate/chat.go:21-51 | a whitespace rune separates: the words of both sides are the words of the whole |
| `Chat.WordsOfWord` | translate/chat.go:21-51 | runes without whitespace are one word |
| `Chat.WordsOfJoin` | translate/chat.go:21-51 | splitting joined words gives the words back |
| `Chat.NormalizedIsFixed` | translate/chat.go:21-51 | normalizing is idempotent |
| `Chat.NormalizedKeepsRunes` | translate/chat.go:21-51 | the other runes stay in order and the message gets no longer |
| `Chat.JoinIsTight` | translate/chat.go:21-51 | no space at either end, no two together, and no other whitespace |

## Left out

- EveryRunKeepsIds: stops where the 32-bit counter would wrap; CollisionIsReached shows that the property does not hold beyond.
- SectionsInInverts: does not cover containers without a palette at widths 1 to 8; the decoder takes the start of such a container for a palette.
- AcceptedItemStackRequest: the numbers of the containers come from a library whose source is not part of this model; they are arbitrary, but different for the containers of player slots.
- UnchangedExact: keeps one direction only at the largest revision, where the other does not hold (SaturatedRevisionHidesClicks).
- BlockAtWorldPosition: takes a block table with one entry for each of the 27866 Java states, as the generated table has; its contents are arbitrary.
- EncodeBedrockChunk: what a block entity is shown as, and its NBT encoding, is an arbitrary function of the entity and its block state.
- StepFor: gives the kind and the enum of a parameter; the flag bits that are OR-ed into its type come from a library whose source is not part of this model.
- EntityInItsChunk: takes local columns 0 to 15, which the chunk decoder guarantees; the runs in `BlockTracking` take chunks with such block entities.
- Inventories of open windows; requests are modelled for a player without one.
- Locks, logging and network writes: every operation is one step, and writing a packet succeeds.
- The parts of an item that only matter through equality are one opaque value; whether a stack can be encoded for Java is an arbitrary predicate on its kind. There is no round trip for item components, because the writer puts the removed-component count last and the reader expects it first.
- Container identifiers and command argument flags come from a library whose source is not part of this model: they are datatypes, and OR-ing an enum index with flag bits, enum type names and permission levels are not modelled.
- Packet framing around chunks and command graphs, light data and heightmaps, and all packet decoders other than section data.
- Generated tables are arbitrary sequences. Strings are sequences of characters; the byte length in an enum key is the number of characters.
- Shifts and masks by constants are written as division and remainder; OR and exclusive-or are bit by bit, and the index arithmetic that uses them is proved equal to sums.
- Sharing of backing arrays when a path is extended: paths are values, and every overload is copied when it is emitted.
- The other event handlers of the session, entity metadata, movement and effects.
