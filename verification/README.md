# A verified model of SGDK's allocators, linked structures and incremental updaters

SGDK is a development kit for the Sega Mega Drive. Its library keeps a heap, a video memory allocator,
two sprite engines, a scrolling map engine, a double buffered bitmap mode, a DMA queue, a bank switcher, an
object pool, palette fades and number printing in a few hundred bytes of state each, updated in place and
often incrementally. This project models these parts in Dafny and proves that they agree with simple
specifications over runs of any length.

Each module states what its part is for as functions and predicates on values, proves what every operation
keeps as lemmas about those, and gives the operations themselves as methods of classes or on arrays, with the
loops of the original, proved against the specification.

- `Machine.dfy`: 16-bit integers and the arithmetic of quotients and remainders.
- `Blocks.dfy`: regions of memory tiled by blocks with headers, shared by the two allocators.
- `Memory.dfy`, `Vram.dfy`: the heap and the tile allocator.
- `MapTiles.dfy`, `MapScroll.dfy`: the map decoders, and the scrolling window.
- `SpriteLists.dfy`: the doubly linked, depth-sorted list of both sprite engines.
- `VdpSprites.dfy`, `LegacySprites.dfy`: the hardware sprite allocator, and the chain of hardware links that
  mirrors the list of the legacy engine.
- `Frames.dfy`, `LegacyFrames.dfy`, `LegacyDisplay.dfy`: how frames of the legacy engine reach their hardware
  entries, and the whole engine, list, links and entries together.
- `SpriteTable.dfy`: the sprite attribute table of the new engine.
- `BitmapFlip.dfy`, `BitmapScale.dfy`: the flip and blit state machine, and the scaler.
- `DmaQueue.dfy`, `Mapper.dfy`, `ObjectPool.dfy`, `Palette.dfy`, `Text.dfy`: the smaller parts.

Pointers are indexes: sprites, pool objects and hardware entries are numbers, and a linked structure is a set of
sequences of such numbers held in fields. Heap, tile, map and text buffers are arrays. Masks and shifts by powers
of two are written as quotients and remainders; 16-bit wrap-around is explicit wherever it can be reached.
Hardware is the memory it writes: a plane, a sprite table, tile memory. What comes from outside (whether video
memory can be had, DMA capacity, which frame an animation is at, the visibility computed for a sprite) is a
parameter.

Where the code does not do what its interface suggests, the model follows the code, and the exact condition under
which it does is proved, with an input that breaks it: requests of 65533 and 65534 bytes (`Memory.AdjWordsExact`,
`Memory.Heap.Alloc`), requests for 0 tiles (`Vram.VramRegion.Alloc`), the largest free tile block
(`Vram.LargestBlock`, `Vram.LargestUnderReports`), the recomputed highest hardware sprite (`VdpSprites.RefreshRight`,
`VdpSprites.GiveIntact`, `VdpSprites.RefreshTooLow`, `VdpSprites.RefreshTooHigh`), failed definition changes
(`LegacySprites.LegacyEngine.SetDefinition`), sprites hidden from the start (`LegacyFrames.Process`,
`LegacyDisplay.StaleEntries`, `LegacyDisplay.StaleRun`), a first DMA transfer over the limit (`DmaQueue.SentExactly`,
`DmaQueue.SentWithoutWrap`), far data over more than two banks (`Mapper.Banks.GetFarDataSafe`), mixed pool releases
(`ObjectPool.ReleaseFree`, `ObjectPool.MixedBreaks`), long fades (`Palette.FadeEnds`, `Palette.SlowFadeMisses`), large
scalings (`BitmapScale.FitsExactly`, `BitmapScale.LargeMisfit`), scalings of pictures with padding
(`BitmapScale.OriginRight`), and scrolls for which the DMA buffer is too full (`MapScroll.Map.ScrollToEx`).

## Model

| member | source | states |
|---|---|---|
| `Memory.AdjWordsExact` | src/memory.c:260-262 | The 16-bit rounding of a request holds its bytes and a header exactly up to 65532 bytes, and is cut to nothing for 65533 and 65534. |
| `Memory.AllocInv` | src/memory.c:252-324 | An allocation keeps the blocks tiling the heap and the search pointer at an unused block or the end; while no packing is due, no two unused blocks are adjacent. |
| `Memory.FreeInv` | src/memory.c:473-507 | Giving a block back keeps the blocks tiling the heap and the search pointer at an unused block or the end. |
| `Memory.PackInv` | src/memory.c:509-562 | Packing keeps the blocks tiling the heap, and leaves no two unused blocks adjacent. |
| `Memory.AllocComplete` | src/memory.c:252-313 | An allocation fails if and only if no run of adjacent unused blocks of the heap it was called on is large enough, wherever the search pointer stands and however much packing is due. |
| `Memory.AllocLive` | src/memory.c:252-324 | The blocks in use after an allocation are those before it and the one returned. |
| `Memory.FreeLive` | src/memory.c:473-507 | The blocks in use after a release are those before it without the one given back. |
| `Memory.EveryRun` | src/memory.c:162-562 | After every run from a fresh heap the blocks tile it exactly, the blocks in use are those the client holds, they are inside the heap and disjoint, and free and used words add up to its length. |
| `Memory.PayloadKept` | src/memory.c:252-562 | A call that writes only unused blocks leaves every word of a block in use as it was. |
| `Memory.Heap.constructor` | src/memory.c:162-189 | A fresh heap is one unused block in memory. |
| `Memory.Heap.GetFree` | src/memory.c:191-207 | The result is the sum of the unused blocks. |
| `Memory.Heap.GetAllocated` | src/memory.c:234-250 | The result is the sum of the blocks in use. |
| `Memory.Heap.GetLargestFreeBlock` | src/memory.c:209-232 | A run of adjacent unused blocks of some size exists if and only if the result is at least that size. |
| `Memory.Heap.SizesMatch` | src/memory.c:564-577 | Free and allocated sizes always add up to the heap length, so this test never fails. |
| `Memory.Heap.Compact` | src/memory.c:509-553 | The packing walk leaves the coalesced blocks in memory, finds the first unused one, and writes only words of unused blocks. |
| `Memory.Heap.PackFor` | src/memory.c:698-750 | Packing stops at the first run that is large enough, leaves memory tiled up to there and beyond, and says where that run starts. |
| `Memory.Heap.Find` | src/memory.c:264-294 | The block chosen is the one at the search pointer, the first that fits after it, or the first run that packing from the start makes large enough. |
| `Memory.Heap.Take` | src/memory.c:296-323 | The block is split where the request ends, and the search pointer moves to the rest or to the next unused block. |
| `Memory.Heap.Alloc` | src/memory.c:252-324 | An allocation does in memory what the specification does to the blocks, and writes only unused words; the two sizes cut to 0 overwrite a header. |
| `Memory.Heap.Free` | src/memory.c:473-507 | A release clears the flag of a block in use and asks for packing; a null pointer, or a block already given back, changes no block. |
| `Memory.Heap.Write` | src/memory.c:318-323 | The words behind the header of a block are the client's: one that writes to them changes neither the tiling nor the state of the heap. |
| `Memory.RecordMeans` | src/memory.c:252-507 | A client may write to every word of a block it holds but the header; a block it is given is its own, and giving one back ends what was written there and nothing else. |
| `Memory.Heap.Run` | src/memory.c:162-562 | In every run of requests and writes of a client, from a fresh heap on, the blocks in use are the ones its requests and their answers say it holds, and every word it wrote to them still holds what it last wrote; a request is answered `None` exactly when the heap at that moment has no run of adjacent unused blocks with the words. |
| `Vram.AllocComplete` | src/vram.c:135-201 | An allocation of at least one tile fails if and only if no run of adjacent unused blocks has the tiles, even with the search pointer left on a zeroed word inside a merged block. |
| `Vram.AllocInv` | src/vram.c:135-201 | An allocation, failed or not, keeps the blocks tiling the region and the search pointer off every block in use. |
| `Vram.FreeInv` | src/vram.c:203-214 | A release keeps the blocks tiling the region and the search pointer off every block in use. |
| `Vram.AllocLive` | src/vram.c:135-201 | The tile ranges in use after an allocation are those before it and the one returned. |
| `Vram.FreeLive` | src/vram.c:203-214 | The tile ranges in use after a release are those before it without the one given back. |
| `Vram.EveryRun` | src/vram.c:41-214 | After every run the tile ranges in use are those the client holds; they are inside the region and disjoint. |
| `Vram.LargestBlock` | src/vram.c:79-104 | The largest single unused block is the longest run if and only if every run of two or more adjacent unused blocks is at most as large as some single one. |
| `Vram.PackedCovered` | src/vram.c:79-104 | In a packed region that condition holds. |
| `Vram.LargestUnderReports` | src/vram.c:79-104 | In the run that takes both tiles of a region of two and gives them back, the largest block is one tile, yet two tiles can be allocated. |
| `Vram.VramRegion.constructor` | src/vram.c:23-52 | A fresh region is one unused block in memory. |
| `Vram.VramRegion.PackFor` | src/vram.c:220-273 | Packing stops at the first run that is large enough and leaves the region tiled; a search pointer it passes over is left on a word that is 0 or starts a block. |
| `Vram.VramRegion.Take` | src/vram.c:169-190 | The block is split where the request ends, and the search pointer moves to the rest or to the next unused block. |
| `Vram.VramRegion.Alloc` | src/vram.c:135-201 | An allocation does in memory what the specification does to the blocks; a request for 0 tiles overwrites a header. |
| `Vram.VramRegion.Free` | src/vram.c:203-214 | A release does in memory what the specification does to the blocks; an index outside the region, or one that starts no block in use, changes nothing. |
| `Vram.VramRegion.GetLargestFreeBlock` | src/vram.c:79-104 | The result is the size of the largest single unused block, and it is the longest run exactly under the condition of `LargestBlock`. |
| `MapTiles.MetaTileIs` | src/map.c:1566-1578 | The metatile at any place of any block of the map is the one the tables of row offsets, block indexes and blocks give for it. |
| `MapTiles.MapRepeats` | src/map.c:67-69 | The map repeats with its own width and height, over all coordinates. |
| `MapTiles.ShownIs` | src/map.c:1499-1509 | Each of the four tiles of a metatile is the one the metatile table has for it, plus the base tile, in 16 bits. |
| `MapTiles.PrepareColumn` | src/map.c:538-597 | The column decoder, walking blocks, writes at every position the random access tile plus the base tile in 16 bits, and nothing else. |
| `MapTiles.PrepareRow` | src/map.c:1038-1092 | The row decoder, walking blocks, writes at every position the random access tile plus the base tile in 16 bits, and nothing else. |
| `MapTiles.ShownRepeats` | src/map.c:1504-1509 | What a map shows repeats with its 16-bit coordinates. |
| `MapTiles.LayoutsTransposed` | src/map.c:1516-1563 | The column and row arrangements of a rectangle are transposes of one another. |
| `MapTiles.GetColumns` | src/map.c:1516-1541 | The column arrangement holds every tile of the rectangle, column after column. |
| `MapTiles.GetRows` | src/map.c:1543-1563 | The row arrangement holds every tile of the rectangle, row after row. |
| `MapTiles.GetMetaTilemapRect` | src/map.c:1622-1678 | Every metatile of the rectangle is the one random access finds. |
| `MapScroll.WindowShows` | src/map.c:379-493 | In a window that is shown, tile (tx, ty) of the map is in column tx mod 64 and row ty mod the height of the plane. |
| `MapScroll.ColumnExtends` | src/map.c:284-377 | A column drawn next to a stretch that agrees with the map extends it, and reaches nothing else of the window. |
| `MapScroll.RowExtends` | src/map.c:284-377 | A row drawn next to a stretch that agrees with the map extends it, and reaches nothing else of the window. |
| `MapScroll.AgreeRepeats` | src/map.c:284-377 | What is shown at a position is shown at every position with the same 16 bits. |
| `MapScroll.SetMapColumn` | src/map.c:379-436 | With room in the DMA buffer the metatile column is drawn, in one piece or two around the edge of the plane, and the other columns are kept; without it nothing changes. |
| `MapScroll.SetMapRow` | src/map.c:438-493 | With room in the DMA buffer the metatile row is drawn, in one piece or two around the edge of the plane, and the other rows are kept; without it nothing changes. |
| `MapScroll.UpdateColumns` | src/map.c:331-351 | With room for all of them, the plane agrees with the map on all columns of the new window after the column loops; otherwise the last of them is not drawn. |
| `MapScroll.UpdateRows` | src/map.c:353-373 | With room for all of them, the plane agrees with the map on the whole new window after the row loops; otherwise the last of them is not drawn. |
| `MapScroll.Map.UpdateMap` | src/map.c:284-377 | The plane goes from the window at the last position to the one at the new position, incrementally or with a full redraw, given the DMA room it needs; with less, some cell of the window is not drawn. |
| `MapScroll.Map.ScrollToEx` | src/map.c:209-275 | For every 32-bit pixel position the plane then shows the map through the window there, on planes of 64x32 and 64x64 cells, if it did before or the move leaves nothing of the old window, and the DMA room it needs is there; with less, some cell of the window is not drawn. |
| `MapScroll.Map.ScrollAll` | src/map.c:209-282 | Any sequence of scrolls leaves the plane showing the window of the last one, if all calls since some redraw (the first call of a map is one) had room; what was missed before it does not matter. |
| `SpriteLists.UnlinkOk` | src/sprite_eng.c:270-319 | Taking a sprite out leaves the others linked both ways in the same order. |
| `SpriteLists.LinkAfterOk` | src/sprite_eng.c:2216-2238 | Putting a sprite in after another leaves the list linked both ways with it as the next one. |
| `SpriteLists.ResortedSorted` | src/sprite_eng.c:2150-2188 | Sorting one sprite into a list whose others are sorted sorts the list. |
| `SpriteLists.PassesOnly` | src/sprite_eng.c:2150-2188 | The sprite sorted passes only others of another depth, so that it stays where it is among its equals and in a sorted list. |
| `SpriteLists.AddedOrdered` | src/sprite_eng.c:223-268 | A sprite put first with the smallest depth, or last with the largest, keeps the list in order. |
| `SpriteLists.ReleasedOrdered` | src/sprite_eng.c:270-319 | A release keeps the list in order. |
| `SpriteLists.DepthReady` | src/sprite_eng.c:1102-1122 | A new depth and one sort keep the list in order and move only that sprite. |
| `SpriteLists.SpriteList.AddSprite` | src/sprite_eng.c:223-268 | A sprite of the pool that is not in use is put first or last; it fails if and only if all are in use. |
| `SpriteLists.SpriteList.ReleaseSprite` | src/sprite_eng.c:270-319 | The sprite leaves the list and the others keep their order; one not in use is left alone. |
| `SpriteLists.SpriteList.MoveAfter` | src/sprite_eng.c:2190-2238 | The links after a move are those of the sprite taken out and put in again. |
| `SpriteLists.SpriteList.FindPlace` | src/sprite_eng.c:2150-2188 | The two searches find whether the sprite has to move, and behind which other. |
| `SpriteLists.SpriteList.SortSprite` | src/sprite_eng.c:2150-2188 | Only the sprite moves, to where its depth belongs. |
| `SpriteLists.SpriteList.SetDepth` | src/sprite_eng.c:1102-1122 | The list stays well formed at both ends and sorted, and all others keep their relative order. |
| `VdpSprites.VisitsChain` | src/vdp_spr.c:54-128 | Following links from an entry of a chain visits exactly the rest of it. |
| `VdpSprites.Unchain` | src/sprite_eng_legacy.c:269-318 | One link takes a piece out of a chain. |
| `VdpSprites.Enchain` | src/sprite_eng_legacy.c:1691-1743 | Two links put a piece into a chain. |
| `VdpSprites.PoppedOut` | src/vdp_spr.c:54-107 | What an allocation takes off the stack and what it leaves is what there was. |
| `VdpSprites.SpriteCache.Reset` | src/vdp_spr.c:32-51 | All entries are free, and entry 0 is the next one handed out. |
| `VdpSprites.SpriteCache.Allocate` | src/vdp_spr.c:54-107 | The entries handed out are linked one to the next, the last to 0, and no other link changes; the highest index still covers all entries in use; it fails if and only if there are too few. |
| `VdpSprites.SpriteCache.Release` | src/vdp_spr.c:108-128 | The entries found along the links are pushed back in order, over what lay above the free ones. |
| `VdpSprites.HighestIs` | src/vdp_spr.c:14-20 | Every entry in use is at most the highest index that allocation keeps. |
| `VdpSprites.HighestMax` | src/vdp_spr.c:135-153 | The recomputed index is the maximum of what lies above the free entries on the stack. |
| `VdpSprites.RefreshRight` | src/vdp_spr.c:135-153 | When every entry is on the stack once, that is exactly the highest entry in use. |
| `VdpSprites.GiveIntact` | src/vdp_spr.c:108-128 | Giving entries back keeps every entry on the stack once if and only if they are the ones that lie just above the free ones, in any order. |
| `VdpSprites.RefreshAfterRun` | src/vdp_spr.c:40-153 | In every run from a reset that gives entries back in such order the recomputed index is the highest entry in use. |
| `VdpSprites.RefreshTooLow` | src/vdp_spr.c:135-153 | After three entries are handed out and the second is given back, the recomputed index is below an entry in use. |
| `VdpSprites.RefreshTooHigh` | src/vdp_spr.c:135-153 | After two entries are given back in the order they were taken, both taken again and one given back, the recomputed index is above the only entry in use. |
| `VdpSprites.SpriteCache.RefreshHighest` | src/vdp_spr.c:135-153 | The loop computes that maximum, which is the highest entry in use when every entry is on the stack once. |
| `LegacySprites.MirrorsVisit` | src/sprite_eng_legacy.c:222-331 | The hardware, starting at entry 0, visits the entries of the sprites in list order and stops. |
| `LegacySprites.AddMirrors` | src/sprite_eng_legacy.c:400-420 | Giving a sprite entries keeps the links mirroring the list; the starter, the entries in the list and the free ones stay all entries, each once. |
| `LegacySprites.ReleaseMirrors` | src/sprite_eng_legacy.c:494-520 | Taking the entries of a sprite back keeps the links mirroring the list and the entries shared out. |
| `LegacySprites.MoveMirrors` | src/sprite_eng_legacy.c:2216-2290 | The three links of a move keep the links mirroring the list. |
| `LegacySprites.LegacyEngine.constructor` | src/sprite_eng_legacy.c:123-208 | The list is empty, and the starter entry is taken. |
| `LegacySprites.LegacyEngine.AddSprite` | src/sprite_eng_legacy.c:346-454 | List and chain grow by the sprite at the chosen end; it fails, with the list as before, exactly when sprites, entries or video memory are short. |
| `LegacySprites.LegacyEngine.ReleaseSprite` | src/sprite_eng_legacy.c:494-532 | List and chain lose the sprite, and its entries are free again. |
| `LegacySprites.LegacyEngine.SetDepth` | src/sprite_eng_legacy.c:993-1013 | List and chain move the sprite together. |
| `LegacySprites.LegacyEngine.SetDefinition` | src/sprite_eng_legacy.c:701-785 | It succeeds exactly when there are entries enough and video memory; the invariant holds afterwards if and only if it succeeded or the number of entries did not change, and what a failed call leaves is told. |
| `LegacySprites.LegacyEngine.Run` | src/sprite_eng_legacy.c:222-532 | After any sequence of adds, releases, depth and definition changes the hardware visits the starter and the entries of the depth-sorted list; starter, entries and free stack share out the table, and all entries visited are in the part of it that is sent. |
| `LegacyFrames.EntryIs` | src/sprite_eng_legacy.c:1933-2100 | A visible part is at its offset from the position of the sprite, plain or flipped as bits 11 and 12 of the attribute say, with its size and its tiles after those of the parts before; any other entry is hidden. |
| `LegacyFrames.EntryMoves` | src/sprite_eng_legacy.c:1952-1991 | A sprite that moves by some distance takes each of its visible parts along by that distance. |
| `LegacyFrames.DelayedIs` | src/sprite_eng_legacy.c:1870-1889 | A frame is delayed exactly when its tiles are to be uploaded in time and the DMA capacity left is less than their bytes. |
| `LegacyFrames.AutoFollows` | src/sprite_eng_legacy.c:797-991 | With automatic visibility, moving or flipping a sprite has its visibility computed anew by the next update; otherwise, or when only priority or palette change, it is kept. |
| `LegacyFrames.ShownOrHidden` | src/sprite_eng_legacy.c:1466-1531 | A sprite set visible or hidden has that visibility at the next update, which writes the change. |
| `LegacyFrames.RevealedFast` | src/sprite_eng_legacy.c:1466-1531 | Fast automatic visibility is computed anew by the next update, unless it was already on. |
| `LegacyFrames.RevealedSlow` | src/sprite_eng_legacy.c:1466-1531 | Slow automatic visibility is computed anew by the next update, unless it was already on. |
| `LegacyFrames.UpdatedHides` | src/sprite_eng_legacy.c:1933-2123 | After an update all entries from the last counted frame on are hidden. |
| `LegacyFrames.CountNext` | src/sprite_eng_legacy.c:1891-1901 | Counting another frame leaves the number of entries that may still be seen as it is, within bounds. |
| `LegacyFrames.DrawParts` | src/sprite_eng_legacy.c:1952-1991 | Every part is written to the sprite's own entry, hidden or at its flipped or plain offset, with its tiles after those before it. |
| `LegacyFrames.UpdateFrame` | src/sprite_eng_legacy.c:1860-1931 | A frame change, done or delayed for want of DMA capacity, is that of `Framed`; it keeps the sum of the last count and the number to hide, and the invariant of the sprite. |
| `LegacyFrames.UpdateTable` | src/sprite_eng_legacy.c:1933-2123 | An update writes exactly what `Goal` says to the sprite's entries and nothing else, and walks no further. |
| `LegacyFrames.AllShows` | src/sprite_eng_legacy.c:1933-2019 | A full update of a counted frame makes the entries show exactly the visible parts of the sprite. |
| `LegacyFrames.PosShows` | src/sprite_eng_legacy.c:2021-2100 | So does an update of the positions alone, when sizes and attributes are those of the frame. |
| `LegacyFrames.HideHides` | src/sprite_eng_legacy.c:2102-2123 | Hiding a sprite hides all its entries. |
| `LegacyFrames.WriteTable` | src/sprite_eng_legacy.c:1614-1638 | The update that is made, and the sprite's invariant after it. |
| `LegacyFrames.SetVisibility` | src/sprite_eng_legacy.c:1466-1531 | The four visibility settings change flags and visibility as `Revealed` tells, and keep what is known of the sprite. |
| `LegacyFrames.Process` | src/sprite_eng_legacy.c:1603-1642 | The fields of the sprite and its entries become exactly what the input makes of them; once drawn, its entries show exactly its visible parts or nothing, and a visible one whose frame is not delayed is drawn; one that is hidden is seen no more if and only if what its entries held beyond the reach of hiding was hidden before. |
| `LegacyDisplay.EntryOnce` | src/sprite_eng_legacy.c:1691-1743 | No entry belongs to two sprites of the list, and the starter to none. |
| `LegacyDisplay.OneGood` | src/sprite_eng_legacy.c:1603-1642 | Processing one sprite keeps the invariants of all others. |
| `LegacyDisplay.Display.AddSprite` | src/sprite_eng_legacy.c:346-454 | It succeeds exactly when there are a sprite, entries and video memory; the sprite is then first or last, at the position asked for, with the attribute, visibility and flags asked for, waiting for its first frame, and nothing else changes. |
| `LegacyDisplay.Display.SetDefinition` | src/sprite_eng_legacy.c:701-785 | When it succeeds the sprite keeps its place, flips, priority, palette and visibility, has its tiles where they were put, and waits for its first frame. |
| `LegacyDisplay.Display.Update` | src/sprite_eng_legacy.c:1550-1651 | Every sprite of the list gets the fields and the entries that its old fields and its input make, no other sprite or entry changes, and what is shown is what `OnScreen` says, delayed frames and sprites hidden from the start included. |
| `LegacyDisplay.AllShown` | src/sprite_eng_legacy.c:1603-1642 | After an update the entries of a sprite show exactly its visible parts, or nothing if it is hidden, with the exact condition for a hidden one that was never drawn. |
| `LegacyDisplay.Display.Run` | src/sprite_eng_legacy.c:346-1651 | Any sequence of adds, releases, depth, definition, position, attribute, visibility and frame changes and updates does what `Step` says one after the other, shows what `OnScreen` says at every update, and leaves the hardware visiting the entries of the sprites in list order. |
| `LegacyDisplay.StepSprite` | src/sprite_eng_legacy.c:346-1651 | A sprite stays in the list until it is released, and only its own calls and updates change its fields. |
| `LegacyDisplay.Stays` | src/sprite_eng_legacy.c:346-1651 | Over many calls, what no call on the sprite is about stays as it is. |
| `LegacyDisplay.AsAdded` | src/sprite_eng_legacy.c:346-454 | A sprite that was never moved is where it was added, one never recoloured has the attribute it was added with, and one added visible and never hidden is visible. |
| `LegacyDisplay.DefinedAs` | src/sprite_eng_legacy.c:701-785 | A new definition gives the sprite as many entries as it asks for and the tiles it is put at, and keeps its place and upper attributes. |
| `LegacyDisplay.DepthStays` | src/sprite_eng_legacy.c:993-1013 | In every run the list is in the order of the depths, and a sprite keeps its depth until it is given another. |
| `LegacyDisplay.StepDepth` | src/sprite_eng_legacy.c:388-393 | A sprite added first has the smallest depth, one added last the largest, and a new depth is the one asked for. |
| `LegacyDisplay.CalledIs` | src/sprite_eng_legacy.c:797-1531 | The kinds of calls counted between two points of a run are those of the calls on the sprite that came there. |
| `LegacyDisplay.LastPosition` | src/sprite_eng_legacy.c:797-826 | A sprite is at the position it was last given, whatever other calls and updates came since. |
| `LegacyDisplay.LastAttributes` | src/sprite_eng_legacy.c:828-991 | A sprite has the attributes it was last given. |
| `LegacyDisplay.LastVisibility` | src/sprite_eng_legacy.c:1466-1531 | A sprite last shown or hidden stays so. |
| `LegacyDisplay.LastFrame` | src/sprite_eng_legacy.c:1860-1931 | A sprite keeps the frame an update gave it until another is asked for. |
| `LegacyDisplay.ScreenEntry` | src/sprite_eng_legacy.c:1603-1642 | After an update, each entry of a visible sprite that is not waiting for its first frame holds the position, size and tiles of its part, computed from the position, attribute, visibility and frame of the sprite, or is hidden. |
| `LegacyDisplay.ShownAsSet` | src/sprite_eng_legacy.c:797-1651 | After an update, a sprite that was last shown, put at a position and given a frame has every part of that frame in an entry, at its offset from that position, plain or flipped as its attribute says, and its other entries hidden. |
| `LegacyDisplay.StaleEntries` | src/sprite_eng_legacy.c:385-420 | When a visible sprite is drawn and released and the next one, hidden from the start, gets its entry, an update leaves that entry seen. |
| `LegacyDisplay.StaleRun` | src/sprite_eng_legacy.c:346-532 | The calls of that run, after which the hardware visits the entry and shows it. |
| `SpriteTable.CollectedBound` | src/sprite_eng.c:1570-1809 | The table stays within `SAT_MAX_SIZE + 16` entries. |
| `SpriteTable.MaskStep` | src/sprite_eng.c:1666-1689 | The high bit of the shifted mask is the visibility of the next part, and the shift drops it. |
| `SpriteTable.NoneLeft` | src/sprite_eng.c:1666-1689 | The loop stops only when no visible part is left. |
| `SpriteTable.FinishedVisits` | src/sprite_eng.c:1791-1809 | From entry 0 the hardware visits every entry written once, in order, and stops. |
| `SpriteTable.Table.EmitParts` | src/sprite_eng.c:1651-1773 | Exactly the visible parts are emitted, their tile index advanced by all parts before. |
| `SpriteTable.EntryOfPart` | src/sprite_eng.c:1651-1790 | Each visible part of a sprite has the entry after those of the visible parts before it: at its offset from the sprite, plain or flipped, with its size, its tiles after those of all parts before. |
| `SpriteTable.EntryCount` | src/sprite_eng.c:1651-1790 | A sprite has as many entries as visible parts. |
| `SpriteTable.SingleAgrees` | src/sprite_eng.c:1641-1650 | The special case for frames of one hardware sprite gives the entry that the general case gives without offsets. |
| `SpriteTable.EntryOfSingle` | src/sprite_eng.c:1641-1650 | Such a sprite has one entry, with its position, attribute and size. |
| `SpriteTable.AllCollected` | src/sprite_eng.c:1570-1809 | When the table has room for them, it holds the entries of all sprites in use that have a visible part, in the order of the sprites. |
| `SpriteTable.Table.Update` | src/sprite_eng.c:1570-1809 | The table holds the entries of the sprites in list order, each linked to the next and the last to 0; a lone sprite of one hardware sprite gets its position, size and attribute; an empty list hides entry 0. |
| `BitmapFlip.TransferRow` | src/bmp.c:1384-1402 | The words of one tile row go to the lines of the tiles they belong to. |
| `BitmapFlip.ShowsAt` | src/bmp.c:1384-1440 | Tiles that show a picture hold word x of line y in line y mod 8 of tile x of tile row y / 8. |
| `BitmapFlip.BlitMore` | src/bmp.c:1404-1483 | A blit ends with its third call on NTSC and its second on PAL, and until then can be resumed with the rows sent so far in place. |
| `BitmapFlip.BlitDone` | src/bmp.c:1340-1382 | The state after the last call is consistent, without and with a pending flip. |
| `BitmapFlip.Bitmap.Draw` | src/bmp.c:332-379 | Drawing reaches only the write buffer, so that the picture of a flip stays frozen. |
| `BitmapFlip.Bitmap.FlipBuffer` | src/bmp.c:1322-1338 | Read and write buffers are exchanged, and the picture drawn is added to the log of flips. |
| `BitmapFlip.Bitmap.Flip` | src/bmp.c:264-290 | A call waits, becomes pending or starts a flip; waiting and blitting imply flipping. |
| `BitmapFlip.Bitmap.DoBlit` | src/bmp.c:1404-1483 | One call of the blit is the last after exactly the calls a blit takes, and then the tiles show the frozen picture. |
| `BitmapFlip.Bitmap.DoFlip` | src/bmp.c:1340-1382 | When a flip completes the tiles displayed show exactly the picture frozen when it began, and a pending flip begins. |
| `BitmapFlip.Bitmap.HInt` | src/bmp.c:1221-1257 | The third interrupt of a frame carries the flip on, and no other does. |
| `BitmapFlip.Bitmap.Run` | src/bmp.c:264-1483 | Over any interleaving of the main thread and the interrupts the log of flipped pictures only grows, and what is displayed, with two buffers at every moment, is its last picture, or the last but one while a flip is going on. |
| `BitmapScale.PositionsExact` | src/bmp.c:1176-1194 | All positions of a line are the exact quotients `floor(x * src_wb / dst_wb)` if and only if every 16-bit comparison of an error sum says what the exact one does. |
| `BitmapScale.FitsExactly` | src/bmp.c:1160-1194 | Every 16-bit comparison of an error sum is right if and only if the largest sum, `to - gcd(w, to) + w % to`, is below 32768, or for sizes from 32768 on below 98304 with a remainder of at least 32768. |
| `BitmapScale.SmallFit` | src/bmp.c:1160-1208 | Every 16-bit comparison of an error sum is right for every size up to 16384, and for whole multiples up to 32767. |
| `BitmapScale.LargeMisfit` | src/bmp.c:1160-1208 | They are not when 40001 bytes are scaled to 20001. |
| `BitmapScale.OriginRight` | src/bmp.c:1196-1206 | In an exact scaling the right line is read if and only if the pitch is the width or the line has not moved. |
| `BitmapScale.ReadsExact` | src/bmp.c:1145-1149 | A picture without padding, as both callers pass it, is read at the exact column and line. |
| `BitmapScale.ReadsPicture` | src/bmp.c:1145-1149 | It is read within its bounds. |
| `BitmapScale.ScaledExactly` | src/bmp.c:1160-1208 | Without padding and with sizes that fit, byte x of line y of the destination is the source byte of column x * w / toW and line y * h / toH, rounded down. |
| `BitmapScale.ScaleLine` | src/bmp.c:1178-1194 | Every byte of a line comes from the column the 16-bit accumulator is at. |
| `BitmapScale.Scale` | src/bmp.c:1160-1208 | For every size, every byte of the destination comes from where the two accumulators are, and nothing outside the rectangle is written. |
| `DmaQueue.SumIs` | src/dma.c:484-514 | What counts against the limit is the words queued, those to VRAM twice. |
| `DmaQueue.AllVram` | src/dma.c:484-514 | Of transfers to VRAM, the bytes count. |
| `DmaQueue.AllSent` | src/dma.c:194-214 | A flush sends everything if nothing is over the limit, or transfers over it are not to be ignored. |
| `DmaQueue.LimitIs` | src/dma.c:521-540 | The stored index is that of the first transfer over the limit, the very first not counted. |
| `DmaQueue.SentExactly` | src/dma.c:194-214 | A flush sends exactly the accepted transfers if and only if the first is within the limit and the running total never comes back under it. |
| `DmaQueue.SentWithoutWrap` | src/dma.c:194-214 | Without 16-bit wrap it does so if and only if the first is within the limit; what is sent is then within the limit, and with the next transfer would not be; otherwise the first is sent although refused. |
| `DmaQueue.PushHeld` | src/dma.c:406-430 | Queueing from the free part of the buffer keeps all accepted copies, and a refused one gives its part back. |
| `DmaQueue.RegistersSet` | src/dma.c:474-481 | The words queued set the length registers 19 and 20, the step register 15 and the address registers 21 to 23 of the hardware to the parts of the length, the step and the address. |
| `DmaQueue.CommandIs` | src/dma.c:484-514 | The command queued starts a transfer to the memory asked for, at the address asked for. |
| `DmaQueue.RegistersRoundTrip` | src/dma.c:475-481 | Length, step and even 24-bit address survive the register encoding. |
| `DmaQueue.Queue.Push` | src/dma.c:454-543 | The queue grows, and its total by the words of the transfer, twice for VRAM, in 16 bits; the result tells whether the transfer is accepted. |
| `DmaQueue.Queue.QueueFast` | src/dma.c:454-543 | A transfer of data that stays where it is leaves all copies of the buffer held, adds its words to the total, twice for VRAM, and is accepted exactly when a flush is to send it. |
| `DmaQueue.Queue.CopyAndQueue` | src/dma.c:406-430 | The data is copied and queued, or the buffer is as free as before. |
| `DmaQueue.Queue.AllocateAndQueue` | src/dma.c:382-404 | The caller gets a part of the buffer of its own, or nothing. |
| `DmaQueue.Queue.Fill` | src/dma.c:382-404 | Filling that part reaches no other transfer's data. |
| `DmaQueue.Queue.Flush` | src/dma.c:183-263 | A prefix of the queue is sent, and every accepted copy in it carries the data copied when it was queued. |
| `Mapper.SwitchBeyond` | src/mapper.c:51-55 | Within 32 MB exactly the data beyond 3 MB needs a switch. |
| `Mapper.SmallFits` | src/mapper.c:220-244 | Blocks of up to 512 KB always fit the regions. |
| `Mapper.Across` | src/mapper.c:146-166 | A block across banks is seen whole if and only if it fits the regions. |
| `Mapper.Banks.MapBank` | src/mapper.c:57-112 | The bank is in view, the region used last is left alone, and nothing is mapped when the bank was in view already. |
| `Mapper.Banks.MapBanks` | src/mapper.c:146-166 | Two banks are in view next to each other, bank 5 in its own region. |
| `Mapper.Banks.GetFarData` | src/mapper.c:168-185 | The rest of the bank is seen, byte for byte, from the pointer on. |
| `Mapper.Banks.GetBoth` | src/mapper.c:57-185 | A pointer stays good across the next call. |
| `Mapper.Banks.GetFarDataSafe` | src/mapper.c:220-244 | The block is seen byte for byte if and only if it ends below 3 MB, touches at most two banks, or three from bank 5 with bank 7 in the last region. |
| `ObjectPool.LiveSegment` | src/pool.c:211-215 | In a coherent pool the segment from `POOL_getFirst` lists each live object exactly once. |
| `ObjectPool.LiveCount` | src/pool.c:201-209 | In every pool the number of objects that cannot be had is the number of live ones. |
| `ObjectPool.AllocateFree` | src/pool.c:136-157 | A live object is never handed out. |
| `ObjectPool.AllocateCoherent` | src/pool.c:136-157 | Allocation keeps the stack a permutation with its headers right. |
| `ObjectPool.ReleaseCoherent` | src/pool.c:159-198 | A coherent release keeps the stack a permutation with its headers right. |
| `ObjectPool.ReleaseFree` | src/pool.c:159-198 | A release leaves exactly the objects not live to be had if and only if it is plain, exchanges nothing, or exchanges above the free objects. |
| `ObjectPool.CoherentKeeps` | src/pool.c:159-198 | In a coherent pool that condition always holds. |
| `ObjectPool.MixedBreaks` | src/pool.c:159-198 | A plain release followed by a coherent one can make a live object available. |
| `ObjectPool.Pool.Reset` | src/pool.c:72-103 | Every object can be had, and the pool is coherent. |
| `ObjectPool.Pool.Allocate` | src/pool.c:136-157 | The result is an object that was not live, unless none is left. |
| `ObjectPool.Pool.Release` | src/pool.c:159-198 | The release in place keeps a coherent pool coherent, and the free objects right exactly under the condition of `ReleaseFree`. |
| `ObjectPool.Pool.GetNumAllocated` | src/pool.c:201-209 | The result is the number of live objects, whichever way objects were released. |
| `ObjectPool.Pool.Find` | src/pool.c:217-233 | The position is among the objects handed out; in a coherent pool exactly the live objects are found. |
| `Palette.LevelsAre` | src/pal.c:287-373 | The levels of a colour are its bits 1 to 3, 5 to 7 and 9 to 11, and the mask keeps just these. |
| `Palette.LevelStarts` | src/pal.c:305-331 | A channel starts at its source level. |
| `Palette.LevelEnds` | src/pal.c:287-379 | After all steps a channel is at its destination if and only if what the truncated steps fall short of fits into the rounding. |
| `Palette.LevelMoves` | src/pal.c:339-379 | Every step moves a channel towards its destination, or leaves it, and never past it. |
| `Palette.FadeEnds` | src/pal.c:287-379 | A colour ends at its destination, masked with 0x0EEE, if and only if all its channels do. |
| `Palette.FadeEndsSoon` | src/pal.c:287-379 | Within 128 steps every fade ends at its destination. |
| `Palette.SlowFadeMisses` | src/pal.c:287-379 | A fade from black to the lowest red in 300 steps does not. |
| `Palette.ColorMoves` | src/pal.c:339-379 | Every channel of a colour moves monotonically between source and destination. |
| `Palette.Prepare` | src/pal.c:305-331 | The fractions start at the source levels with the rounding added, and the steps are the truncated quotients. |
| `Palette.Advance` | src/pal.c:354-373 | One more step gives the fractions and colours of one more step. |
| `Palette.Fade.Init` | src/pal.c:287-337 | No fade starts in 0 steps; else the source palette is the current one, and from 32768 steps on it stays so. |
| `Palette.Fade.DoStep` | src/pal.c:339-379 | After `k` calls the current palette is that of `k` steps, and the result tells whether more are to come. |
| `Text.DigitCharIs` | src/str.c:245-260 | The digits are 0 to 9 and A to F. |
| `Text.NoZeroFront` | src/str.c:172-232 | A number printed with as many digits as it needs does not begin with a zero. |
| `Text.LengthLeast` | src/str.c:172-232 | The length printed is the smallest, at least 1 and the size asked for, that has room for the value. |
| `Text.HexLengthLeast` | src/str.c:234-275 | The hexadecimal length is the smallest, at least the size asked for up to 15, that has room for the value. |
| `Text.NumeralValue` | src/str.c:172-192 | With room for its digits, the numeral of a number stands for it. |
| `Text.Digits10Is` | src/str.c:412-425 | The length of a 16-bit number is its number of digits, at least 1. |
| `Text.TwoParts` | src/str.c:181-189 | Printing in two parts, four digits in the second, prints the whole. |
| `Text.Uint16ToStr` | src/str.c:194-232 | The padded numeral and its end mark are written, and nothing before or after them. |
| `Text.UintToDecimal` | src/str.c:172-192 | The decimal numeral is as long as its digits or the minimum size. |
| `Text.UintToStr` | src/str.c:172-192 | What is printed stands for the value, in decimal up to 500000000 and in hexadecimal beyond. |
| `Text.IntToHex` | src/str.c:234-274 | The hexadecimal numeral is written, padded to at most 15 digits, and nothing before or after it. |
| `Text.SkipAtoi` | src/str.c:427-435 | The result is the number the digits stand for, in 16 bits, and where they end. |
| `Text.ReadBack` | src/str.c:172-435 | What was printed is read back exactly up to 65535, and in its lower 16 bits beyond. |

## Left out

- `MEM_allocAt`: its split in the middle of a free run does not keep the heap tiled.
- Memory.Heap.Free: a pointer that is not behind the header of a block, where the original clears a bit of someone's data.
- `SPR_setVRAMTileIndex`, `SPR_setSpriteTableIndex` and manual indexes of hardware sprites, where the caller owns the entries.
- VdpSprites.SpriteCache.Allocate, VdpSprites.SpriteCache.Release: requests for no entry, with which the loops of the original do not stop at the ends of the stack.
- LegacySprites.LegacyEngine.AddSprite: definitions that ask for no hardware sprite, for the same reason.
- LegacyFrames.UpdateFrame: frames of more parts than their definition announces, or with tiles beyond video memory; the resource compiler makes none.
- LegacyFrames.Process: sprite coordinates are unbounded integers, of which the table keeps 16 bits.
- Animation timers and the computation of sprite visibility; the frame an animation is at and the visibility are inputs of `LegacyDisplay.Display.Update` and `SpriteTable.Table.Update`.
- Frame change callbacks, the map patch callback and other user code.
- SpriteTable.Table.Update: the limit on hardware sprites that the error log checks, and the tiles that are uploaded on the way.
- `SPR_addSpriteEx` of the new engine beyond its list: video memory and the rejection of sprites that exceed the hardware.
- Map planes 32 or 128 cells wide, maps whose size is not a power of two, and the scroll registers.
- MapScroll.SetMapColumn, MapScroll.SetMapRow: the DMA queue accepts the transfers, which reach the plane at once; and the test for room, which a build without error logging leaves out, is there.
- MapTiles.PrepareColumn, MapTiles.PrepareRow: the eight decoder variants of each kind are one here; they differ in the widths of their indexes and in adding a base tile.
- BitmapFlip.Bitmap.Flip: its test and its change of state are one step, and so is every interrupt.
- BitmapFlip.Bitmap.HInt: the display enable and interrupt counter registers.
- The pixel, line and polygon drawing of the bitmap mode.
- BitmapScale.Scale: a destination pitch below the destination width, with which lines overwrite one another.
- DmaQueue.Queue.Push: the limit and the over-capacity flag are fixed while transfers are queued; transfers of length 0, which the hardware takes as 65536 words, are queued as they are.
- `DMA_queueDma`, which splits a transfer at a 128 KB bank, and the transfer itself.
- `SYS_getFarDataEx` and `SYS_getFarDataSafeEx`, which differ in letting the caller choose the region.
- The memory behind `POOL_create` and `VRAM_createRegion`.
- `intToStr`, the fixed point printers and `sprintf`, which build on the printing modelled here.
- Input, sound, timers, save memory, logging, text drawing and the VDP register setters: hardware access without state of its own.
- Lookup tables, trigonometry, 3D mathematics, decompression and task switching.
