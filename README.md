# Sprite sheet slicer and bitmap resource injector — Dafny model

This project models `sprite_slicer.py`, a tool that cuts a packed sprite sheet into fixed-grid
frames, turns each frame into a device-independent bitmap payload, and injects the payloads as
numbered RT_BITMAP resources into two Windows executable-resource containers (EGF files).

The model has five modules:

- `Base` (base.dfy): bytes, `Option`, `Result`, and the strictly-ascending predicate.
- `Slicer` (slicer.dfy): `slice_sheet_to_images`. It uses the same nested loops and the same two
  early exits as the source. It is proved equal to the specification function `SliceSpec`, and the
  lemmas give the frame count, the row-major order, the anomalous 49×74 cell, the cells never
  produced, the fixed final rectangle and the 14-byte header cut.
- `Resources` (resources.dfy): `MAKEINTRESOURCE`, and `update_pe_with_bitmaps` over the class
  `ResourceFile`. That class stands for the Win32 resource-update transaction. It holds the committed
  table, the pending table and the outcomes the platform gives.
- `BitmapIds` (bitmap_ids.dfy): `get_bitmap_ids` (collect, then sort and deduplicate) and the next id
  derived from its result.
- `Driver` (driver.dfy): what `main` does after argument parsing. This covers the default first
  count, Python slicing of the payload list, and the two injections, each guarded by its share
  being non-empty.

Abstractions:

- The sheet image plus PIL's crop → RGB → BMP encoding is one total function
  `sheet: Rect -> seq<Byte>`. It gives the BMP file bytes of a crop. A frame keeps its crop
  rectangle in place of the cropped image.
- The PE parser is replaced by its output: the resource directory's type entries, each with an
  optional numeric id and the optional ids of the entries below it. `None` stands for a file without
  a resource directory.
- BeginUpdateResourceW, UpdateResourceW and EndUpdateResourceW are methods of `ResourceFile`.
  Whether each one succeeds is fixed when the object is made (`canBegin`, `accepts`, `canCommit`).

Where the design description and the code disagree, the model follows the code:

- With the default 4×6 grid the code produces 6 + 6 + 6 + 5 = 23 grid frames plus the extra one,
  so 24 frames in all. The design description counts 22 + 1 = 23. `DefaultLayoutFrameCount` proves
  24, and `DefaultSplit` proves that the split is 22 and 2.
- The design says a failed registration leaves the container as it was. In the code, the `finally`
  calls EndUpdateResourceW with discard = FALSE. So when that call succeeds, the registrations made
  before the refused one are committed (`RefusedWriteKeepsPrefix`). If EndUpdateResourceW itself
  fails, its error replaces the write error, as Python's `finally` does.
- Resource names are the ids' low 16 bits. Names in a run are pairwise distinct only while the run
  has at most 65536 ids (`NamesDistinct`); ids 65536 apart share a name (`MakeIntResourceWraps`).

## Model

| member | source | states |
|---|---|---|
| `Slicer.SliceSheetToImages` | sprite_slicer.py:43-79 | The nested loops with both breaks and the extra crop return exactly `SliceSpec`: the grid frames in order, then the extra frame |
| `Slicer.DropFileHeader` | sprite_slicer.py:64-66 | The payload is the BMP data after its 14-byte file header (header + payload = data); it is empty when the data is shorter than 14 bytes |
| `Slicer.SliceCellsExactly` | sprite_slicer.py:49-70 | A cell gets a grid frame if and only if its row is below `rows` and at most 3, its column is below `cols`, and it is not column 5 or above in row 3 |
| `Slicer.CellsNeverProduced` | sprite_slicer.py:51-52 | No frame for a cell (3, c) with c ≥ 5, and none for a row ≥ 4, whatever `rows` and `cols` are |
| `Slicer.SliceCellsRowMajor` | sprite_slicer.py:49-50 | The grid frames come out in strictly row-major order, each cell at most once |
| `Slicer.SliceFrameCount` | sprite_slicer.py:49-77 | The slicer returns G + 1 frames. G is 3 full rows and a fourth row of at most 5 columns, cut to `rows` rows when `rows` < 4 |
| `Slicer.DefaultLayoutFrameCount` | sprite_slicer.py:115-116 | With the default 4×6 grid the slicer returns 24 frames |
| `Slicer.GridFrameAt` | sprite_slicer.py:46-60 | The frame for produced cell (r, c) is at index r·cols + c. Its origin is start + index·(sprite size + gap). Its size is 49×74 at (3, 4) whatever the sprite size, and sprite_w × sprite_h elsewhere |
| `Slicer.FinalFrameFixed` | sprite_slicer.py:72-77 | The last frame is the rectangle (141, 311)–(185, 350) and is the same for every grid parameter set |
| `Slicer.PayloadsDropHeader` | sprite_slicer.py:62-77 | Every frame's payload is the encoder output for its rectangle with the first 14 bytes removed |
| `Resources.MakeIntResource` | sprite_slicer.py:26-27 | The resource name is in [0, 65536) and congruent to the id modulo 65536 (the id masked with 0xFFFF) |
| `Resources.MakeIntResourceSmall` | sprite_slicer.py:26-27 | An id in [0, 65536) is its own resource name |
| `Resources.MakeIntResourceWraps` | sprite_slicer.py:26-27 | Ids 65536 apart get the same resource name |
| `Resources.NamesDistinct` | sprite_slicer.py:88-94 | In a run of at most 65536 consecutive ids, the resource names are pairwise distinct |
| `Resources.BitmapKey` | sprite_slicer.py:86-96 | Every key the injector writes has type 2 (RT_BITMAP), language 0x0409 and a 16-bit name |
| `Resources.RegistrationsKeys` | sprite_slicer.py:92-97 | Registering a run touches exactly the bitmap keys of ids start .. start + n − 1, all of type 2 and language 0x0409 |
| `Resources.RegistrationsPayloads` | sprite_slicer.py:92-97 | For a run of at most 65536 ids, payload i ends up under id start + i |
| `Resources.CommittedTable` | sprite_slicer.py:81-102 | After a full injection the table's keys are the old keys plus the new run's keys, and every earlier entry whose key is not one of the run's keys keeps its payload |
| `Resources.FirstRejected` | sprite_slicer.py:92-97 | The index where the registration loop stops: every earlier payload was accepted, and the payload at that index (if any) was refused |
| `Resources.AllocateIds` | sprite_slicer.py:88-90 | The id list has one id per payload, and id i is start_id + i, so the list is contiguous and strictly ascending |
| `Resources.ResourceFile.BeginUpdate` | sprite_slicer.py:82-84 | Opening succeeds exactly when the platform gives a handle; the pending table starts as the current table |
| `Resources.ResourceFile.UpdateResource` | sprite_slicer.py:96-97 | An accepted registration sets one key of the pending table; a refused one changes nothing |
| `Resources.ResourceFile.EndUpdate` | sprite_slicer.py:100-102 | Closing writes the pending table when it succeeds and discard is false; otherwise the committed table stays as it was |
| `Resources.UpdatePeWithBitmaps` | sprite_slicer.py:81-102 | The container's new table and the result (open, write or commit error, or the ids it prints) are those of `InjectedTable` and `InjectOutcome` |
| `Resources.InjectSucceeds` | sprite_slicer.py:81-102 | Injection succeeds if and only if open, every registration and close succeed. It then returns the contiguous run start .. start + n − 1 and commits all payloads |
| `Resources.RefusedWriteKeepsPrefix` | sprite_slicer.py:96-102 | A refused registration is reported as a write error, yet every payload before it stays committed under its id when closing succeeds |
| `BitmapIds.Insert` | sprite_slicer.py:39 | Inserting into a strictly ascending list keeps it strictly ascending and adds exactly the new element |
| `BitmapIds.SortedSet` | sprite_slicer.py:39 | The result is strictly ascending and has exactly the elements of the input |
| `BitmapIds.GetBitmapIds` | sprite_slicer.py:29-41 | The nested loops collect exactly the numeric ids under RT_BITMAP; the returned list is strictly ascending and holds exactly those ids |
| `BitmapIds.BitmapIdsExactly` | sprite_slicer.py:33-39 | The id list is duplicate-free and ascending, and x is in it if and only if x is the numeric id of an entry under an RT_BITMAP type entry |
| `BitmapIds.NextIdAboveExisting` | sprite_slicer.py:131-134 | The next id is the last (largest) id plus the gap, or the gap alone for an empty list. It is at least every id plus the gap, so with a gap ≥ 1 it is above every existing id |
| `Driver.FirstCount` | sprite_slicer.py:125-127 | A given first count is used as is. The default is the smaller of rows·cols and 22 |
| `Driver.Split` | sprite_slicer.py:145-146 | The two halves concatenate back to the payload list. For k ≥ 0 the first half has min(k, n) payloads; for k < 0 the second half has the last min(−k, n) |
| `Driver.PlanPartitions` | sprite_slicer.py:143-146 | The two shares are the frames' payloads in order, cut after the first count; a non-negative count n gives the first share min(n, frames) payloads |
| `Driver.DefaultSplit` | sprite_slicer.py:125-146 | With the default 4×6 grid and no first count, the first container gets 22 payloads and the second 2 |
| `Driver.PlanNextIds` | sprite_slicer.py:129-134 | Each container's first new id is its largest existing bitmap id plus its gap, or the gap when it has none |
| `Driver.Run` | sprite_slicer.py:125-160 | Each container is injected with its share from its next id only when the share is non-empty. The second is not touched when the first injection raises. The result is the first error, or the id lists the two injections print (empty for a skipped one) |

## Left out

- ctypes bindings (sprite_slicer.py:13-24): these are foreign Win32 calls. They are replaced by the methods of `ResourceFile`. The platform's error codes carried by `WinError` are not modelled; `InjectError` only says which call failed, and carries no id, as the source's error does not.
- Whether a Win32 call succeeds is fixed per container when the object is made, and `accepts` depends only on the key and the payload. In the real system it can also depend on history or on the disk.
- PE parsing by pefile, including `pe.close()` and parse errors on malformed files: the model takes the resource directory's entries as input.
- PIL's crop, RGB conversion and BMP encoding: these are one uninterpreted encoder function. PIL pads a crop that leaves the image, so there is no bounds-error path. PIL's refusal of a box with right < left (a negative sprite size) is not modelled.
- Opening and converting the sheet image belongs to the same encoder function.
- Argument parsing, the file copies and the progress output: `Run` receives the parsed options. Its two `ResourceFile` objects stand for the output copies, which already hold the copied tables. The case where both outputs are the same path is excluded by requiring two distinct objects.
- The design's ImageBoundsError and UnsupportedFormatError do not exist in the code and are not modelled.
- UpdatePeWithBitmaps: the source returns nothing and prints the id list inside the `try`, before the `finally`; the model returns that list on success in place of the printout. The printout that still happens when EndUpdateResourceW then fails is not modelled.
- Run: the source returns nothing; the pair of id lists the model returns on success stands for the two printouts of the injections.
