# HIMEM file store, modelled in Dafny

HIGHMEM_Controller keeps files in the ESP32's high memory (HIMEM), the PSRAM
above the 4 MiB the CPU can address directly. The memory is reached through
one mapped window of `ESP_HIMEM_BLKSZ` = 32768 bytes, so every access is one
page at a time. The store in `src/HIMEM.cpp` has four parts:

- a directory of fixed-size file records kept in the last whole page of the
  allocation (`lastPage`);
- a slot counter `fileIndex`;
- a write cursor `(cPage, cOffset)`;
- the payload bytes.

The store is append-only. `writeFile` checks three things (the name length,
free directory slots, free space), writes the next record, and copies the
caller's buffer page by page from the cursor. `readFile` looks up a record
and copies the payload back page by page. `freespace`, `getRecord`,
`getFilesize` and `getFileName` only read.

The project has five modules:

- `Paging` (paging.dfy) covers page arithmetic:
  - `Linear` maps a (page, offset) pair to a linear position;
  - `Advance` is the normalised cursor;
  - `Chunks` lists the one-window accesses that a page-spanning copy makes;
  - `Overlay` is the effect of one contiguous copy;
  - `Flatten` lays files back to back.
- `CStrings` (cstrings.dfy) covers how file names are stored: `strncpy` into
  a 40-byte array, read back with Arduino's `String(const char*)`.
- `HimemHeader` (himem_header.dfy) covers the declarations of
  `include/HIMEM.h`: the record, its size, the directory capacity and the
  error codes.
- `HimemStore` (himem.dfy) is the store itself, as the class `Himem`:
  - `pages` is a byte array for the payload pages;
  - `records` is a record array for the directory page;
  - `fileIndex`, `cPage` and `cOffset` are mutable fields;
  - ghost fields `files` and `names` hold what has been written.

  `Valid()` says that the payload up to the cursor is the files back to
  back, and that slot i describes file i. Every operation keeps `Valid()`.
- `AsWritten` (as_written.dfy) gives the memcpy calls that `writeFile` and
  `readFile` issue exactly as the C++ code computes them, including its
  integer widths. It exists for the findings below.

The store models the copy that the code evidently intends, as the doc
comments and the examples' read-back checks (for instance
`examples/simpleCache.cpp:30-45`) expect: every byte is copied and the
cursor stays normalised. Where the C++ does something else, a comment at
that point in himem.dfy gives the line, and the table under "Findings"
pairs the code as written with the corrected member.

## Model

| member | source | states |
|---|---|---|
| Paging.Advance | src/HIMEM.cpp:99-122 | after a payload of `bytes`, the cursor is the normalised (page, offset) exactly `bytes` further on, with the offset strictly inside its page |
| Paging.Chunks | src/HIMEM.cpp:99-122 | the window accesses of a page-spanning copy: at least one; the first takes `min(bytes, P - offset)` bytes at the cursor's offset |
| Paging.ChunksInPages | src/HIMEM.cpp:108-122 | no access leaves its page; every access after the first is on the next page, starts at offset 0 and moves at least one byte; every access but the last fills its page to the end |
| Paging.ChunksCover | src/HIMEM.cpp:99-122 | the access lengths add up to `bytes`, and the last access ends exactly `bytes` past the start, so the copy is contiguous and complete |
| Paging.Overlay | src/HIMEM.cpp:101 | a contiguous copy of `d` at `at` changes the bytes in `[at, at + |d|)` to `d` and leaves every other byte as it was |
| Paging.FlattenSlice | src/HIMEM.cpp:92-93 | in a back-to-back layout, file i starts where files 0..i-1 end, and the bytes there are exactly file i |
| CStrings.TakeUntilNul | src/HIMEM.cpp:141 | the C string of a char array: a prefix of it with no NUL, followed in the array by a NUL unless it is the whole array |
| CStrings.TakeUntilNulNoNul | src/HIMEM.cpp:141 | a name without a NUL reads back as itself |
| CStrings.Strncpy | src/HIMEM.cpp:91 | `strncpy(dst, s, n)` yields exactly n chars, NUL from the end of s's C string onward |
| CStrings.StrncpyTerminated | src/HIMEM.cpp:74-91 | a name shorter than the array is stored with a NUL terminator |
| CStrings.StrncpyRoundTrip | src/HIMEM.cpp:74-91 | a name shorter than the array reads back as the C string that was written |
| HimemHeader.FileInfoSize | include/HIMEM.h:14-20 | the C size of a record is a multiple of 4 and at most 7 bytes above the sum of its fields |
| HimemHeader.RecordSizes | include/HIMEM.h:9-20 | the header's record (41-byte name) and HIMEM.cpp's record (40-byte name) are both 52 bytes, so the two capacities agree |
| HimemHeader.MaxFiles | include/HIMEM.h:11 | MAX_HIMEM_FILES is one less than the number of whole records that fit in a page (629 of 630) |
| HimemHeader.Code | include/HIMEM.h:26-34 | SUCCESS is the only code equal to 0; every failure code lies in -6..-1 |
| HimemHeader.CodeInjective | include/HIMEM.h:26-34 | no two error kinds share a code |
| HimemStore.InitLayout | src/HIMEM.cpp:47-64 | init succeeds exactly when PSRAM is present and more than two pages are free; himemSize is the free size less one page; lastPage is the last whole page of the allocation |
| HimemStore.LaidRead | src/HIMEM.cpp:140-144 | the payload that record `id` points at lies below the cursor and holds exactly file `id` |
| HimemStore.LaidAppend | src/HIMEM.cpp:88-123 | writing a record in the next slot, then copying the payload at the cursor, keeps the layout, with the cursor past the new file |
| HimemStore.LaidBackToBack | src/HIMEM.cpp:92-93 | each file's payload starts where the previous file's ends |
| HimemStore.LaidEndsAtCursor | src/HIMEM.cpp:92-93 | the last file's payload ends at the cursor |
| HimemStore.Himem.Init | src/HIMEM.cpp:47-64 | a statically allocated store after its first successful init has an empty directory, the layout InitLayout computes, fileIndex 0 from its member initializer, and the cursor at (0, 0) from static zero-initialisation |
| HimemStore.Himem.Freespace | src/HIMEM.cpp:179-182 | the free payload space plus the bytes of all files written equals the payload area |
| HimemStore.Himem.CopyIn | src/HIMEM.cpp:98-103 | map a page, copy `n` bytes of the buffer into it at an offset, unmap: exactly those bytes change |
| HimemStore.Himem.CopyOut | src/HIMEM.cpp:149-152 | map a page, copy `n` bytes from an offset into the buffer, unmap: exactly those buffer bytes change |
| HimemStore.Himem.WritePayload | src/HIMEM.cpp:96-123 | the region becomes the old region with `buf[..bytes]` at the cursor; the cursor advances by `bytes`, normalised; the window accesses are exactly `Chunks` |
| HimemStore.Himem.WriteFile | src/HIMEM.cpp:72-125 | refuses with -1, changing nothing, exactly when the name has 40 or more characters, fileIndex + 1 >= MAX_HIMEM_FILES, or the payload exceeds the free space. Otherwise it returns the old fileIndex, fills that slot with ID, the strncpy'd name, size and the old cursor, leaves every other slot alone, appends the file, copies it at the cursor, advances the cursor by `bytes`, reduces freespace by `bytes` and keeps `Valid()` |
| HimemStore.Himem.ReadPayload | src/HIMEM.cpp:147-175 | the buffer's first `size` bytes become the region bytes from (page, offset) on; the rest of the buffer is unchanged; the window accesses are exactly `Chunks` |
| HimemStore.Himem.ReadFile | src/HIMEM.cpp:133-177 | for an id outside 0..fileIndex-1 it returns 0 and leaves the name and the buffer. Otherwise it returns the file's size and the name as stored, and the buffer starts with exactly the file's bytes. The store is never changed |
| HimemStore.Himem.GetRecord | src/HIMEM.cpp:211-222 | a record exactly for the ids handed out; its ID is the slot, its size and name are the file's, and it starts where the earlier files end |
| HimemStore.Himem.GetFilesize | src/HIMEM.cpp:184-187 | the size of file `id`, 0 if there is none |
| HimemStore.Himem.GetFileName | src/HIMEM.cpp:188-191 | the name of file `id`, empty if there is none |
| HimemStore.Himem.GetID | src/HIMEM.cpp:192-195 | the stub answers 0 whatever the name |
| HimemStore.Himem.DeleteFile | src/HIMEM.cpp:197-200 | the stub deletes nothing and reports failure |
| HimemStore.Himem.Compact | src/HIMEM.cpp:201-203 | the stub changes nothing and keeps the store valid |
| HimemStore.Himem.MemoryTest | src/HIMEM.cpp:205-208 | the stub reports success |
| HimemStore.Himem.RecordsBackToBack | src/HIMEM.cpp:89-93 | slot i holds ID i, and slot i + 1 starts where file i ends |
| HimemStore.Himem.LastRecordEndsAtCursor | src/HIMEM.cpp:92-102 | the last file written ends at the write cursor |
| HimemStore.Himem.CursorInAllocation | src/HIMEM.cpp:52-59 | the cursor never passes the directory page, and that page lies inside the allocation |
| HimemStore.WriteTwiceThenRead | examples/simpleCache.cpp:21-45 | after two successful writes the ids are consecutive; reading the first back gives exactly its bytes, and both reads return the names as their C strings read back |
| AsWritten.WriteLoop | src/HIMEM.cpp:110-117 | the whole-page loop as written stops with between 1 and P bytes left, and the page it stops on plus what is left equals the start plus the loop's input |
| AsWritten.WritePayloadAsWritten | src/HIMEM.cpp:98-123 | the memcpy calls and the final cursor of writeFile as written; the first copy starts at the cursor, and the offset it leaves can reach PageSize but never pass it |
| AsWritten.WriteSkipsLastByteOfFirstPage | src/HIMEM.cpp:106 | a payload that spills over its first page never has that page's last byte written |
| AsWritten.WriteLosesShortTail | src/HIMEM.cpp:108-122 | when at most one page follows the first, only the first copy is made and the cursor moves by exactly one page, which equals the payload size only when the payload is one page |
| AsWritten.WriteLeavesOffsetAtPageEnd | src/HIMEM.cpp:99-102 | a payload ending exactly at its page end leaves cOffset == PageSize, and the next write's first memcpy is 0xFFFFFFFF bytes |
| AsWritten.WriteLeavesOffsetAtPageEndAfterLoop | src/HIMEM.cpp:118-121 | three pages written from (0, 0) leave the cursor at (2, PageSize) |
| AsWritten.ReadLoop | src/HIMEM.cpp:158-167 | with uint16_t counters the read loop runs at most once; the buffer position moves modulo 65536 |
| AsWritten.ReadPayloadAsWritten | src/HIMEM.cpp:149-175 | readFile as written issues between 1 and 4 memcpy calls, the first at buffer position 0 from the record's position |
| AsWritten.ReadDropsLastByte | src/HIMEM.cpp:150-151 | a file inside one page is read with one memcpy of `fileSize - 1` bytes (0xFFFFFFFF for an empty file), so its last byte is never read |
| AsWritten.ReadDropsByteAtPageEnd | src/HIMEM.cpp:155-156 | a file that spills over its first page is read without the byte at that page's end |
| AsWritten.ReadTruncatesLargeFile | src/HIMEM.cpp:155-174 | a 200000-byte file at (0, 0) is read with four copies, the last two over the start of the buffer, and nothing past buffer position 65536 is filled; the intended copy takes 7 page accesses |
| AsWritten.FreespaceAsWritten | src/HIMEM.cpp:179-182 | freespace as written is the allocation size less the cursor position |
| AsWritten.DirectoryPageCountedAsFree | src/HIMEM.cpp:52-59 | on an empty store, freespace as written covers the whole directory page as well |

## Left out

- ESP-IDF calls and their failures are not modelled: `esp_himem_alloc`, `esp_himem_alloc_map_range`, `esp_himem_map`/`unmap`, and the `ESP_ERROR_CHECK` aborts. These are hardware services. Mapping page k is modelled as access to bytes [k·P, (k+1)·P) of `pages`. The free and physical sizes are the parameters of `Init`/`InitLayout`.
- Logging (`ESP_LOGx`, `Serial.printf` in getRecord) is left out. It has no effect on the store.
- HimemStore.Himem.Init: a failed init is represented only by `InitLayout` returning None; no store is built. The C++ then returns with himemSize already assigned and no allocation. When the free size is below one page, its unsigned subtraction wraps and the allocation aborts.
- HimemStore.Himem.Init stands for two steps together: constructing a statically allocated `HIMEM` object, and that object's first successful `init`. `init` sets neither `fileIndex` nor the cursor. `fileIndex` is 0 from its member initializer (include/HIMEM.h:80). `cPage` and `cOffset` (include/HIMEM.h:81-82) have no initializer and are 0 only because a static object is zero-initialised. A second `init`, which keeps the old `fileIndex` and cursor, is not modelled. Neither is an automatic or heap instance, whose cursor starts indeterminate.
- HimemStore.Himem.WriteFile: `bytes`, `fileIndex`, `cPage`, `cOffset` and the record's page and offset are unbounded naturals, not uint32_t/uint16_t. fileIndex stays below 629, and the supported HIMEM sizes keep pages below 65536, so nothing wraps in the corrected store. Wrap-around that matters is modelled in `AsWritten`.
- HimemStore.Himem.WriteFile: the name-length check counts characters, where Arduino's `String::length` counts bytes.
- HimemStore.Himem.WriteFile and HimemStore.Himem.ReadFile require the caller's buffer to be a different object from the payload and the directory. They also require `bytes <= buf.Length`, and the buffer to hold the file being read. The C++ assumes all of this and does not check it.
- HimemStore.Himem.GetRecord: for an id not handed out, the C++ returns an uninitialised struct. The model returns None, so `getFilesize` and `getFileName` answer 0 and "", as include/HIMEM.h:68-69 promises.
- HimemStore.Himem.GetID follows the code (0), not the header comment (-1 if not found, include/HIMEM.h:67).
- getID, deleteFile, compact and memoryTest are stubs in the C++ and are modelled as stubs.
- Header declarations with no implementation are not part of this model: `create`, `destroy`, `freeMemory`, `writeBaseline`, `setBaseline`, `printMemoryStatus`, `errorToString` and `cleanupResources`. The header's `writeFile(int id, …)` signature has no implementation; the model follows the .cpp's `writeFile(name, buf, bytes)`.
- The initial contents of the allocated memory are not modelled. `Init` leaves the payload array arbitrary and fills the directory with empty records. Neither is read before it is written.
- The `pieces` out-parameters of WritePayload, WriteFile, ReadPayload and ReadFile are ghost. They record the window accesses for the contracts; the C++ returns nothing of the kind. The record is kept beside each CopyIn/CopyOut call in the method body, not produced by those calls, so the contracts do not tie it to the copies made.
- AsWritten models the copies as lists of memcpy calls on positions, not as updates of the arrays. It also assumes the uint32_t buffer position of the write loop does not overflow: payloads stay below 4 GiB.
- `src/main.cpp` and the example sketches drive the store over serial, SD card, timers and random data, and are not part of this model.

## Findings

| source | as written | input that shows it | evidently intended | confidence | as-written member | corrected member |
|---|---|---|---|---|---|---|
| src/HIMEM.cpp:106 | the first page of a spanning write gets `firstChunk - 1` bytes | 32769 bytes at cursor (0, 0): the byte at page 0, offset 32767 is never written | copy `firstChunk` bytes | high; not executed | AsWritten.WriteSkipsLastByteOfFirstPage | HimemStore.Himem.WritePayload |
| src/HIMEM.cpp:108-122 | the loop and the tail copy sit under `remaining > P`, so a tail of 1..P bytes is dropped and cOffset is left as it was | 40000 bytes at (0, 100): 32667 bytes are copied, and the cursor moves to linear 32868 instead of 40100 | copy the tail; set cOffset to it | high; not executed | AsWritten.WriteLosesShortTail | HimemStore.Himem.WritePayload |
| src/HIMEM.cpp:102 | `cOffset += bytes` can reach P; the next write's `firstChunk - 1` is then 0xFFFFFFFF | 32768 bytes at (0, 0), then any non-empty write | move to the next page at offset 0 | high; not executed | AsWritten.WriteLeavesOffsetAtPageEnd | HimemStore.Himem.WritePayload |
| src/HIMEM.cpp:121 | `cOffset = remaining` can be P after the loop | 98304 bytes at (0, 0) leave the cursor at (2, 32768) | move to the next page at offset 0 | high; not executed | AsWritten.WriteLeavesOffsetAtPageEndAfterLoop | HimemStore.Himem.WritePayload |
| src/HIMEM.cpp:151 | a file inside one page is read with `fileSize - 1` bytes | a 10-byte file: buffer byte 9 is never filled; a 0-byte file: memcpy of 0xFFFFFFFF bytes | copy `fileSize` bytes | high; not executed | AsWritten.ReadDropsLastByte | HimemStore.Himem.ReadPayload |
| src/HIMEM.cpp:156 | the first page of a spanning read gives `firstChunk - 1` bytes | a 40000-byte file at (0, 0): buffer byte 32767 is never filled | copy `firstChunk` bytes | high; not executed | AsWritten.ReadDropsByteAtPageEnd | HimemStore.Himem.ReadPayload |
| src/HIMEM.cpp:155-174 | `firstChunk` and `remaining` are uint16_t, so larger files wrap | the 200000-byte file of src/main.cpp:5 at (0, 0): only buffer bytes below 65536 are filled, and the last chunk lands at position 0 | uint32_t counters, one copy per page | high; not executed | AsWritten.ReadTruncatesLargeFile | HimemStore.Himem.ReadFile |
| src/HIMEM.cpp:59 | the directory page lastPage lies inside himemSize, which the write check (:83) and freespace (:180) count as free | an empty store accepts a first file of `freespace()` bytes, whose payload covers the directory page | payload space ends where the directory page begins | high; not executed | AsWritten.DirectoryPageCountedAsFree | HimemStore.Himem.WriteFile |
| src/HIMEM.cpp:180 | freespace reports himemSize less the cursor, which includes the directory page | an empty store reports at least (lastPage + 1) * 32768 bytes free | the payload area less the cursor: lastPage * 32768 on an empty store | high; not executed | AsWritten.DirectoryPageCountedAsFree | HimemStore.Himem.Freespace |
