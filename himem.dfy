/** The append-only paged file store of src/HIMEM.cpp: a directory of file
    records held in one page, a write cursor (cPage, cOffset), a slot
    counter fileIndex, and payload bytes copied in and out one mapped page
    at a time. */
module HimemStore {
  import opened Paging
  import opened HimemHeader
  import opened CStrings

  datatype Option<T> = None | Some(value: T)

  /** MAX_FILENAME_LEN of HIMEM.cpp: the size of a stored record's name array. */
  const FilenameBufLen: nat := 40

  /** himemSize: the bytes allocated; lastPage: the page that holds the directory. */
  datatype Layout = Layout(himemSize: nat, lastPage: nat)

  /** The arithmetic of init: `physSize` and `freeSize` are what
      esp_himem_get_phys_size and esp_himem_get_free_size report. One page
      of the free memory is held back, the rest is allocated, and the last
      whole page of the allocation becomes the directory page. */
  function InitLayout(physSize: nat, freeSize: nat): (r: Option<Layout>)
    ensures r.Some? <==> physSize != 0 && freeSize > 2 * PageSize
    ensures r.Some? ==> r.value.himemSize + PageSize == freeSize
    ensures r.Some? ==> Linear(r.value.lastPage + 1, 0) <= r.value.himemSize < Linear(r.value.lastPage + 2, 0)
  {
    if physSize == 0 then None
    else if freeSize < PageSize then None
    else
      var himemSize := freeSize - PageSize;
      if himemSize <= PageSize then None
      else Some(Layout(himemSize, himemSize / PageSize - 1))
  }

  /** Record `r` in slot `i` describes file `i` of `files` named `names[i]`:
      its ID is its slot, its name array holds the name, its size is the
      file's, and its payload starts where the earlier files end. */
  ghost predicate Describes(r: FileInfo, i: nat, files: seq<seq<bv8>>, names: seq<string>)
    requires i < |files| && i < |names|
  {
    && r.id == i
    && |r.filename| == FilenameBufLen
    && TakeUntilNul(r.filename) == names[i]
    && r.fileSize == |files[i]|
    && r.offset < PageSize
    && Linear(r.page, r.offset) == |Flatten(files[..i])|
  }

  lemma DescribesExtends(r: FileInfo, i: nat, files: seq<seq<bv8>>, names: seq<string>, d: seq<bv8>, n: string)
    requires i < |files| && i < |names|
    requires Describes(r, i, files, names)
    ensures Describes(r, i, files + [d], names + [n])
  {
    assert (files + [d])[..i] == files[..i];
  }

  /** The payload up to `cursor` is the files back to back, and slot i of
      the directory describes file i. */
  ghost predicate Laid(pages: seq<bv8>, cursor: nat, records: seq<FileInfo>, files: seq<seq<bv8>>, names: seq<string>)
  {
    && |files| == |names| <= |records|
    && cursor <= |pages|
    && pages[..cursor] == Flatten(files)
    && forall i :: 0 <= i < |files| ==> Describes(records[i], i, files, names)
  }

  /** The payload of file `id` lies below the cursor, and holds the file. */
  lemma LaidRead(pages: seq<bv8>, cursor: nat, records: seq<FileInfo>, files: seq<seq<bv8>>, names: seq<string>, id: nat)
    requires Laid(pages, cursor, records, files, names)
    requires id < |files|
    ensures var start := Linear(records[id].page, records[id].offset);
      && start + records[id].fileSize <= cursor
      && pages[start..start + records[id].fileSize] == files[id]
  {
    FlattenSlice(files, id);
    var start := Linear(records[id].page, records[id].offset);
    assert pages[start..start + |files[id]|] == pages[..cursor][start..start + |files[id]|];
  }

  /** Each file's payload starts where the previous file's ends. */
  lemma LaidBackToBack(pages: seq<bv8>, cursor: nat, records: seq<FileInfo>, files: seq<seq<bv8>>, names: seq<string>, i: nat)
    requires Laid(pages, cursor, records, files, names)
    requires i + 1 < |files|
    ensures Linear(records[i + 1].page, records[i + 1].offset)
         == Linear(records[i].page, records[i].offset) + records[i].fileSize
  {
    assert files[..i + 1] == files[..i] + [files[i]];
    FlattenSnoc(files[..i], files[i]);
  }

  /** The last file's payload ends at the cursor. */
  lemma LaidEndsAtCursor(pages: seq<bv8>, cursor: nat, records: seq<FileInfo>, files: seq<seq<bv8>>, names: seq<string>)
    requires Laid(pages, cursor, records, files, names)
    requires 0 < |files|
    ensures var last := records[|files| - 1];
      Linear(last.page, last.offset) + last.fileSize == cursor
  {
    var n := |files| - 1;
    assert files[..n] + [files[n]] == files;
    FlattenSnoc(files[..n], files[n]);
  }

  /** Recording a new file in the next slot at the cursor and copying its
      bytes there keeps the layout, with the cursor moved past the file. */
  lemma LaidAppend(pages: seq<bv8>, cursor: nat, records: seq<FileInfo>, files: seq<seq<bv8>>, names: seq<string>,
                   d: seq<bv8>, name: string, page: nat, offset: nat)
    requires Laid(pages, cursor, records, files, names)
    requires |files| < |records|
    requires cursor + |d| <= |pages|
    requires offset < PageSize && Linear(page, offset) == cursor
    requires |name| < FilenameBufLen
    ensures Laid(Overlay(pages, cursor, d), cursor + |d|,
                 records[|files| := FileInfo(|files|, Strncpy(name, FilenameBufLen), |d|, page, offset)],
                 files + [d], names + [TakeUntilNul(name)])
  {
    var records' := records[|files| := FileInfo(|files|, Strncpy(name, FilenameBufLen), |d|, page, offset)];
    var files', names' := files + [d], names + [TakeUntilNul(name)];
    assert Overlay(pages, cursor, d)[..cursor + |d|] == Flatten(files') by {
      FlattenSnoc(files, d);
      OverlayPrefix(pages, cursor, d);
    }
    assert Describes(records'[|files|], |files|, files', names') by {
      StrncpyRoundTrip(name, FilenameBufLen);
      assert files'[..|files|] == files;
    }
    forall i | 0 <= i < |files|
      ensures Describes(records'[i], i, files', names')
    {
      DescribesExtends(records[i], i, files, names, d, TakeUntilNul(name));
    }
  }

  class Himem {
    /** The bytes allocated from high memory. */
    const himemSize: nat
    /** The page that holds the directory. */
    const lastPage: nat
    /** The payload pages 0 .. lastPage - 1, PageSize bytes each; mapping
        page k gives access to pages[Linear(k, 0) .. Linear(k + 1, 0)]. */
    const pages: array<bv8>
    /** The directory page, as the record array it is mapped as. */
    const records: array<FileInfo>
    /** The number of slots handed out; the next file goes in this slot. */
    var fileIndex: nat
    /** The write cursor: where the next file's payload begins. */
    var cPage: nat
    var cOffset: nat
    /** The contents and names of the files written so far, by slot. */
    ghost var files: seq<seq<bv8>>
    ghost var names: seq<string>

    ghost predicate Valid()
      reads this, pages, records
    {
      && PageSize < himemSize && lastPage == himemSize / PageSize - 1
      && pages.Length == Linear(lastPage, 0)
      && records.Length == DirectorySlots
      && pages as object != records
      && fileIndex < MaxFiles()
      && cOffset < PageSize
      && Linear(cPage, cOffset) <= pages.Length
      && |files| == fileIndex
      && Laid(pages[..], Linear(cPage, cOffset), records[..], files, names)
    }

    /** Slot i + 1 starts where file i ends: the records are laid out back
        to back. */
    lemma RecordsBackToBack(i: nat)
      requires Valid() && i + 1 < fileIndex
      ensures records[i].id == i && records[i + 1].id == i + 1
      ensures Linear(records[i + 1].page, records[i + 1].offset)
           == Linear(records[i].page, records[i].offset) + records[i].fileSize
    {
      LaidBackToBack(pages[..], Linear(cPage, cOffset), records[..], files, names, i);
    }

    /** The last file ends at the write cursor. */
    lemma LastRecordEndsAtCursor()
      requires Valid() && 0 < fileIndex
      ensures Linear(records[fileIndex - 1].page, records[fileIndex - 1].offset) + records[fileIndex - 1].fileSize
           == Linear(cPage, cOffset)
    {
      LaidEndsAtCursor(pages[..], Linear(cPage, cOffset), records[..], files, names);
    }

    /** The cursor stays below the directory page, which itself lies inside
        the allocation. */
    lemma CursorInAllocation()
      requires Valid()
      ensures Linear(cPage, cOffset) <= Linear(lastPage, 0)
      ensures Linear(lastPage, 0) + PageSize <= himemSize
    {
    }

    /** init, when it succeeds: an empty directory and the cursor at (0, 0). */
    constructor Init(physSize: nat, freeSize: nat)
      requires InitLayout(physSize, freeSize).Some?
      ensures Valid() && fresh(pages) && fresh(records)
      ensures Layout(himemSize, lastPage) == InitLayout(physSize, freeSize).value
      ensures fileIndex == 0 && cPage == 0 && cOffset == 0
      ensures files == [] && names == []
    {
      var layout := InitLayout(physSize, freeSize).value;
      himemSize := layout.himemSize;
      lastPage := layout.lastPage;
      pages := new bv8[Linear(layout.lastPage, 0)];
      records := new FileInfo[DirectorySlots](_ => FileInfo(0, [], 0, 0, 0));
      fileIndex, cPage, cOffset := 0, 0, 0;
      files, names := [], [];
    }

    /** freespace: the payload bytes still free behind the cursor. */
    function Freespace(): (avail: nat)
      reads this, pages, records
      requires Valid()
      ensures avail + |Flatten(files)| == Linear(lastPage, 0)
    {
      Linear(lastPage, 0) - Linear(cPage, cOffset)
    }

    /** Maps page `page`, copies n bytes of `buf` from `from` into the
        window at `offset`, and unmaps it. */
    method CopyIn(page: nat, offset: nat, buf: array<bv8>, from: nat, n: nat)
      requires offset + n <= PageSize && Linear(page, offset) + n <= pages.Length
      requires from + n <= buf.Length && buf != pages
      modifies pages
      ensures forall i :: 0 <= i < pages.Length ==>
        pages[i] == if Linear(page, offset) <= i < Linear(page, offset) + n then buf[from + i - Linear(page, offset)] else old(pages[i])
    {
      var at := Linear(page, offset);
      forall k | 0 <= k < n {
        pages[at + k] := buf[from + k];
      }
    }

    /** Maps page `page`, copies n bytes at `offset` of the window into
        `buf` from `to` on, and unmaps it. */
    method CopyOut(page: nat, offset: nat, buf: array<bv8>, to: nat, n: nat)
      requires offset + n <= PageSize && Linear(page, offset) + n <= pages.Length
      requires to + n <= buf.Length && buf != pages
      modifies buf
      ensures forall i :: 0 <= i < buf.Length ==>
        buf[i] == if to <= i < to + n then pages[Linear(page, offset) + i - to] else old(buf[i])
    {
      var at := Linear(page, offset);
      forall k | 0 <= k < n {
        buf[to + k] := pages[at + k];
      }
    }

    /** The page-spanning copy of writeFile: `bytes` bytes of buf go into
        the pages from the cursor on, the first page from cOffset, every
        later page from offset 0, and the cursor moves past them. */
    method WritePayload(buf: array<bv8>, bytes: nat) returns (ghost pieces: seq<Piece>)
      requires cOffset < PageSize && Linear(cPage, cOffset) + bytes <= pages.Length
      requires bytes <= buf.Length && buf != pages
      modifies pages, this`cPage, this`cOffset
      ensures pages[..] == Overlay(old(pages[..]), old(Linear(cPage, cOffset)), buf[..bytes])
      ensures (cPage, cOffset) == Advance(old(cPage), old(cOffset), bytes)
      ensures pieces == Chunks(old(cPage), old(cOffset), bytes)
    {
      ghost var oldPages := pages[..];
      ghost var start := Linear(cPage, cOffset);
      ghost var oldPage, oldOffset := cPage, cOffset;
      var firstChunk := PageSize - cOffset;
      if bytes <= firstChunk {
        CopyIn(cPage, cOffset, buf, 0, bytes);
        pieces := [Piece(cPage, cOffset, bytes)];
        cOffset := cOffset + bytes;
      } else {
        // HIMEM.cpp:106 copies firstChunk - 1 bytes here, leaving the last
        // byte of the first page unwritten.
        CopyIn(cPage, cOffset, buf, 0, firstChunk);
        pieces := [Piece(cPage, cOffset, firstChunk)];
        var remaining := bytes - firstChunk;
        var copied := firstChunk;
        cPage := cPage + 1;
        // HIMEM.cpp:109 guards the loop and the tail copy with remaining > P,
        // so a tail of at most one page is never copied and cOffset is left as it was.
        while remaining > PageSize
          invariant copied + remaining == bytes && 0 < remaining
          invariant Linear(cPage, 0) == start + copied
          invariant forall i :: 0 <= i < pages.Length ==>
            pages[i] == if start <= i < start + copied then buf[i - start] else oldPages[i]
          invariant |pieces| == cPage - oldPage
          invariant pieces[0] == Piece(oldPage, oldOffset, firstChunk)
          invariant forall j :: 1 <= j < |pieces| ==> pieces[j] == Piece(oldPage + j, 0, PageSize)
        {
          CopyIn(cPage, 0, buf, copied, PageSize);
          pieces := pieces + [Piece(cPage, 0, PageSize)];
          remaining := remaining - PageSize;
          copied := copied + PageSize;
          cPage := cPage + 1;
        }
        CopyIn(cPage, 0, buf, copied, remaining);
        pieces := pieces + [Piece(cPage, 0, remaining)];
        ChunksForm(oldPage, oldOffset, bytes, pieces);
        cOffset := remaining;
      }
      OverlayByBytes(oldPages, start, buf[..bytes], pages[..]);
      // HIMEM.cpp:102 and :121 can leave cOffset == P, an unnormalised cursor.
      if cOffset == PageSize {
        cPage, cOffset := cPage + 1, 0;
      }
      AdvanceUnique(oldPage, oldOffset, bytes, cPage, cOffset);
    }

    /** writeFile: refuses (-1, nothing changed) a name of 40 characters or
        more, a full directory, or a file larger than the free space;
        otherwise records the file in slot fileIndex at the cursor, copies
        its bytes page by page from the cursor on, and returns the slot. */
    method WriteFile(fileName: string, buf: array<bv8>, bytes: nat) returns (id: int, ghost pieces: seq<Piece>)
      requires Valid()
      requires bytes <= buf.Length && buf != pages && buf as object != records
      modifies this, pages, records
      ensures Valid()
      ensures id == -1 || id == old(fileIndex)
      ensures id >= 0 <==> |fileName| < FilenameBufLen && old(fileIndex) + 1 < MaxFiles() && bytes <= old(Freespace())
      ensures id < 0 ==>
        && fileIndex == old(fileIndex) && cPage == old(cPage) && cOffset == old(cOffset)
        && files == old(files) && names == old(names)
        && pages[..] == old(pages[..]) && records[..] == old(records[..])
      ensures id >= 0 ==>
        && fileIndex == old(fileIndex) + 1
        && records[..] == old(records[..])[id := FileInfo(id, Strncpy(fileName, FilenameBufLen), bytes, old(cPage), old(cOffset))]
        && files == old(files) + [buf[..bytes]]
        && names == old(names) + [TakeUntilNul(fileName)]
        && pages[..] == Overlay(old(pages[..]), old(Linear(cPage, cOffset)), buf[..bytes])
        && (cPage, cOffset) == Advance(old(cPage), old(cOffset), bytes)
        && Freespace() == old(Freespace()) - bytes
        && pieces == Chunks(old(cPage), old(cOffset), bytes)
    {
      pieces := [];
      if |fileName| >= FilenameBufLen {
        return -1, pieces;
      }
      if fileIndex + 1 >= MaxFiles() {
        return -1, pieces;
      }
      // HIMEM.cpp:83 measures the free space against himemSize, which
      // includes the directory page; the payload ends where that page begins.
      if Linear(lastPage, 0) - Linear(cPage, cOffset) < bytes {
        return -1, pieces;
      }
      ghost var oldPages, oldRecords := pages[..], records[..];
      ghost var cursor := Linear(cPage, cOffset);
      ghost var data := buf[..bytes];
      var rec := FileInfo(fileIndex, Strncpy(fileName, FilenameBufLen), bytes, cPage, cOffset);
      LaidAppend(oldPages, cursor, oldRecords, files, names, data, fileName, cPage, cOffset);
      records[fileIndex] := rec;
      assert records[..] == oldRecords[fileIndex := rec];
      assert pages[..] == oldPages && buf[..bytes] == data;
      fileIndex := fileIndex + 1;
      pieces := WritePayload(buf, bytes);
      files := files + [data];
      names := names + [TakeUntilNul(fileName)];
      id := fileIndex - 1;
    }

    /** The page-spanning copy of readFile: the `size` bytes from (page,
        offset) on go into buf from 0 on, the first page from `offset`,
        every later page from offset 0. */
    method ReadPayload(page: nat, offset: nat, size: nat, buf: array<bv8>) returns (ghost pieces: seq<Piece>)
      requires offset < PageSize && Linear(page, offset) + size <= pages.Length
      requires size <= buf.Length && buf != pages
      modifies buf
      ensures buf[..] == Overlay(old(buf[..]), 0, pages[Linear(page, offset)..Linear(page, offset) + size])
      ensures pieces == Chunks(page, offset, size)
    {
      ghost var start := Linear(page, offset);
      ghost var oldBuf := buf[..];
      if offset + size <= PageSize {
        // HIMEM.cpp:151 copies size - 1 bytes.
        CopyOut(page, offset, buf, 0, size);
        pieces := [Piece(page, offset, size)];
      } else {
        // HIMEM.cpp:155 and :158 hold firstChunk and remaining in uint16_t,
        // and :156 copies firstChunk - 1 bytes.
        var firstChunk := PageSize - offset;
        CopyOut(page, offset, buf, 0, firstChunk);
        pieces := [Piece(page, offset, firstChunk)];
        var p: nat := page + 1;
        var remaining := size - firstChunk;
        var copied := firstChunk;
        while remaining > PageSize
          invariant copied + remaining == size && 0 < remaining
          invariant Linear(p, 0) == start + copied
          invariant forall i :: 0 <= i < buf.Length ==>
            buf[i] == if i < copied then pages[start + i] else oldBuf[i]
          invariant |pieces| == p - page
          invariant pieces[0] == Piece(page, offset, firstChunk)
          invariant forall j :: 1 <= j < |pieces| ==> pieces[j] == Piece(page + j, 0, PageSize)
        {
          CopyOut(p, 0, buf, copied, PageSize);
          pieces := pieces + [Piece(p, 0, PageSize)];
          remaining := remaining - PageSize;
          copied := copied + PageSize;
          p := p + 1;
        }
        // HIMEM.cpp:168-170 and :172-174 both copy this last chunk when the
        // loop ran; copying it once has the same effect.
        CopyOut(p, 0, buf, copied, remaining);
        pieces := pieces + [Piece(p, 0, remaining)];
        ChunksForm(page, offset, size, pieces);
      }
      OverlayByBytes(oldBuf, 0, pages[start..start + size], buf[..]);
    }

    /** readFile: 0 for an id outside 0 .. fileIndex - 1, leaving the name
        and the buffer alone; otherwise the stored name and size, with the
        file's bytes copied page by page into buf. The store is not changed. */
    method ReadFile(id: int, fileName: string, buf: array<bv8>) returns (n: nat, name: string, ghost pieces: seq<Piece>)
      requires Valid()
      requires buf != pages && buf as object != records
      requires 0 <= id < fileIndex ==> |files[id]| <= buf.Length
      modifies buf
      ensures Valid()
      ensures !(0 <= id < fileIndex) ==> n == 0 && name == fileName && buf[..] == old(buf[..])
      ensures 0 <= id < fileIndex ==>
        && n == |files[id]| && name == names[id]
        && buf[..n] == files[id] && buf[n..] == old(buf[n..])
        && pieces == Chunks(records[id].page, records[id].offset, n)
    {
      if id < 0 || id >= fileIndex {
        return 0, fileName, [];
      }
      name := TakeUntilNul(records[id].filename);
      var fileSize := records[id].fileSize;
      var page := records[id].page;
      var offset := records[id].offset;
      LaidRead(pages[..], Linear(cPage, cOffset), records[..], files, names, id);
      pieces := ReadPayload(page, offset, fileSize, buf);
      n := fileSize;
    }

    /** getRecord: the record in slot `id`, read only when the slot has been
        handed out. */
    function GetRecord(id: int): (r: Option<FileInfo>)
      reads this, pages, records
      requires Valid()
      ensures r.Some? <==> 0 <= id < fileIndex
      ensures r.Some? ==>
        && r.value.id == id && r.value.fileSize == |files[id]|
        && TakeUntilNul(r.value.filename) == names[id]
        && Linear(r.value.page, r.value.offset) == |Flatten(files[..id])|
    {
      if 0 <= id < fileIndex then Some(records[id]) else None
    }

    /** getFilesize: the size of file `id`, 0 if there is none. */
    function GetFilesize(id: int): (size: nat)
      reads this, pages, records
      requires Valid()
      ensures size == if 0 <= id < fileIndex then |files[id]| else 0
    {
      match GetRecord(id)
      case Some(r) => r.fileSize
      case None => 0
    }

    /** getFileName: the name of file `id`, empty if there is none. */
    function GetFileName(id: int): (name: string)
      reads this, pages, records
      requires Valid()
      ensures name == if 0 <= id < fileIndex then names[id] else ""
    {
      match GetRecord(id)
      case Some(r) => TakeUntilNul(r.filename)
      case None => ""
    }

    /** getID is not implemented: it answers 0, the first file's slot,
        whatever the name. */
    function GetID(fileName: string): (id: int)
      ensures id == 0
    {
      0
    }

    /** deleteFile is not implemented: it deletes nothing and reports failure. */
    function DeleteFile(id: int): (deleted: bool)
      ensures !deleted
    {
      false
    }

    /** compact is not implemented: it changes nothing. */
    method Compact()
      requires Valid()
      ensures Valid()
    {
    }

    /** memoryTest is not implemented: it reports success. */
    function MemoryTest(): (ok: bool)
      ensures ok
    {
      true
    }
  }

  /** A caller's view: after writing `data` as a second file, both files read
      back exactly as written, with the names they were written under. */
  method WriteTwiceThenRead(store: Himem, name1: string, data1: array<bv8>, name2: string, data2: array<bv8>, out: array<bv8>)
    returns (id1: int, id2: int, n1: nat, read1: string, n2: nat, read2: string)
    requires store.Valid()
    requires data1 != store.pages && data2 != store.pages && out != store.pages
    requires data1 as object != store.records && data2 as object != store.records && out as object != store.records
    requires data1.Length <= out.Length && data2.Length <= out.Length
    modifies store, store.pages, store.records, out
    ensures store.Valid()
    ensures id1 >= 0 && id2 >= 0 ==>
      && id2 == id1 + 1
      && n1 == data1.Length && out[..n1] == old(data1[..]) && read1 == TakeUntilNul(name1)
      && n2 == data2.Length && read2 == TakeUntilNul(name2)
  {
    ghost var p: seq<Piece>;
    ghost var d1 := data1[..];
    id1, p := store.WriteFile(name1, data1, data1.Length);
    assert id1 >= 0 ==> store.files[id1] == d1 && store.names[id1] == TakeUntilNul(name1) by {
      assert data1[..data1.Length] == d1;
    }
    ghost var files1, names1 := store.files, store.names;
    id2, p := store.WriteFile(name2, data2, data2.Length);
    assert id2 >= 0 ==> store.files[..id2] == files1 && store.names[..id2] == names1;
    assert id2 >= 0 ==> store.files[id2] == data2[..] && store.names[id2] == TakeUntilNul(name2) by {
      assert data2[..data2.Length] == data2[..];
    }
    n2, read2, p := store.ReadFile(id2, "", out);
    n1, read1, p := store.ReadFile(id1, "", out);
  }
}
