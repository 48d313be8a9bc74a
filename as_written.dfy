/** The page-spanning copies of src/HIMEM.cpp exactly as written: the
    memcpy calls writeFile and readFile issue, with the C integer widths
    (uint32_t lengths, uint16_t chunk counters on the read side), the
    `- 1` lengths, the `remaining > P` guard and the repeated last copy.
    Each lemma here exhibits an input on which the code as written differs
    from the store modelled in HimemStore. */
module AsWritten {
  import opened Paging
  import opened HimemStore

  const U16: nat := 0x1_0000
  const U32: nat := 0x1_0000_0000

  /** `n - 1` computed as a uint32_t (or converted to a 32-bit size_t):
      0 becomes 0xFFFFFFFF. */
  function PredU32(n: nat): nat
    requires n < U32
  {
    if n == 0 then U32 - 1 else n - 1
  }

  /** One memcpy: `len` bytes to position `dst` from position `src`. On
      the write side `dst` is a linear position in the region and `src` an
      index into the caller's buffer; on the read side the other way round. */
  datatype Copy = Copy(dst: nat, src: nat, len: nat)

  /** The state after a copy loop: the copies issued, and the page, buffer
      position and remaining count it stops at. */
  datatype LoopEnd = LoopEnd(copies: seq<Copy>, page: nat, at: nat, remaining: nat)

  /** The cursor and the copies of one writeFile payload. */
  datatype WriteOutcome = WriteOutcome(copies: seq<Copy>, page: nat, offset: nat)

  /** The bytes some copy writes at position `pos`. */
  predicate Covers(copies: seq<Copy>, pos: nat)
  {
    exists k :: 0 <= k < |copies| && copies[k].dst <= pos < copies[k].dst + copies[k].len
  }

  /** writeFile's loop, HIMEM.cpp:110-117: a whole page per iteration from
      buffer position `at`, while more than a page remains. */
  function WriteLoop(page: nat, at: nat, remaining: nat): (r: LoopEnd)
    ensures 0 < remaining ==> 0 < r.remaining
    ensures r.remaining <= PageSize
    ensures remaining <= PageSize ==> r == LoopEnd([], page, at, remaining)
    ensures page <= r.page
    ensures Linear(page, 0) + remaining == Linear(r.page, 0) + r.remaining
    ensures at + remaining == r.at + r.remaining
    ensures forall k :: 0 <= k < |r.copies| ==> Linear(page, 0) <= r.copies[k].dst
    decreases remaining
  {
    if remaining > PageSize then
      var rest := WriteLoop(page + 1, at + PageSize, remaining - PageSize);
      LoopEnd([Copy(Linear(page, 0), at, PageSize)] + rest.copies, rest.page, rest.at, rest.remaining)
    else
      LoopEnd([], page, at, remaining)
  }

  /** writeFile's payload copy, HIMEM.cpp:98-123, from the cursor
      (cPage, cOffset); cOffset can be PageSize, which this code itself
      leaves behind. */
  function WritePayloadAsWritten(cPage: nat, cOffset: nat, bytes: nat): (w: WriteOutcome)
    requires cOffset <= PageSize && bytes < U32
    ensures 1 <= |w.copies| && w.copies[0].dst == Linear(cPage, cOffset) && w.copies[0].src == 0
    ensures w.offset <= PageSize
    ensures cPage <= w.page
  {
    var firstChunk := PageSize - cOffset;
    if bytes <= firstChunk then
      WriteOutcome([Copy(Linear(cPage, cOffset), 0, bytes)], cPage, cOffset + bytes)
    else
      var first := Copy(Linear(cPage, cOffset), 0, PredU32(firstChunk));
      var remaining := bytes - firstChunk;
      if remaining > PageSize then
        var loop := WriteLoop(cPage + 1, firstChunk, remaining);
        WriteOutcome([first] + loop.copies + [Copy(Linear(loop.page, 0), loop.at, loop.remaining)], loop.page, loop.remaining)
      else
        WriteOutcome([first], cPage + 1, cOffset)
  }

  /** HIMEM.cpp:106: a payload that spills over its first page never has
      the last byte of that page written, although the cursor moves past
      it. */
  lemma WriteSkipsLastByteOfFirstPage(cPage: nat, cOffset: nat, bytes: nat)
    requires cOffset < PageSize && PageSize - cOffset < bytes < U32
    ensures !Covers(WritePayloadAsWritten(cPage, cOffset, bytes).copies, Linear(cPage, PageSize - 1))
  {
    var w := WritePayloadAsWritten(cPage, cOffset, bytes);
    var pos := Linear(cPage, PageSize - 1);
    var firstChunk := PageSize - cOffset;
    var remaining := bytes - firstChunk;
    forall k | 0 <= k < |w.copies|
      ensures !(w.copies[k].dst <= pos < w.copies[k].dst + w.copies[k].len)
    {
      if k > 0 {
        var loop := WriteLoop(cPage + 1, firstChunk, remaining);
        assert w.copies == [w.copies[0]] + loop.copies + [Copy(Linear(loop.page, 0), loop.at, loop.remaining)];
        if k - 1 < |loop.copies| {
          assert w.copies[k] == loop.copies[k - 1];
        }
      }
    }
  }

  /** HIMEM.cpp:108-122: a payload whose part after the first page is at
      most a page long gets only its first copy; the rest is never written
      and the cursor moves by a page instead of by the payload's size. */
  lemma WriteLosesShortTail(cPage: nat, cOffset: nat, bytes: nat)
    requires cOffset < PageSize && PageSize - cOffset < bytes <= 2 * PageSize - cOffset
    ensures var w := WritePayloadAsWritten(cPage, cOffset, bytes);
      && w.copies == [Copy(Linear(cPage, cOffset), 0, PageSize - cOffset - 1)]
      && Linear(w.page, w.offset) == Linear(cPage, cOffset) + PageSize
      && (Linear(w.page, w.offset) == Linear(cPage, cOffset) + bytes <==> bytes == PageSize)
  {
  }

  /** HIMEM.cpp:102: a payload that ends exactly at its page end leaves
      cOffset == PageSize; the next payload then has a first chunk of 0 and
      its first memcpy is 0xFFFFFFFF bytes long. */
  lemma WriteLeavesOffsetAtPageEnd(cPage: nat, cOffset: nat, bytes: nat, next: nat)
    requires cOffset + bytes == PageSize && 0 < next < U32
    ensures var w := WritePayloadAsWritten(cPage, cOffset, bytes);
      && w == WriteOutcome([Copy(Linear(cPage, cOffset), 0, bytes)], cPage, PageSize)
      && WritePayloadAsWritten(w.page, w.offset, next).copies[0].len == U32 - 1
  {
  }

  /** HIMEM.cpp:121: the same happens after the loop when the last chunk is
      a whole page: three pages written from (0, 0) leave the cursor at
      (2, PageSize). */
  lemma WriteLeavesOffsetAtPageEndAfterLoop()
    ensures var w := WritePayloadAsWritten(0, 0, 3 * PageSize);
      w.page == 2 && w.offset == PageSize
  {
    var loop := WriteLoop(1, PageSize, 2 * PageSize);
    assert loop.page == 2 && loop.remaining == PageSize by {
      assert WriteLoop(2, 2 * PageSize, PageSize) == LoopEnd([], 2, 2 * PageSize, PageSize);
    }
  }

  /** readFile's loop, HIMEM.cpp:160-167, with the buffer position and the
      remaining count held in uint16_t: since a uint16_t count is below two
      pages, the loop body runs at most once. */
  function ReadLoop(page: nat, at: nat, remaining: nat): (r: LoopEnd)
    requires at < U16 && remaining < U16
    ensures r.at < U16 && r.remaining <= PageSize
    ensures |r.copies| <= 1 && (|r.copies| == 1 <==> remaining > PageSize)
    ensures r.remaining <= remaining && r.at == (at + (remaining - r.remaining)) % U16
    decreases remaining
  {
    if remaining > PageSize then
      var rest := ReadLoop(page + 1, (at + PageSize) % U16, remaining - PageSize);
      LoopEnd([Copy(at, Linear(page, 0), PageSize)] + rest.copies, rest.page, rest.at, rest.remaining)
    else
      LoopEnd([], page, at, remaining)
  }

  /** readFile's payload copy, HIMEM.cpp:149-175, of a `fileSize`-byte
      file recorded at (page, offset). */
  function ReadPayloadAsWritten(page: nat, offset: nat, fileSize: nat): (cs: seq<Copy>)
    requires offset <= PageSize && fileSize < U32
    ensures 1 <= |cs| <= 4
    ensures cs[0].dst == 0 && cs[0].src == Linear(page, offset)
  {
    if offset + fileSize <= PageSize then
      [Copy(0, Linear(page, offset), PredU32(fileSize))]
    else
      var firstChunk := PageSize - offset;
      var first := Copy(0, Linear(page, offset), PredU32(firstChunk));
      var remaining := (fileSize - firstChunk) % U16;
      if remaining > PageSize then
        var loop := ReadLoop(page + 1, firstChunk, remaining);
        var last := Copy(loop.at, Linear(loop.page, 0), loop.remaining);
        [first] + loop.copies + [last, last]
      else
        [first, Copy(firstChunk, Linear(page + 1, 0), remaining)]
  }

  /** HIMEM.cpp:151: a file inside one page is read one byte short, and an
      empty one with a memcpy of 0xFFFFFFFF bytes. */
  lemma ReadDropsLastByte(page: nat, offset: nat, fileSize: nat)
    requires offset + fileSize <= PageSize
    ensures ReadPayloadAsWritten(page, offset, fileSize)
      == [Copy(0, Linear(page, offset), if fileSize == 0 then U32 - 1 else fileSize - 1)]
    ensures 0 < fileSize ==> !Covers(ReadPayloadAsWritten(page, offset, fileSize), fileSize - 1)
  {
  }

  /** HIMEM.cpp:156: a file that spills over its first page never gets
      the byte at the end of that page into the buffer. */
  lemma ReadDropsByteAtPageEnd(page: nat, offset: nat, fileSize: nat)
    requires offset < PageSize && PageSize < offset + fileSize < U32
    ensures var cs := ReadPayloadAsWritten(page, offset, fileSize);
      cs[0] == Copy(0, Linear(page, offset), PageSize - offset - 1)
    ensures !Covers(ReadPayloadAsWritten(page, offset, fileSize), PageSize - offset - 1)
  {
  }

  /** HIMEM.cpp:158 and :165: for a file of 200000 bytes at (0, 0), as
      src/main.cpp writes, the uint16_t counters wrap: the last chunk is
      copied over the start of the buffer, and nothing past buffer position
      65536 is filled, while readFile reports 200000 bytes. */
  lemma ReadTruncatesLargeFile()
    ensures ReadPayloadAsWritten(0, 0, 200000)
      == [Copy(0, 0, 32767), Copy(32768, 32768, 32768), Copy(0, 65536, 3392), Copy(0, 65536, 3392)]
    ensures !Covers(ReadPayloadAsWritten(0, 0, 200000), 65536)
    ensures |Chunks(0, 0, 200000)| == 7
  {
    var cs := ReadPayloadAsWritten(0, 0, 200000);
    assert (200000 - 32768) % U16 == 36160;
    var loop := ReadLoop(1, 32768, 36160);
    assert loop == LoopEnd([Copy(32768, 32768, 32768)], 2, 0, 3392);
    assert cs == [Copy(0, 0, 32767)] + loop.copies + [Copy(0, 65536, 3392), Copy(0, 65536, 3392)];
    var c := Chunks(0, 0, 200000);
    assert c == [Piece(0, 0, PageSize)] + Chunks(1, 0, 200000 - PageSize);
    assert Chunks(1, 0, 200000 - PageSize) == [Piece(1, 0, PageSize)] + Chunks(2, 0, 200000 - 2 * PageSize);
    assert Chunks(2, 0, 200000 - 2 * PageSize) == [Piece(2, 0, PageSize)] + Chunks(3, 0, 200000 - 3 * PageSize);
    assert Chunks(3, 0, 200000 - 3 * PageSize) == [Piece(3, 0, PageSize)] + Chunks(4, 0, 200000 - 4 * PageSize);
    assert Chunks(4, 0, 200000 - 4 * PageSize) == [Piece(4, 0, PageSize)] + Chunks(5, 0, 200000 - 5 * PageSize);
    assert Chunks(5, 0, 200000 - 5 * PageSize) == [Piece(5, 0, PageSize)] + Chunks(6, 0, 200000 - 6 * PageSize);
    assert Chunks(6, 0, 200000 - 6 * PageSize) == [Piece(6, 0, 3392)];
  }

  /** freespace, HIMEM.cpp:179-182, and the check of writeFile at :83: the
      allocation size less the cursor's position. */
  function FreespaceAsWritten(himemSize: nat, cPage: nat, cOffset: nat): (avail: nat)
    requires Linear(cPage, cOffset) <= himemSize
    ensures avail + Linear(cPage, cOffset) == himemSize
  {
    himemSize - Linear(cPage, cOffset)
  }

  /** HIMEM.cpp:59, :83 and :180: the directory page lastPage lies inside
      the allocation that freespace counts, so on an empty store a first
      file of freespace() bytes is accepted and its payload runs over the
      whole directory page. */
  lemma DirectoryPageCountedAsFree(physSize: nat, freeSize: nat)
    requires InitLayout(physSize, freeSize).Some?
    ensures var l := InitLayout(physSize, freeSize).value;
      && Linear(l.lastPage + 1, 0) <= FreespaceAsWritten(l.himemSize, 0, 0)
      && FreespaceAsWritten(l.himemSize, 0, 0) >= Linear(l.lastPage, 0) + PageSize
  {
  }
}
