/** The declarations of include/HIMEM.h: the directory record, the capacity
    constants derived from its size, and the error codes of the file API. */
module HimemHeader {
  import opened Paging

  /** MAX_HIMEM_FILENAME_LEN: the name array of the header's record holds
      this many characters plus a terminator. */
  const MaxHimemFilenameLen: nat := 40

  /** One directory record: ID (uint16), the NUL-padded name array, fileSize
      (uint32), and the page (uint16) and offset (uint16) where its payload
      starts. */
  datatype FileInfo = FileInfo(id: nat, filename: seq<char>, fileSize: nat, page: nat, offset: nat)

  /** The smallest multiple of 4 that is at least `n`: where a uint32 field
      goes, and the size a struct holding one is padded to. */
  function Align4(n: nat): (r: nat)
    ensures r % 4 == 0 && n <= r < n + 4
  {
    if n % 4 == 0 then n else n + (4 - n % 4)
  }

  /** sizeof of a record whose name array has `nameBuf` bytes, under the
      C layout rules: ID at 0, the name from 2, fileSize aligned to 4, then
      page and offset, the whole padded to the 4-byte alignment of fileSize. */
  function FileInfoSize(nameBuf: nat): (size: nat)
    ensures size % 4 == 0
    ensures 2 + nameBuf + 4 + 2 + 2 <= size < 2 + nameBuf + 4 + 2 + 2 + 8
  {
    var fileSizeAt := Align4(2 + nameBuf);
    Align4(fileSizeAt + 4 + 2 + 2)
  }

  /** sizeof(struct_FileInfo), the record size the store uses. */
  const RecordSize: nat := 52

  /** The header's record (41-byte name array) and HIMEM.cpp's own record
      (40-byte name array) have the same size, so MAX_HIMEM_FILES and the
      store's maxfiles agree. */
  lemma RecordSizes()
    ensures FileInfoSize(MaxHimemFilenameLen + 1) == RecordSize
    ensures FileInfoSize(MaxHimemFilenameLen) == RecordSize
  {
  }

  /** Whole records that fit in the directory page. */
  const DirectorySlots: nat := PageSize / RecordSize

  /** MAX_HIMEM_FILES: one slot fewer than fit in the page. */
  function MaxFiles(): (m: nat)
    ensures m + 1 == DirectorySlots
    ensures (m + 1) * RecordSize <= PageSize < (m + 2) * RecordSize
  {
    PageSize / RecordSize - 1
  }

  /** HimemError. */
  datatype HimemError =
    | Success
    | FileTooLarge
    | FilenameTooLong
    | MaxHimemFilesReached
    | InsufficientMemory
    | InvalidId
    | InitializationFailed

  /** The integer value of each enumerator. */
  function Code(e: HimemError): (c: int)
    ensures c == 0 <==> e == Success
    ensures e != Success ==> -6 <= c < 0
  {
    match e
    case Success => 0
    case FileTooLarge => -1
    case FilenameTooLong => -2
    case MaxHimemFilesReached => -3
    case InsufficientMemory => -4
    case InvalidId => -5
    case InitializationFailed => -6
  }

  /** No two error kinds share a code. */
  lemma CodeInjective(a: HimemError, b: HimemError)
    ensures Code(a) == Code(b) ==> a == b
  {
  }
}
