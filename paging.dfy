/** Page arithmetic of the bank-switched high-memory region: a linear byte
    position is a (page, offset) pair, only one page-sized window can be
    mapped at a time, so a contiguous byte range is copied as a sequence of
    per-page pieces. */
module Paging {

  /** ESP_HIMEM_BLKSZ of ESP-IDF: the size of a page and of the one mapping window. */
  const PageSize: nat := 32768

  /** The linear byte position of offset `offset` in page `page`. The page
      size is written as a literal so that the product is linear arithmetic
      for the solver; it is the value of PageSize. */
  function Linear(page: nat, offset: nat): nat
  {
    page * 32768 + offset
  }

  function Min(a: nat, b: nat): nat
  {
    if a <= b then a else b
  }

  /** The normalised cursor `bytes` past (page, offset): same linear
      position, offset strictly inside its page. */
  function Advance(page: nat, offset: nat, bytes: nat): (r: (nat, nat))
    ensures r.1 < PageSize
    ensures Linear(r.0, r.1) == Linear(page, offset) + bytes
  {
    var l := Linear(page, offset) + bytes;
    (l / PageSize, l % PageSize)
  }

  /** A normalised cursor is the only one for its linear position. */
  lemma AdvanceUnique(page: nat, offset: nat, bytes: nat, page': nat, offset': nat)
    requires offset' < PageSize
    requires Linear(page', offset') == Linear(page, offset) + bytes
    ensures Advance(page, offset, bytes) == (page', offset')
  {
  }

  /** One mapped-window access: `len` bytes at `offset` of page `page`. */
  datatype Piece = Piece(page: nat, offset: nat, len: nat)

  function SumLen(ps: seq<Piece>): nat
  {
    if ps == [] then 0 else ps[0].len + SumLen(ps[1..])
  }

  /** The window accesses of a page-spanning copy of `bytes` bytes starting
      at (page, offset): the first page takes what fits after `offset`, every
      later page is entered at offset 0, and full pages in the middle take a
      whole page each. */
  function Chunks(page: nat, offset: nat, bytes: nat): (ps: seq<Piece>)
    requires offset < PageSize
    ensures 1 <= |ps|
    ensures ps[0] == Piece(page, offset, Min(bytes, PageSize - offset))
    decreases bytes
  {
    if bytes <= PageSize - offset then
      [Piece(page, offset, bytes)]
    else
      var rest := Chunks(page + 1, 0, bytes - (PageSize - offset));
      [Piece(page, offset, PageSize - offset)] + rest
  }

  /** Every access stays inside one mapped page; every access after the
      first enters the next page at offset 0 and moves something; every
      access but the last runs to the end of its page. */
  lemma {:induction false} ChunksInPages(page: nat, offset: nat, bytes: nat, ps: seq<Piece>)
    requires offset < PageSize
    requires ps == Chunks(page, offset, bytes)
    ensures forall k :: 1 <= k < |ps| ==> ps[k].page == page + k && ps[k].offset == 0 && 0 < ps[k].len
    ensures forall k :: 0 <= k < |ps| ==> ps[k].offset + ps[k].len <= PageSize
    ensures forall k :: 0 <= k < |ps| - 1 ==> ps[k].offset + ps[k].len == PageSize
    decreases bytes
  {
    if bytes > PageSize - offset {
      var rest := Chunks(page + 1, 0, bytes - (PageSize - offset));
      ChunksInPages(page + 1, 0, bytes - (PageSize - offset), rest);
      assert ps == [ps[0]] + rest;
      forall k | 1 <= k < |ps|
        ensures ps[k].page == page + k && ps[k].offset == 0 && 0 < ps[k].len
        ensures ps[k].offset + ps[k].len <= PageSize
        ensures k < |ps| - 1 ==> ps[k].offset + ps[k].len == PageSize
      {
        assert ps[k] == rest[k - 1];
      }
    } else {
      assert ps == [Piece(page, offset, bytes)];
    }
  }

  /** The accesses together cover the whole range: their lengths add up to
      `bytes`, and the last one ends `bytes` past the start. */
  lemma {:induction false} ChunksCover(page: nat, offset: nat, bytes: nat)
    requires offset < PageSize
    ensures SumLen(Chunks(page, offset, bytes)) == bytes
    ensures var ps := Chunks(page, offset, bytes);
      Linear(ps[|ps| - 1].page, ps[|ps| - 1].offset) + ps[|ps| - 1].len == Linear(page, offset) + bytes
    decreases bytes
  {
    var ps := Chunks(page, offset, bytes);
    if bytes > PageSize - offset {
      var rest := Chunks(page + 1, 0, bytes - (PageSize - offset));
      ChunksCover(page + 1, 0, bytes - (PageSize - offset));
      assert ps == [ps[0]] + rest;
      assert ps[1..] == rest;
      assert ps[|ps| - 1] == rest[|rest| - 1];
    }
  }

  /** Accesses of the closed form -- what fits in the first page, whole
      pages after it, and a last access of at most a page that ends `bytes`
      past the start -- are the ones Chunks describes. */
  lemma {:induction false} ChunksForm(page: nat, offset: nat, bytes: nat, ps: seq<Piece>)
    requires offset < PageSize
    requires PageSize - offset < bytes
    requires 2 <= |ps|
    requires ps[0] == Piece(page, offset, PageSize - offset)
    requires forall j :: 1 <= j < |ps| - 1 ==> ps[j] == Piece(page + j, 0, PageSize)
    requires var last := |ps| - 1;
      && ps[last] == Piece(page + last, 0, ps[last].len) && 0 < ps[last].len <= PageSize
      && Linear(page + last, 0) + ps[last].len == Linear(page, offset) + bytes
    ensures ps == Chunks(page, offset, bytes)
    decreases |ps|
  {
    var rest := ps[1..];
    var bytes' := bytes - (PageSize - offset);
    if |ps| == 2 {
      assert Chunks(page + 1, 0, bytes') == [Piece(page + 1, 0, bytes')];
    } else {
      ChunksForm(page + 1, 0, bytes', rest);
    }
    assert ps == [ps[0]] + rest;
  }

  /** `s` with the bytes from `at` on replaced by `d`: the effect of a
      contiguous copy into the region. */
  function Overlay<T>(s: seq<T>, at: nat, d: seq<T>): (r: seq<T>)
    requires at + |d| <= |s|
    ensures |r| == |s|
    ensures forall i :: 0 <= i < |s| ==> r[i] == if at <= i < at + |d| then d[i - at] else s[i]
  {
    s[..at] + d + s[at + |d|..]
  }

  /** A sequence that agrees byte by byte with a copy is that copy. */
  lemma OverlayByBytes<T>(s: seq<T>, at: nat, d: seq<T>, r: seq<T>)
    requires at + |d| <= |s| && |r| == |s|
    requires forall i :: 0 <= i < |s| ==> r[i] == if at <= i < at + |d| then d[i - at] else s[i]
    ensures r == Overlay(s, at, d)
  {
  }

  /** Up to the end of the copied range, a copy leaves the old prefix followed by the new bytes. */
  lemma OverlayPrefix<T>(s: seq<T>, at: nat, d: seq<T>)
    requires at + |d| <= |s|
    ensures Overlay(s, at, d)[..at + |d|] == s[..at] + d
  {
    var r := Overlay(s, at, d);
    forall i | 0 <= i < at + |d| ensures r[..at + |d|][i] == (s[..at] + d)[i] {
    }
  }

  /** The files laid back to back, in order. */
  function Flatten<T>(fs: seq<seq<T>>): (r: seq<T>)
  {
    if fs == [] then [] else Flatten(fs[..|fs| - 1]) + fs[|fs| - 1]
  }

  /** Appending a file appends its bytes after all earlier ones. */
  lemma FlattenSnoc<T>(fs: seq<seq<T>>, d: seq<T>)
    ensures Flatten(fs + [d]) == Flatten(fs) + d
  {
    assert (fs + [d])[..|fs|] == fs;
  }

  /** File `i` of a back-to-back layout starts where the earlier files end,
      and the bytes there are exactly that file. */
  lemma {:induction false} FlattenSlice<T>(fs: seq<seq<T>>, i: nat)
    requires i < |fs|
    ensures |Flatten(fs[..i])| + |fs[i]| <= |Flatten(fs)|
    ensures Flatten(fs)[|Flatten(fs[..i])|..|Flatten(fs[..i])| + |fs[i]|] == fs[i]
  {
    var n := |fs| - 1;
    var init := fs[..n];
    assert Flatten(fs) == Flatten(init) + fs[n];
    if i == n {
      assert fs[..i] == init;
    } else {
      FlattenSlice(init, i);
      assert init[..i] == fs[..i];
      assert init[i] == fs[i];
      var a := |Flatten(fs[..i])|;
      assert Flatten(fs)[a..a + |fs[i]|] == Flatten(init)[a..a + |fs[i]|];
    }
  }
}
