/** Look-ahead pagination of the request log: one row more than a page is asked for, and its
    presence says that there is a next page. Page arithmetic is that of signed 64-bit
    integers. */
module Paging {
  import opened Common
  import opened Targets

  const MAX_INT64: int := 0x7FFF_FFFF_FFFF_FFFF
  const TWO_64: int := 0x1_0000_0000_0000_0000

  predicate IsInt64(x: int) {
    -MAX_INT64 - 1 <= x <= MAX_INT64
  }

  /** The 64-bit result of an operation whose exact result is `x`. */
  function Wrap64(x: int): (r: int)
    ensures IsInt64(r)
    ensures r == x <==> IsInt64(x)
  {
    var m := x % TWO_64;
    if m <= MAX_INT64 then m else m - TWO_64
  }

  /** LIMIT and OFFSET over the log in its order; the database refuses negative ones. */
  function ListRows<T>(log: seq<T>, limit: int, offset: int): Option<seq<T>> {
    if limit < 0 || offset < 0 then None
    else if offset >= |log| then Some([])
    else if |log| - offset <= limit then Some(log[offset..])
    else Some(log[offset..offset + limit])
  }

  datatype PageReply<T> = Forbidden | StorageFailed | Page(items: seq<T>, hasNext: bool)

  function PageSizeOf(pageSize: int): (r: int)
    ensures r > 0
    ensures pageSize > 0 ==> r == pageSize
    ensures pageSize <= 0 ==> r == 50
  {
    if pageSize <= 0 then 50 else pageSize
  }

  function OffsetOf(page: int, pageSize: int): int
    requires page >= 1 && pageSize >= 1
  {
    Wrap64((page - 1) * pageSize)
  }

  /** The page made of the rows listed for it. */
  function Shown<T>(listed: Option<seq<T>>, pageSize: int): PageReply<T>
    requires pageSize >= 1
  {
    match listed
    case None => StorageFailed
    case Some(items) =>
      if |items| > pageSize then Page(items[..pageSize], true) else Page(items, false)
  }

  /** The page a given request gets. */
  function PageOf<T>(log: seq<T>, page: int, pageSize: int): PageReply<T>
    requires page >= 1 && pageSize >= 1
  {
    Shown(ListRows(log, Wrap64(pageSize + 1), OffsetOf(page, pageSize)), pageSize)
  }

  method ListAdminRequests<T>(user: User, log: seq<T>, page: int, pageSize: int) returns (r: PageReply<T>)
    requires IsInt64(page) && IsInt64(pageSize)
    ensures user.role != Admin ==> r == Forbidden
    ensures user.role == Admin ==> r == PageOf(log, if page <= 0 then 1 else page, PageSizeOf(pageSize))
  {
    if user.role != Admin {
      return Forbidden;
    }
    var p, size := page, pageSize;
    if p <= 0 {
      p := 1;
    }
    if size <= 0 {
      size := 50;
    }
    var offset := Wrap64((p - 1) * size);
    var listed := ListRows(log, Wrap64(size + 1), offset);
    if listed.None? {
      return StorageFailed;
    }
    var items := listed.value;
    var hasNext := |items| > size;
    if hasNext {
      items := items[..size];
    }
    var out: seq<T> := [];
    for i := 0 to |items|
      invariant out == items[..i]
    {
      out := out + [items[i]];
    }
    assert items[..|items|] == items;
    return Page(out, hasNext);
  }

  /** The slice of the log a page should show, and whether a later row exists. */
  function SliceAt<T>(log: seq<T>, from: int, pageSize: int): PageReply<T>
    requires from >= 0 && pageSize >= 1
  {
    if from >= |log| then Page([], false)
    else if |log| - from <= pageSize then Page(log[from..], false)
    else Page(log[from..from + pageSize], true)
  }

  lemma LookAheadIsSlice<T>(log: seq<T>, from: int, pageSize: int)
    requires from >= 0 && pageSize >= 1
    ensures Shown(ListRows(log, pageSize + 1, from), pageSize) == SliceAt(log, from, pageSize)
  {
    if |log| - from > pageSize + 1 {
      assert log[from..from + (pageSize + 1)][..pageSize] == log[from..from + pageSize];
    } else if |log| - from == pageSize + 1 {
      assert log[from..][..pageSize] == log[from..from + pageSize];
    }
  }

  /** Up to the page bound, a page is its slice of the log, and `hasNext` says exactly whether
      a later row exists. */
  lemma PageIsSlice<T>(log: seq<T>, page: int, pageSize: int)
    requires page >= 1 && 1 <= pageSize < MAX_INT64 && (page - 1) * pageSize <= MAX_INT64
    ensures (page - 1) * pageSize >= 0
    ensures PageOf(log, page, pageSize) == SliceAt(log, (page - 1) * pageSize, pageSize)
  {
    LookAheadIsSlice(log, (page - 1) * pageSize, pageSize);
  }

  /** The offset is right exactly up to that bound. */
  lemma OffsetBound(page: int, pageSize: int)
    requires page >= 1 && pageSize >= 1
    ensures OffsetOf(page, pageSize) == (page - 1) * pageSize <==> (page - 1) * pageSize <= MAX_INT64
  {
    assert (page - 1) * pageSize >= 0;
  }

  /** A page fails exactly if its offset or its look-ahead wraps to a negative number. */
  lemma PageFailsExactly<T>(log: seq<T>, page: int, pageSize: int)
    requires IsInt64(page) && page >= 1 && 1 <= pageSize <= MAX_INT64
    ensures PageOf(log, page, pageSize) == StorageFailed
            <==> pageSize == MAX_INT64 || (page - 1) * pageSize % TWO_64 > MAX_INT64
  {
  }

  /** Beyond it the log starts again: with four rows a page, page 2^62 + 1 is page 1. */
  lemma FarPageWrapsAround<T>(log: seq<T>)
    ensures IsInt64(0x4000_0000_0000_0001)
    ensures PageOf(log, 0x4000_0000_0000_0001, 4) == PageOf(log, 1, 4)
  {
    assert (0x4000_0000_0000_0001 - 1) * 4 == TWO_64;
    assert Wrap64(TWO_64) == 0;
  }

  /** The rows read by following `hasNext` from page `page` on. */
  function ReadFrom<T>(log: seq<T>, page: int, pageSize: int): seq<T>
    requires page >= 1 && 1 <= pageSize && |log| + pageSize < MAX_INT64
    requires (page - 1) * pageSize <= |log|
    decreases |log| - (page - 1) * pageSize
  {
    PageIsSlice(log, page, pageSize);
    var p := PageOf(log, page, pageSize);
    NextOffset(page, pageSize);
    if p.hasNext then p.items + ReadFrom(log, page + 1, pageSize) else p.items
  }

  lemma NextOffset(page: int, pageSize: int)
    ensures page * pageSize == (page - 1) * pageSize + pageSize
  {
  }

  lemma {:induction false} ReadFromIsRest<T>(log: seq<T>, page: int, pageSize: int)
    requires page >= 1 && 1 <= pageSize && |log| + pageSize < MAX_INT64
    requires (page - 1) * pageSize <= |log|
    ensures (page - 1) * pageSize >= 0
    ensures ReadFrom(log, page, pageSize) == log[(page - 1) * pageSize..]
    decreases |log| - (page - 1) * pageSize
  {
    PageIsSlice(log, page, pageSize);
    NextOffset(page, pageSize);
    var from := (page - 1) * pageSize;
    if |log| - from > pageSize {
      ReadFromIsRest(log, page + 1, pageSize);
      assert log[from..] == log[from..from + pageSize] + log[from + pageSize..];
    }
  }

  /** Reading page after page until there is no next one yields the whole log, without gap or
      repetition, and no offset on the way overflows. */
  lemma PagesPartitionLog<T>(log: seq<T>, pageSize: int)
    requires 1 <= pageSize && |log| + pageSize < MAX_INT64
    ensures ReadFrom(log, 1, pageSize) == log
  {
    ReadFromIsRest(log, 1, pageSize);
  }
}
