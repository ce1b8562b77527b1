/**
 * A heap file: a table stored as a sequence of fixed-size pages in one file.
 * The byte image of the file is a `seq<byte>`; pages are cut out of it at
 * offset `pageNumber * pageSize`.  The slot layout of a heap page is kept
 * abstract: a page is its id and a sequence of slots, each empty or holding a
 * tuple.
 */
module Storage {
  import opened Common

  // ---------------------------------------------------------------------
  // Byte image of a file
  // ---------------------------------------------------------------------

  function Zeros(n: nat): (r: seq<byte>)
    ensures |r| == n
    ensures forall i :: 0 <= i < n ==> r[i] == 0
  {
    seq(n, _ => 0)
  }

  /** The byte at `k` as a reader sees it: bytes past the end of the file read as zero. */
  function ByteAt(file: seq<byte>, k: int): byte {
    if 0 <= k < |file| then file[k] else 0
  }

  function Max(a: int, b: int): int {
    if a < b then b else a
  }

  /**
   * Reading page `pageNumber`: `pageSize` bytes from offset
   * `pageNumber * pageSize`; whatever lies past the end of the file is
   * zero, so a page beyond the end reads as an empty page.  A negative
   * offset makes the seek fail, which surfaces as IllegalArgumentException.
   */
  function ReadPageBytes(file: seq<byte>, pageNumber: int, pageSize: nat): (r: Result<seq<byte>>)
    ensures r.Err? <==> pageNumber < 0 && pageSize > 0
    ensures r.Err? ==> r.error == IllegalArgument
    ensures r.Ok? ==> |r.value| == pageSize
    ensures r.Ok? ==> forall i :: 0 <= i < pageSize ==> r.value[i] == ByteAt(file, pageNumber * pageSize + i)
  {
    var from := pageNumber * pageSize;
    if from < |file| then
      if from < 0 then Err(IllegalArgument)
      else
        var to := if from + pageSize <= |file| then from + pageSize else |file|;
        Ok(file[from..to] + Zeros(pageSize - (to - from)))
    else
      Ok(Zeros(pageSize))
  }

  /**
   * The same read with the offset computed in 32-bit arithmetic, as the
   * source does: it agrees with `ReadPageBytes` whenever
   * `pageNumber * pageSize` fits in 32 bits, and outside that range (above
   * 2^31 - 1 or below -2^31) the product wraps around.
   */
  function ReadPageBytesInt32(file: seq<byte>, pageNumber: int, pageSize: nat): (r: Result<seq<byte>>)
    ensures r.Err? <==> Wrap32(pageNumber * pageSize) < 0
    ensures r.Err? ==> r.error == IllegalArgument
    ensures r.Ok? ==> |r.value| == pageSize
    ensures r.Ok? ==> forall i :: 0 <= i < pageSize ==> r.value[i] == ByteAt(file, Wrap32(pageNumber * pageSize) + i)
    ensures IsInt32(pageNumber * pageSize) ==> r == ReadPageBytes(file, pageNumber, pageSize)
  {
    var from := Wrap32(pageNumber * pageSize);
    if from < |file| then
      if from < 0 then Err(IllegalArgument)
      else
        var to := if from + pageSize <= |file| then from + pageSize else |file|;
        Ok(file[from..to] + Zeros(pageSize - (to - from)))
    else
      Ok(Zeros(pageSize))
  }

  /**
   * Writing `data` at offset `pageNumber * pageSize` (computed in 64 bits):
   * the bytes in that range are replaced, the file grows when the range
   * reaches past its end, and a gap between the old end and the offset is
   * zero-filled.  A negative offset makes the seek fail with IOException.
   */
  function WritePageBytes(file: seq<byte>, pageNumber: int, data: seq<byte>, pageSize: nat): (r: Result<seq<byte>>)
    ensures r.Err? <==> pageNumber * pageSize < 0
    ensures r.Err? ==> r.error == IoError
    ensures r.Ok? ==> |r.value| == Max(|file|, pageNumber * pageSize + |data|)
    ensures r.Ok? ==> forall i :: 0 <= i < |data| ==> r.value[pageNumber * pageSize + i] == data[i]
    ensures r.Ok? ==> forall i :: 0 <= i < |r.value| && !(pageNumber * pageSize <= i < pageNumber * pageSize + |data|) ==>
                        r.value[i] == ByteAt(file, i)
  {
    var offset := pageNumber * pageSize;
    if offset < 0 then Err(IoError)
    else
      var padded := if offset <= |file| then file else file + Zeros(offset - |file|);
      var tail := if offset + |data| < |padded| then padded[offset + |data|..] else [];
      Ok(padded[..offset] + data + tail)
  }

  /** The number of pages: the file length divided by the page size, rounded up. */
  function PageCount(length: nat, pageSize: nat): (n: nat)
    requires pageSize > 0
    ensures length <= n * pageSize
    ensures n == 0 || (n - 1) * pageSize < length
  {
    (length + pageSize - 1) / pageSize
  }

  /** Every page below the page count starts inside the file. */
  lemma PageStartsInFile(length: nat, pageSize: nat)
    requires pageSize > 0
    ensures forall k :: 0 <= k < PageCount(length, pageSize) ==> k * pageSize < length
  {
    var n := PageCount(length, pageSize);
    forall k | 0 <= k < n
      ensures k * pageSize < length
    {
      assert k * pageSize <= (n - 1) * pageSize by {
        MulMono(k, n - 1, pageSize);
      }
    }
  }

  lemma MulMono(a: nat, b: nat, c: nat)
    requires a <= b
    ensures a * c <= b * c
  {
  }

  lemma MulStep(a: nat, pageSize: nat)
    ensures (a + 1) * pageSize == a * pageSize + pageSize
  {
  }

  lemma {:induction false} MulMonotone(a: nat, b: nat, pageSize: nat)
    requires a <= b
    ensures a * pageSize <= b * pageSize
  {
    if a < b {
      MulMonotone(a, b - 1, pageSize);
      MulStep(b - 1, pageSize);
    }
  }

  /** Page `m` ends at or before page `n` begins when `m < n`. */
  lemma {:induction false} PagesDisjoint(m: nat, n: nat, pageSize: nat)
    requires m < n
    ensures m * pageSize + pageSize <= n * pageSize
  {
    MulMonotone(m + 1, n, pageSize);
    MulStep(m, pageSize);
  }

  /** Reading a page back after writing it yields what was written. */
  lemma {:induction false} ReadAfterWrite(file: seq<byte>, pageNumber: nat, data: seq<byte>, pageSize: nat)
    requires |data| == pageSize
    ensures WritePageBytes(file, pageNumber, data, pageSize).Ok?
    ensures ReadPageBytes(WritePageBytes(file, pageNumber, data, pageSize).value, pageNumber, pageSize) == Ok(data)
  {
    var off := pageNumber * pageSize;
    var w := WritePageBytes(file, pageNumber, data, pageSize).value;
    assert |w| >= off + pageSize;
    var r := ReadPageBytes(w, pageNumber, pageSize);
    assert r.Ok?;
    forall i | 0 <= i < pageSize
      ensures r.value[i] == data[i]
    {
      assert r.value[i] == ByteAt(w, off + i);
      assert w[off + i] == data[i];
    }
    assert r.value == data;
  }

  /** Writing one page leaves every other page as it was. */
  lemma {:induction false} WriteLeavesOtherPages(file: seq<byte>, n: nat, m: nat, data: seq<byte>, pageSize: nat)
    requires |data| == pageSize && m != n
    ensures WritePageBytes(file, n, data, pageSize).Ok?
    ensures ReadPageBytes(WritePageBytes(file, n, data, pageSize).value, m, pageSize) == ReadPageBytes(file, m, pageSize)
  {
    var offN := n * pageSize;
    var offM := m * pageSize;
    if m < n {
      PagesDisjoint(m, n, pageSize);
    } else {
      PagesDisjoint(n, m, pageSize);
    }
    var w := WritePageBytes(file, n, data, pageSize).value;
    var r := ReadPageBytes(w, m, pageSize).value;
    var s := ReadPageBytes(file, m, pageSize).value;
    forall i | 0 <= i < pageSize
      ensures r[i] == s[i]
    {
      var k := offM + i;
      assert !(offN <= k < offN + pageSize);
      assert ByteAt(w, k) == ByteAt(file, k);
    }
    assert r == s;
  }

  /** Writing the page just past the last one adds exactly one page to the file. */
  lemma {:induction false} AppendAddsOnePage(file: seq<byte>, data: seq<byte>, pageSize: nat)
    requires pageSize > 0 && |data| == pageSize
    ensures WritePageBytes(file, PageCount(|file|, pageSize), data, pageSize).Ok?
    ensures PageCount(|WritePageBytes(file, PageCount(|file|, pageSize), data, pageSize).value|, pageSize)
            == PageCount(|file|, pageSize) + 1
  {
    var n := PageCount(|file|, pageSize);
    var w := WritePageBytes(file, n, data, pageSize).value;
    MulStep(n, pageSize);
    assert |w| == (n + 1) * pageSize;
    var k := PageCount(|w|, pageSize);
    if k > n + 1 {
      MulMonotone(n + 1, k - 1, pageSize);
    } else if k < n + 1 {
      MulMonotone(k, n, pageSize);
    }
  }

  // ---------------------------------------------------------------------
  // Heap pages
  // ---------------------------------------------------------------------

  /** A heap page: its id and its slots, each empty (`None`) or holding a tuple. */
  datatype HeapPage = HeapPage(pid: PageId, slots: seq<Option<Tuple>>)

  function CountEmpty(slots: seq<Option<Tuple>>): (n: nat)
    ensures n <= |slots|
  {
    if slots == [] then 0
    else (if slots[0].None? then 1 else 0) + CountEmpty(slots[1..])
  }

  function NumEmptySlots(p: HeapPage): nat {
    CountEmpty(p.slots)
  }

  /** The lowest empty slot, if any. */
  function FirstEmpty(slots: seq<Option<Tuple>>): (r: Option<nat>)
    ensures r.Some? ==> r.value < |slots| && slots[r.value].None? &&
                        forall j :: 0 <= j < r.value ==> slots[j].Some?
    ensures r.None? ==> forall j :: 0 <= j < |slots| ==> slots[j].Some?
  {
    if slots == [] then None
    else if slots[0].None? then Some(0)
    else match FirstEmpty(slots[1..])
      case None => None
      case Some(i) => Some(i + 1)
  }

  /** A page has an empty slot exactly when its count of empty slots is positive. */
  lemma {:induction false} HasRoomIff(slots: seq<Option<Tuple>>)
    ensures CountEmpty(slots) > 0 <==> FirstEmpty(slots).Some?
  {
    if slots != [] {
      HasRoomIff(slots[1..]);
    }
  }

  /** Changing slot `i` changes the count of empty slots by what the slot changed. */
  lemma {:induction false} CountEmptyUpdate(slots: seq<Option<Tuple>>, i: nat, v: Option<Tuple>)
    requires i < |slots|
    ensures CountEmpty(slots[i := v]) + (if slots[i].None? then 1 else 0)
            == CountEmpty(slots) + (if v.None? then 1 else 0)
  {
    if i > 0 {
      assert slots[i := v][1..] == slots[1..][i - 1 := v];
      CountEmptyUpdate(slots[1..], i - 1, v);
    } else {
      assert slots[i := v][1..] == slots[1..];
    }
  }

  /** A new page: every slot empty. */
  function EmptyPage(pid: PageId, numSlots: nat): (p: HeapPage)
    ensures p.pid == pid && |p.slots| == numSlots
    ensures forall j :: 0 <= j < numSlots ==> p.slots[j].None?
  {
    HeapPage(pid, seq(numSlots, _ => None))
  }

  /** The tuple as stored in slot `i` of page `pid`: its record id now names that slot. */
  function Placed(t: Tuple, pid: PageId, i: nat): Tuple {
    t.(rid := Some(RecordId(pid, i)))
  }

  /**
   * Inserting a tuple into the lowest empty slot; a full page refuses it
   * with DbException.
   */
  function InsertIntoPage(p: HeapPage, t: Tuple): (r: Result<HeapPage>)
    ensures r.Err? <==> NumEmptySlots(p) == 0
    ensures r.Err? ==> r.error == DbError
    ensures r.Ok? ==> r.value.pid == p.pid && |r.value.slots| == |p.slots|
    ensures r.Ok? ==> NumEmptySlots(r.value) == NumEmptySlots(p) - 1
    ensures r.Ok? ==> exists i :: 0 <= i < |p.slots| && p.slots[i].None? &&
                        r.value.slots == p.slots[i := Some(Placed(t, p.pid, i))]
  {
    HasRoomIff(p.slots);
    match FirstEmpty(p.slots)
      case None => Err(DbError)
      case Some(i) =>
        CountEmptyUpdate(p.slots, i, Some(Placed(t, p.pid, i)));
        Ok(p.(slots := p.slots[i := Some(Placed(t, p.pid, i))]))
  }

  /**
   * Deleting a stored tuple: its record id must name this page and a used
   * slot; otherwise DbException.
   */
  function DeleteFromPage(p: HeapPage, t: Tuple): (r: Result<HeapPage>)
    ensures r.Ok? <==> t.rid.Some? && t.rid.value.pageId == p.pid &&
                       0 <= t.rid.value.tupleNumber < |p.slots| && p.slots[t.rid.value.tupleNumber].Some?
    ensures r.Err? ==> r.error == DbError
    ensures r.Ok? ==> r.value == p.(slots := p.slots[t.rid.value.tupleNumber := None])
    ensures r.Ok? ==> NumEmptySlots(r.value) == NumEmptySlots(p) + 1
  {
    match t.rid
      case None => Err(DbError)
      case Some(rid) =>
        if rid.pageId != p.pid || !(0 <= rid.tupleNumber < |p.slots|) || p.slots[rid.tupleNumber].None? then
          Err(DbError)
        else
          CountEmptyUpdate(p.slots, rid.tupleNumber, None);
          Ok(p.(slots := p.slots[rid.tupleNumber := None]))
  }

  /** Deleting the tuple just inserted gives back the page as it was. */
  lemma {:induction false} InsertThenDelete(p: HeapPage, t: Tuple)
    requires NumEmptySlots(p) > 0
    ensures InsertIntoPage(p, t).Ok? && FirstEmpty(p.slots).Some?
    ensures DeleteFromPage(InsertIntoPage(p, t).value, Placed(t, p.pid, FirstEmpty(p.slots).value)) == Ok(p)
  {
    HasRoomIff(p.slots);
    var i := FirstEmpty(p.slots).value;
    var q := InsertIntoPage(p, t).value;
    assert q.slots == p.slots[i := Some(Placed(t, p.pid, i))];
    assert q.slots[i := None] == p.slots;
  }

  /** The tuples a page iterator yields: the used slots, in slot order. */
  function PageTuples(p: HeapPage): (r: seq<Tuple>)
    ensures |r| + NumEmptySlots(p) == |p.slots|
  {
    UsedSlots(p.slots)
  }

  function UsedSlots(slots: seq<Option<Tuple>>): (r: seq<Tuple>)
    ensures |r| + CountEmpty(slots) == |slots|
  {
    if slots == [] then []
    else (if slots[0].Some? then [slots[0].value] else []) + UsedSlots(slots[1..])
  }

  /** All the tuples of a sequence of tuple lists, in order. */
  function Flatten(lists: seq<seq<Tuple>>): seq<Tuple> {
    if lists == [] then [] else lists[0] + Flatten(lists[1..])
  }

  /** Flattening the pages' tuple lists gives every tuple of the pages. */
  lemma {:induction false} FlattenPageTuples(lists: seq<seq<Tuple>>, pages: seq<HeapPage>)
    requires |lists| == |pages| && forall k | 0 <= k < |pages| :: lists[k] == PageTuples(pages[k])
    ensures Flatten(lists) == FileTuples(pages)
  {
    if pages != [] {
      FlattenPageTuples(lists[1..], pages[1..]);
    }
  }

  /** Every tuple of the pages, page by page and within a page in slot order. */
  function FileTuples(pages: seq<HeapPage>): seq<Tuple> {
    if pages == [] then [] else PageTuples(pages[0]) + FileTuples(pages[1..])
  }

  /** A tuple is among the pages' tuples exactly when some slot of some page holds it. */
  lemma {:induction false} FileTuplesMembers(pages: seq<HeapPage>, t: Tuple)
    ensures t in FileTuples(pages) <==>
            exists k, i :: 0 <= k < |pages| && 0 <= i < |pages[k].slots| && pages[k].slots[i] == Some(t)
  {
    if pages != [] {
      FileTuplesMembers(pages[1..], t);
      UsedSlotsMembers(pages[0].slots, t);
      if t in FileTuples(pages) {
        if t in PageTuples(pages[0]) {
          var i :| 0 <= i < |pages[0].slots| && pages[0].slots[i] == Some(t);
          assert pages[0].slots[i] == Some(t);
        } else {
          var k, i :| 0 <= k < |pages[1..]| && 0 <= i < |pages[1..][k].slots| && pages[1..][k].slots[i] == Some(t);
          assert pages[k + 1].slots[i] == Some(t);
        }
      }
      if exists k, i :: 0 <= k < |pages| && 0 <= i < |pages[k].slots| && pages[k].slots[i] == Some(t) {
        var k, i :| 0 <= k < |pages| && 0 <= i < |pages[k].slots| && pages[k].slots[i] == Some(t);
        if k > 0 {
          assert pages[1..][k - 1].slots[i] == Some(t);
        }
      }
    }
  }

  /**
   * The first page in `lo..n` of table `tableId` with an empty slot, as the
   * buffer pool returns the pages (`fetch`).
   */
  function FirstWithRoom(fetch: PageId -> HeapPage, tableId: int, lo: nat, n: nat): (r: Option<nat>)
    decreases n - lo
    ensures r.Some? ==> lo <= r.value < n && NumEmptySlots(fetch(PageId(tableId, r.value))) > 0
    ensures r.Some? ==> forall j :: lo <= j < r.value ==> NumEmptySlots(fetch(PageId(tableId, j))) == 0
    ensures r.None? ==> forall j :: lo <= j < n ==> NumEmptySlots(fetch(PageId(tableId, j))) == 0
  {
    if lo >= n then None
    else if NumEmptySlots(fetch(PageId(tableId, lo))) > 0 then Some(lo)
    else FirstWithRoom(fetch, tableId, lo + 1, n)
  }

  // ---------------------------------------------------------------------
  // The heap file
  // ---------------------------------------------------------------------

  class HeapFile {
    const tableId: int
    const pageSize: nat
    /** How many slots a new page of this table has. */
    const slotsPerPage: nat
    /** The page serialisation: a page's byte image. */
    const encode: HeapPage -> seq<byte>
    var file: seq<byte>

    ghost predicate Valid()
      reads this
    {
      pageSize > 0 && forall p :: |encode(p)| == pageSize
    }

    constructor(tableId: int, pageSize: nat, slotsPerPage: nat, encode: HeapPage -> seq<byte>, file: seq<byte>)
      requires pageSize > 0 && forall p :: |encode(p)| == pageSize
      ensures Valid()
      ensures this.tableId == tableId && this.pageSize == pageSize && this.slotsPerPage == slotsPerPage
      ensures this.encode == encode && this.file == file
    {
      this.tableId := tableId;
      this.pageSize := pageSize;
      this.slotsPerPage := slotsPerPage;
      this.encode := encode;
      this.file := file;
    }

    /** `numPages`: the file's length in whole pages, the last one possibly partial. */
    function NumPages(): (n: nat)
      reads this
      requires Valid()
      ensures |file| <= n * pageSize
      ensures forall k :: 0 <= k < n ==> k * pageSize < |file|
    {
      PageStartsInFile(|file|, pageSize);
      PageCount(|file|, pageSize)
    }

    /** The byte image of page `pid`, as `readPage` builds a page from it. */
    function ReadPage(pid: PageId): (r: Result<seq<byte>>)
      reads this
      requires Valid()
      ensures r.Err? <==> pid.pageNumber < 0
      ensures r.Ok? ==> |r.value| == pageSize
    {
      ReadPageBytes(file, pid.pageNumber, pageSize)
    }

    /** Writes the page's byte image at its page number. */
    method WritePage(p: HeapPage) returns (r: Result<()>)
      requires Valid()
      modifies this
      ensures Valid()
      ensures WritePageBytes(old(file), p.pid.pageNumber, encode(p), pageSize).Ok? ==>
                r.Ok? && file == WritePageBytes(old(file), p.pid.pageNumber, encode(p), pageSize).value
      ensures WritePageBytes(old(file), p.pid.pageNumber, encode(p), pageSize).Err? ==>
                r == Err(IoError) && file == old(file)
    {
      var w := WritePageBytes(file, p.pid.pageNumber, encode(p), pageSize);
      if w.Err? {
        return Err(IoError);
      }
      file := w.value;
      return Ok(());
    }

    /**
     * Inserting a tuple: the first page (in page order) with an empty slot
     * takes it and is returned without being written; when every page is
     * full, a new page numbered `NumPages()` takes it and is written to
     * the end of the file at once.  `fetch` is what the buffer pool returns
     * for each page.
     */
    method InsertTuple(t: Tuple, fetch: PageId -> HeapPage) returns (r: Result<seq<HeapPage>>)
      requires Valid()
      modifies this
      ensures Valid()
      ensures FirstWithRoom(fetch, tableId, 0, old(NumPages())).Some? ==>
                var i := FirstWithRoom(fetch, tableId, 0, old(NumPages())).value;
                r == Ok([InsertIntoPage(fetch(PageId(tableId, i)), t).value]) && file == old(file)
      ensures FirstWithRoom(fetch, tableId, 0, old(NumPages())).None? && slotsPerPage == 0 ==>
                r == Err(DbError) && file == old(file)
      ensures FirstWithRoom(fetch, tableId, 0, old(NumPages())).None? && slotsPerPage > 0 ==>
                var q := InsertIntoPage(EmptyPage(PageId(tableId, old(NumPages())), slotsPerPage), t).value;
                r == Ok([q]) && Ok(file) == WritePageBytes(old(file), old(NumPages()), encode(q), pageSize) &&
                NumPages() == old(NumPages()) + 1
    {
      var n := NumPages();
      var i := 0;
      while i < n
        invariant 0 <= i <= n
        invariant FirstWithRoom(fetch, tableId, 0, n) == FirstWithRoom(fetch, tableId, i, n)
      {
        var page := fetch(PageId(tableId, i));
        if NumEmptySlots(page) > 0 {
          var q := InsertIntoPage(page, t);
          return Ok([q.value]);
        }
        i := i + 1;
      }
      var newPage := EmptyPage(PageId(tableId, n), slotsPerPage);
      assert NumEmptySlots(newPage) == slotsPerPage by {
        assert UsedSlots(newPage.slots) == [] by {
          if UsedSlots(newPage.slots) != [] {
            UsedSlotsMembers(newPage.slots, UsedSlots(newPage.slots)[0]);
          }
        }
      }
      var q := InsertIntoPage(newPage, t);
      if q.Err? {
        return Err(DbError);
      }
      var w := WritePage(q.value);
      AppendAddsOnePage(old(file), encode(q.value), pageSize);
      return Ok([q.value]);
    }

    /**
     * Deleting a tuple: the page its record id names is fetched and the
     * tuple removed from it; a refused delete is swallowed and the page is
     * returned unchanged.  A tuple without a record id dereferences null.
     */
    function DeleteTuple(t: Tuple, fetch: PageId -> HeapPage): (r: Result<seq<HeapPage>>)
      ensures r.Err? <==> t.rid.None?
      ensures r.Err? ==> r.error == NullPointer
      ensures r.Ok? ==> |r.value| == 1 && r.value[0].pid == fetch(t.rid.value.pageId).pid
      ensures r.Ok? ==> NumEmptySlots(r.value[0]) == NumEmptySlots(fetch(t.rid.value.pageId)) + 1
                         || r.value[0] == fetch(t.rid.value.pageId)
      ensures r.Ok? ==>
                var rid := t.rid.value;
                var page := fetch(rid.pageId);
                var hit := page.pid == rid.pageId && 0 <= rid.tupleNumber < |page.slots| && page.slots[rid.tupleNumber].Some?;
                && (hit ==> r.value[0] == page.(slots := page.slots[rid.tupleNumber := None]))
                && (!hit ==> r.value[0] == page)
    {
      match t.rid
        case None => Err(NullPointer)
        case Some(rid) =>
          var page := fetch(rid.pageId);
          match DeleteFromPage(page, t)
            case Ok(q) => Ok([q])
            case Err(_) => Ok([page])
    }
  }

  /** The used slots hold exactly the tuples some slot holds. */
  lemma {:induction false} UsedSlotsMembers(slots: seq<Option<Tuple>>, x: Tuple)
    ensures x in UsedSlots(slots) <==> exists i :: 0 <= i < |slots| && slots[i] == Some(x)
  {
    if slots != [] {
      UsedSlotsMembers(slots[1..], x);
      if exists i :: 0 <= i < |slots| && slots[i] == Some(x) {
        var i :| 0 <= i < |slots| && slots[i] == Some(x);
        if i > 0 {
          assert slots[1..][i - 1] == Some(x);
        }
      }
      if x in UsedSlots(slots[1..]) {
        var i :| 0 <= i < |slots[1..]| && slots[1..][i] == Some(x);
        assert slots[i + 1] == Some(x);
      }
    }
  }

  // ---------------------------------------------------------------------
  // Iterating over a heap file
  // ---------------------------------------------------------------------

  /**
   * The iterator over a heap file.  `pages[k]` is page k of the file as the
   * buffer pool returns it, for every page of the file; page 0 of an empty
   * file reads as a page without tuples.  `current` is what is left of the
   * current page's tuple iterator (None while the iterator is closed).
   */
  class HeapFileIterator {
    const pages: seq<HeapPage>
    /** Each page's tuple iterator, as the list it yields. */
    const lists: seq<seq<Tuple>>
    var pageNum: int
    var current: Option<seq<Tuple>>
    var status: bool

    ghost predicate Valid()
      reads this
    {
      && |lists| == |pages| && (forall k {:trigger PageTuples(pages[k])} | 0 <= k < |pages| :: lists[k] == PageTuples(pages[k]))
      && 0 <= pageNum <= |pages| && (status <==> current.Some?)
    }

    /** What the iterator still has to yield. */
    function Remaining(): seq<Tuple>
      reads this
      requires Valid()
    {
      match current
        case None => []
        case Some(c) => c + (if pageNum < |pages| then Flatten(lists[pageNum + 1..]) else [])
    }

    function PageAt(k: nat): seq<Tuple>
      requires |lists| == |pages|
    {
      if k < |pages| then lists[k] else []
    }

    /** The iterator over `f`'s pages `0 .. f.NumPages() - 1`, fetched through the buffer pool (`fetch`). */
    constructor(f: HeapFile, fetch: PageId -> HeapPage)
      requires f.Valid()
      ensures Valid() && !status && Remaining() == []
      ensures |pages| == f.NumPages() && forall k :: 0 <= k < |pages| ==> pages[k] == fetch(PageId(f.tableId, k))
    {
      var n := f.NumPages();
      pages := seq(n, k => fetch(PageId(f.tableId, k)));
      lists := seq(n, k => PageTuples(fetch(PageId(f.tableId, k))));
      pageNum := 0;
      current := None;
      status := false;
    }

    /**
     * Opening starts over at page 0: the iterator will yield every tuple of
     * the file, page by page in slot order.
     */
    method Open()
      requires Valid()
      modifies this
      ensures Valid() && status && pageNum == 0
      ensures Remaining() == FileTuples(pages)
    {
      FlattenPageTuples(lists, pages);
      status := true;
      pageNum := 0;
      current := Some(PageAt(0));
    }

    /**
     * Whether a tuple remains.  Moving to the next page when the current one
     * is used up does not change what remains to be yielded.
     */
    method HasNext() returns (b: bool)
      requires Valid()
      modifies this
      ensures Valid() && status == old(status)
      ensures Remaining() == old(Remaining())
      ensures b <==> Remaining() != []
      ensures b ==> current.Some? && current.value != []
    {
      if !status {
        return false;
      }
      if current.value != [] {
        return true;
      }
      while pageNum < |pages|
        invariant Valid() && status
        invariant current == Some([])
        invariant Remaining() == old(Remaining())
        decreases |pages| - pageNum
      {
        pageNum := pageNum + 1;
        if pageNum >= |pages| {
          break;
        }
        current := Some(lists[pageNum]);
        if current.value != [] {
          return true;
        }
      }
      return false;
    }

    /** The next tuple, or NoSuchElementException when none remains. */
    method Next() returns (r: Result<Tuple>)
      requires Valid()
      modifies this
      ensures Valid() && status == old(status)
      ensures old(Remaining()) == [] ==> r == Err(NoSuchElement) && Remaining() == []
      ensures old(Remaining()) != [] ==> r == Ok(old(Remaining())[0]) && Remaining() == old(Remaining())[1..]
    {
      var b := HasNext();
      if !b {
        return Err(NoSuchElement);
      }
      var c := current.value;
      current := Some(c[1..]);
      return Ok(c[0]);
    }

    /** Rewinding is opening again. */
    method Rewind()
      requires Valid()
      modifies this
      ensures Valid() && status && pageNum == 0
      ensures Remaining() == FileTuples(pages)
    {
      Open();
    }

    /** Closing drops the tuple iterator: nothing remains until the next open. */
    method Close()
      requires Valid()
      modifies this
      ensures Valid() && !status && pageNum == 0 && current == None
      ensures Remaining() == []
    {
      status := false;
      pageNum := 0;
      current := None;
    }
  }

  /**
   * The offset of a page is computed in 32-bit arithmetic on read but in
   * 64-bit arithmetic on write: a page written at offset 2^31 or beyond is
   * refused when read back.
   */
  lemma Int32ReadLosesPage(file: seq<byte>, data: seq<byte>)
    requires |data| == 4096
    ensures WritePageBytes(file, 524288, data, 4096).Ok?
    ensures ReadPageBytesInt32(WritePageBytes(file, 524288, data, 4096).value, 524288, 4096) == Err(IllegalArgument)
    ensures ReadPageBytes(WritePageBytes(file, 524288, data, 4096).value, 524288, 4096) == Ok(data)
  {
    ReadAfterWrite(file, 524288, data, 4096);
    assert Wrap32(524288 * 4096) == -0x8000_0000;
  }

  /**
   * The 32-bit offset also wraps past 2^32 back onto the start of the file:
   * page 1048576 of 4096-byte pages is written at offset 2^32, but reading
   * it back reads page 0, which that write left as it was.
   */
  lemma Int32ReadAliasesPageZero(file: seq<byte>, data: seq<byte>)
    requires |data| == 4096
    ensures WritePageBytes(file, 1048576, data, 4096).Ok?
    ensures ReadPageBytesInt32(WritePageBytes(file, 1048576, data, 4096).value, 1048576, 4096) == ReadPageBytes(file, 0, 4096)
    ensures ReadPageBytes(WritePageBytes(file, 1048576, data, 4096).value, 1048576, 4096) == Ok(data)
  {
    ReadAfterWrite(file, 1048576, data, 4096);
    WriteLeavesOtherPages(file, 1048576, 0, data, 4096);
    var w := WritePageBytes(file, 1048576, data, 4096).value;
    assert Wrap32(1048576 * 4096) == 0 == 0 * 4096;
    assert ReadPageBytesInt32(w, 1048576, 4096) == ReadPageBytes(w, 0, 4096);
  }
}
