/**
 * The buffer pool: a cache of pages keyed by page id, a FIFO list of the
 * pages it loaded (the eviction order), and the set of pages each
 * transaction touched.  Locking is delegated to a `LockManager`.  The
 * catalog's files are byte images keyed by table id, and the write-ahead
 * log together with the page writes to the files is recorded as a sequence
 * of events, so that the order of logging, forcing and writing is part of
 * the state.
 */
module Buffering {
  import opened Common
  import Storage
  import Locking

  /** A cached page: its id, its byte image, the transaction that dirtied it, and its before-image. */
  datatype Page = Page(pid: PageId, data: seq<byte>, dirtier: Option<TransactionId>, beforeImage: seq<byte>)

  /** The page `getBeforeImage` returns: built from the before-image bytes, clean, its before-image those bytes. */
  function BeforeImagePage(p: Page): (r: Page)
    ensures r.pid == p.pid && r.data == p.beforeImage && r.dirtier.None? && r.beforeImage == r.data
  {
    Page(p.pid, p.beforeImage, None, p.beforeImage)
  }

  /** `setBeforeImage`: the current contents become the before-image. */
  function WithBeforeImageReset(p: Page): (r: Page)
    ensures r.pid == p.pid && r.data == p.data && r.dirtier == p.dirtier && r.beforeImage == p.data
  {
    p.(beforeImage := p.data)
  }

  /** Aborting right after a commit keeps the committed contents: only the dirty mark goes. */
  lemma AbortAfterCommit(p: Page)
    ensures BeforeImagePage(WithBeforeImageReset(p)) == WithBeforeImageReset(p).(dirtier := None)
    ensures BeforeImagePage(WithBeforeImageReset(p)).data == p.data
  {
  }

  /** Aborting twice is aborting once, and a clean page equal to its before-image is left as it is. */
  lemma AbortIdempotent(p: Page)
    ensures BeforeImagePage(BeforeImagePage(p)) == BeforeImagePage(p)
    ensures p.dirtier.None? && p.data == p.beforeImage ==> BeforeImagePage(p) == p
  {
  }

  /** A write-ahead-log record, a log force, or a page write to a table's file. */
  datatype Event =
    | LogWrite(tid: TransactionId, before: seq<byte>, after: seq<byte>)
    | LogForce
    | PageWrite(pid: PageId, data: seq<byte>)

  /**
   * Write-ahead discipline: every page write comes right after a force of
   * the log, which comes right after a log record whose after-image is the
   * data written.
   */
  ghost predicate WriteAhead(events: seq<Event>) {
    forall i | 0 <= i < |events| && events[i].PageWrite? ::
      2 <= i && events[i - 1] == LogForce &&
      events[i - 2].LogWrite? && events[i - 2].after == events[i].data
  }

  /** The events of flushing one dirty page. */
  function FlushEvents(dirtier: TransactionId, p: Page): (r: seq<Event>)
    ensures |r| == 3 && r[1] == LogForce && r[2] == PageWrite(p.pid, p.data)
    ensures r[0] == LogWrite(dirtier, p.beforeImage, p.data)
  {
    [LogWrite(dirtier, p.beforeImage, p.data), LogForce, PageWrite(p.pid, p.data)]
  }

  /** The log records of committing the pages of `order`, one record and one force per page. */
  function CommitLog(tid: TransactionId, pages: map<PageId, Page>, order: seq<PageId>): (r: seq<Event>)
    requires forall i | 0 <= i < |order| :: order[i] in pages
    ensures |r| == 2 * |order|
    ensures forall i | 0 <= i < |order| ::
              r[2 * i] == LogWrite(tid, pages[order[i]].beforeImage, pages[order[i]].data) && r[2 * i + 1] == LogForce
  {
    if order == [] then []
    else
      var last := order[|order| - 1];
      CommitLog(tid, pages, order[..|order| - 1]) + [LogWrite(tid, pages[last].beforeImage, pages[last].data), LogForce]
  }

  /** One more listed page adds its two records at the end of the commit log. */
  lemma CommitLogStep(tid: TransactionId, pages: map<PageId, Page>, order: seq<PageId>, i: nat)
    requires i < |order| && forall j | 0 <= j < |order| :: order[j] in pages
    ensures CommitLog(tid, pages, order[..i + 1]) ==
            CommitLog(tid, pages, order[..i]) + [LogWrite(tid, pages[order[i]].beforeImage, pages[order[i]].data), LogForce]
  {
    assert order[..i + 1][..i] == order[..i];
  }

  /** Appending events that keep the discipline on their own keeps it for the whole log. */
  lemma {:induction false} WriteAheadAppend(e: seq<Event>, f: seq<Event>)
    requires WriteAhead(e) && WriteAhead(f)
    ensures WriteAhead(e + f)
  {
    var g := e + f;
    forall i | 0 <= i < |g| && g[i].PageWrite?
      ensures 2 <= i && g[i - 1] == LogForce && g[i - 2].LogWrite? && g[i - 2].after == g[i].data
    {
      if i < |e| {
        assert e[i].PageWrite?;
      } else {
        var j := i - |e|;
        assert f[j].PageWrite?;
        assert g[i - 1] == f[j - 1] && g[i - 2] == f[j - 2];
      }
    }
  }

  /** A commit log contains no page write, so it keeps the discipline. */
  lemma {:induction false} CommitLogWriteAhead(tid: TransactionId, pages: map<PageId, Page>, order: seq<PageId>)
    requires forall i | 0 <= i < |order| :: order[i] in pages
    ensures forall i | 0 <= i < |CommitLog(tid, pages, order)| :: !CommitLog(tid, pages, order)[i].PageWrite?
    ensures WriteAhead(CommitLog(tid, pages, order))
  {
    var r := CommitLog(tid, pages, order);
    forall i | 0 <= i < |r|
      ensures !r[i].PageWrite?
    {
      var k := i / 2;
      if i % 2 == 0 {
        assert r[2 * k].LogWrite?;
      } else {
        assert r[2 * k + 1] == LogForce;
      }
    }
  }

  /** Flushing a page writes it only after logging its after-image and forcing the log. */
  lemma {:induction false} FlushWriteAhead(e: seq<Event>, dirtier: TransactionId, p: Page)
    requires WriteAhead(e)
    ensures WriteAhead(e + FlushEvents(dirtier, p))
  {
    var f := FlushEvents(dirtier, p);
    forall i | 0 <= i < |f| && f[i].PageWrite?
      ensures 2 <= i && f[i - 1] == LogForce && f[i - 2].LogWrite? && f[i - 2].after == f[i].data
    {
    }
    WriteAheadAppend(e, f);
  }

  /** What flushing leaves behind: its outcome, the cache, the files, and the events it emitted. */
  datatype Flushed = Flushed(result: Result<()>, pages: map<PageId, Page>, files: map<int, seq<byte>>, log: seq<Event>)

  /**
   * `flushPage` on values: an uncached page is an IOException; a dirty page
   * of a table in the catalog is logged, the log forced, and the page
   * written; if the write fails with an IOException the log records stay
   * but the page stays dirty, otherwise it is marked clean.
   */
  function FlushStep(pages: map<PageId, Page>, files: map<int, seq<byte>>, pageSize: nat, pid: PageId): (r: Flushed)
    ensures r.pages.Keys == pages.Keys && r.files.Keys == files.Keys
    ensures forall q | q in r.pages && q != pid :: r.pages[q] == pages[q]
    ensures forall t | t in r.files && t != pid.tableId :: r.files[t] == files[t]
    ensures pid in r.pages ==> r.pages[pid] == pages[pid] || r.pages[pid] == pages[pid].(dirtier := None)
    ensures r.result.Err? ==> r.result.error == IoError && r.pages == pages && r.files == files
    ensures r.result.Ok? ==> pid in pages && (r.pages[pid].dirtier.None? || pid.tableId !in files)
    ensures pid in pages && pages[pid].dirtier.Some? && pid.tableId in files ==>
              var written := Storage.WritePageBytes(files[pid.tableId], pid.pageNumber, pages[pid].data, pageSize).Ok?;
              var events := FlushEvents(pages[pid].dirtier.value, pages[pid]);
              && (r.result.Ok? <==> written)
              && r.log == if written then events else events[..2]
    ensures !(pid in pages && pages[pid].dirtier.Some? && pid.tableId in files) ==> r.log == [] && r.pages == pages && r.files == files
  {
    if pid !in pages then Flushed(Err(IoError), pages, files, [])
    else
      var p := pages[pid];
      if p.dirtier.None? || pid.tableId !in files then Flushed(Ok(()), pages, files, [])
      else
        var logged := [LogWrite(p.dirtier.value, p.beforeImage, p.data), LogForce];
        var w := Storage.WritePageBytes(files[pid.tableId], pid.pageNumber, p.data, pageSize);
        if w.Err? then Flushed(Err(IoError), pages, files, logged)
        else
          assert logged + [PageWrite(p.pid, p.data)] == FlushEvents(p.dirtier.value, p);
          Flushed(Ok(()), pages[pid := p.(dirtier := None)], files[pid.tableId := w.value], logged + [PageWrite(p.pid, p.data)])
  }

  /** A flush keeps the write-ahead discipline, whether or not its write succeeds. */
  lemma FlushStepWriteAhead(e: seq<Event>, pages: map<PageId, Page>, files: map<int, seq<byte>>, pageSize: nat, pid: PageId)
    requires WriteAhead(e)
    ensures WriteAhead(e + FlushStep(pages, files, pageSize, pid).log)
  {
    var r := FlushStep(pages, files, pageSize, pid);
    if pid in pages && pages[pid].dirtier.Some? && pid.tableId in files {
      if r.result.Ok? {
        FlushWriteAhead(e, pages[pid].dirtier.value, pages[pid]);
      } else {
        assert r.log == FlushEvents(pages[pid].dirtier.value, pages[pid])[..2];
        WriteAheadAppend(e, r.log);
      }
    } else {
      assert e + r.log == e;
    }
  }

  /** After a successful flush of a dirty page, its file holds the page's bytes at its page number. */
  lemma FlushReachesFile(pages: map<PageId, Page>, files: map<int, seq<byte>>, pageSize: nat, pid: PageId)
    requires pid in pages && |pages[pid].data| == pageSize
    requires pages[pid].dirtier.Some? && pid.tableId in files
    ensures var r := FlushStep(pages, files, pageSize, pid);
      r.result.Ok? ==> Storage.ReadPageBytes(r.files[pid.tableId], pid.pageNumber, pageSize) == Ok(pages[pid].data)
  {
    var r := FlushStep(pages, files, pageSize, pid);
    if r.result.Ok? && pageSize > 0 {
      assert pid.pageNumber >= 0;
      Storage.ReadAfterWrite(files[pid.tableId], pid.pageNumber, pages[pid].data, pageSize);
    }
  }

  /**
   * Flushing the pages of `order` one after another, stopping at the first
   * failure: the events are those of each flush in turn.
   */
  function FlushSeq(pages: map<PageId, Page>, files: map<int, seq<byte>>, pageSize: nat, order: seq<PageId>): (r: Flushed)
    ensures r.pages.Keys == pages.Keys && r.files.Keys == files.Keys
    ensures r.result.Err? ==> r.result.error == IoError
  {
    if order == [] then Flushed(Ok(()), pages, files, [])
    else
      var s := FlushSeq(pages, files, pageSize, order[..|order| - 1]);
      if s.result.Err? then s
      else
        var t := FlushStep(s.pages, s.files, pageSize, order[|order| - 1]);
        Flushed(t.result, t.pages, t.files, s.log + t.log)
  }

  /** A run of flushes only cleans pages, and touches no page it does not list. */
  lemma {:induction false} FlushSeqOnlyCleans(pages: map<PageId, Page>, files: map<int, seq<byte>>, pageSize: nat, order: seq<PageId>)
    ensures var r := FlushSeq(pages, files, pageSize, order);
      && (forall q | q in r.pages :: r.pages[q] == pages[q] || r.pages[q] == pages[q].(dirtier := None))
      && (forall q | q in r.pages && q !in order :: r.pages[q] == pages[q])
  {
    if order != [] {
      var n := |order| - 1;
      var s := FlushSeq(pages, files, pageSize, order[..n]);
      FlushSeqOnlyCleans(pages, files, pageSize, order[..n]);
      if s.result.Ok? {
        assert forall q | q in order[..n] :: q in order;
      }
    }
  }

  /**
   * When a run of flushes succeeds, every listed page was cached and is now
   * clean or belongs to no table in the catalog.
   */
  lemma {:induction false} FlushSeqCleans(pages: map<PageId, Page>, files: map<int, seq<byte>>, pageSize: nat, order: seq<PageId>)
    ensures var r := FlushSeq(pages, files, pageSize, order);
      r.result.Ok? ==> forall i | 0 <= i < |order| ::
        order[i] in pages && (r.pages[order[i]].dirtier.None? || order[i].tableId !in files)
  {
    if order != [] {
      var n := |order| - 1;
      var s := FlushSeq(pages, files, pageSize, order[..n]);
      FlushSeqCleans(pages, files, pageSize, order[..n]);
      if s.result.Ok? {
        assert forall i | 0 <= i < n :: order[..n][i] == order[i];
      }
    }
  }

  /** A run of flushes keeps the write-ahead discipline. */
  lemma {:induction false} FlushSeqWriteAhead(e: seq<Event>, pages: map<PageId, Page>, files: map<int, seq<byte>>, pageSize: nat, order: seq<PageId>)
    requires WriteAhead(e)
    ensures WriteAhead(e + FlushSeq(pages, files, pageSize, order).log)
  {
    if order != [] {
      var s := FlushSeq(pages, files, pageSize, order[..|order| - 1]);
      FlushSeqWriteAhead(e, pages, files, pageSize, order[..|order| - 1]);
      if s.result.Ok? {
        var t := FlushStep(s.pages, s.files, pageSize, order[|order| - 1]);
        FlushStepWriteAhead(e + s.log, s.pages, s.files, pageSize, order[|order| - 1]);
        assert e + (s.log + t.log) == (e + s.log) + t.log;
      }
    }
  }

  lemma AppendAssoc(a: seq<Event>, b: seq<Event>, c: seq<Event>)
    ensures (a + b) + c == a + (b + c)
  {
  }

  /** A run that has not failed yet goes on with the next listed page. */
  lemma FlushSeqNext(pages: map<PageId, Page>, files: map<int, seq<byte>>, pageSize: nat, order: seq<PageId>, i: nat)
    requires i < |order| && FlushSeq(pages, files, pageSize, order[..i]).result.Ok?
    ensures var s := FlushSeq(pages, files, pageSize, order[..i]);
      var t := FlushStep(s.pages, s.files, pageSize, order[i]);
      FlushSeq(pages, files, pageSize, order[..i + 1]) == Flushed(t.result, t.pages, t.files, s.log + t.log)
  {
    assert order[..i + 1][..i] == order[..i];
  }

  /** Once a flush in the run has failed, the pages listed after it change nothing. */
  lemma {:induction false} FlushSeqStops(pages: map<PageId, Page>, files: map<int, seq<byte>>, pageSize: nat, order: seq<PageId>, k: nat)
    requires k <= |order| && FlushSeq(pages, files, pageSize, order[..k]).result.Err?
    ensures FlushSeq(pages, files, pageSize, order) == FlushSeq(pages, files, pageSize, order[..k])
  {
    if k < |order| {
      var n := |order| - 1;
      assert order[..n][..k] == order[..k];
      FlushSeqStops(pages, files, pageSize, order[..n], k);
    } else {
      assert order[..k] == order;
    }
  }

  /** The position of the first `x` in `s`, or `|s|` when there is none. */
  function IndexOf(s: seq<PageId>, x: PageId): (i: nat)
    ensures i <= |s|
    ensures i < |s| ==> s[i] == x
    ensures forall j | 0 <= j < i :: s[j] != x
  {
    if s == [] then 0
    else if s[0] == x then 0
    else 1 + IndexOf(s[1..], x)
  }

  /** `s` with its first `x` removed, as removing the first matching list entry does. */
  function RemoveFirst(s: seq<PageId>, x: PageId): (r: seq<PageId>)
    ensures x in s ==> |r| == |s| - 1
    ensures x !in s ==> r == s
  {
    var i := IndexOf(s, x);
    if i < |s| then s[..i] + s[i + 1..] else s
  }

  /** The list scan of `discardPage`: walk the list and drop the first entry equal to `x`. */
  method RemoveFirstLoop(s: seq<PageId>, x: PageId) returns (r: seq<PageId>)
    ensures r == RemoveFirst(s, x)
  {
    r := s;
    var i := 0;
    while i < |r|
      invariant 0 <= i <= |r| && r == s
      invariant forall j | 0 <= j < i :: r[j] != x
    {
      if r[i] == x {
        r := r[..i] + r[i + 1..];
        return;
      }
      i := i + 1;
    }
  }

  /** In a list without repeats, removing the first `x` removes `x` and nothing else, and keeps the order. */
  lemma {:induction false} RemoveFirstDistinct(s: seq<PageId>, x: PageId)
    requires Distinct(s)
    ensures Distinct(RemoveFirst(s, x))
    ensures forall y :: y in RemoveFirst(s, x) <==> y in s && y != x
    ensures |s| > 0 && s[0] == x ==> RemoveFirst(s, x) == s[1..]
  {
    var i := IndexOf(s, x);
    if i < |s| {
      var r := s[..i] + s[i + 1..];
      forall a, b | 0 <= a < b < |r| ensures r[a] != r[b] {
        var a' := if a < i then a else a + 1;
        var b' := if b < i then b else b + 1;
        assert r[a] == s[a'] && r[b] == s[b'];
      }
      forall y ensures y in r <==> y in s && y != x {
        if y in r {
          var k :| 0 <= k < |r| && r[k] == y;
          var k' := if k < i then k else k + 1;
          assert s[k'] == y && k' != i;
        }
        if y in s && y != x {
          var k :| 0 <= k < |s| && s[k] == y;
          assert k != i;
          if k < i { assert r[k] == y; } else { assert r[k - 1] == y; }
        }
      }
    }
  }

  /** One transaction's touched set loses pid; the entry is dropped when the set is left empty. */
  function ScrubOne(touched: map<TransactionId, set<PageId>>, t: TransactionId, pid: PageId): (r: map<TransactionId, set<PageId>>)
    requires t in touched
    ensures r - {t} == touched - {t}
    ensures t in r <==> touched[t] - {pid} != {}
    ensures t in r ==> r[t] == touched[t] - {pid}
  {
    var held := touched[t] - {pid};
    if held == {} then touched - {t} else touched[t := held]
  }

  /** `touched` with the sets of the transactions in `D` scrubbed of `pid`. */
  function ScrubbedPart(touched: map<TransactionId, set<PageId>>, pid: PageId, D: set<TransactionId>): map<TransactionId, set<PageId>> {
    map t | t in touched && (t in D ==> touched[t] - {pid} != {}) :: if t in D then touched[t] - {pid} else touched[t]
  }

  lemma ScrubbedPartNone(touched: map<TransactionId, set<PageId>>, pid: PageId)
    ensures ScrubbedPart(touched, pid, {}) == touched
  {
  }

  /** Scrubbing one more transaction's set is `ScrubOne` on its entry. */
  lemma ScrubbedPartStep(touched: map<TransactionId, set<PageId>>, pid: PageId, D: set<TransactionId>, t: TransactionId)
    requires t in touched && t !in D
    ensures t in ScrubbedPart(touched, pid, D)
    ensures ScrubbedPart(touched, pid, D + {t}) == ScrubOne(ScrubbedPart(touched, pid, D), t, pid)
  {
    var n := ScrubbedPart(touched, pid, D + {t});
    var e := ScrubOne(ScrubbedPart(touched, pid, D), t, pid);
    assert n.Keys == e.Keys;
  }

  /**
   * The loop over the transactions of the touched-page map: each loses pid
   * from its set, and a set left empty is dropped.
   */
  method ScrubTouched(touched: map<TransactionId, set<PageId>>, pid: PageId) returns (r: map<TransactionId, set<PageId>>)
    ensures forall t :: t in r <==> t in touched && touched[t] - {pid} != {}
    ensures forall t | t in r :: r[t] == touched[t] - {pid}
  {
    r := touched;
    var rest := touched.Keys;
    ScrubbedPartNone(touched, pid);
    assert touched.Keys - rest == {};
    while rest != {}
      invariant rest <= touched.Keys
      invariant r == ScrubbedPart(touched, pid, touched.Keys - rest)
      decreases |rest|
    {
      var t :| t in rest;
      ScrubbedPartStep(touched, pid, touched.Keys - rest, t);
      r := ScrubOne(r, t, pid);
      assert touched.Keys - (rest - {t}) == (touched.Keys - rest) + {t};
      rest := rest - {t};
    }
  }

  /**
   * The commit loop over the listed pages: each gets a log record of its
   * before- and after-image and a log force, then its before-image reset.
   */
  method CommitLoop(tid: TransactionId, pages: map<PageId, Page>, order: seq<PageId>)
    returns (r: map<PageId, Page>, log: seq<Event>)
    requires Distinct(order) && forall i | 0 <= i < |order| :: order[i] in pages
    ensures r.Keys == pages.Keys
    ensures forall q | q in r :: r[q] == if q in order then WithBeforeImageReset(pages[q]) else pages[q]
    ensures log == CommitLog(tid, pages, order)
  {
    r, log := pages, [];
    ghost var D: set<PageId> := {};
    for i := 0 to |order|
      invariant r.Keys == pages.Keys
      invariant forall q | q in r :: r[q] == if q in D then WithBeforeImageReset(pages[q]) else pages[q]
      invariant forall j | 0 <= j < i :: order[j] in D
      invariant forall q | q in D :: q in order
      invariant forall j | i <= j < |order| :: order[j] !in D
      invariant log == CommitLog(tid, pages, order[..i])
    {
      var p := order[i];
      var page := r[p];
      log := log + [LogWrite(tid, page.beforeImage, page.data), LogForce];
      r := r[p := WithBeforeImageReset(page)];
      CommitLogStep(tid, pages, order, i);
      D := D + {p};
    }
    assert order[..|order|] == order;
  }

  /** The abort loop over the listed pages: each one's entry is replaced by its before-image. */
  method AbortLoop(pages: map<PageId, Page>, order: seq<PageId>) returns (r: map<PageId, Page>)
    requires Distinct(order) && forall i | 0 <= i < |order| :: order[i] in pages
    ensures r.Keys == pages.Keys
    ensures forall q | q in r :: r[q] == if q in order then BeforeImagePage(pages[q]) else pages[q]
  {
    r := pages;
    ghost var D: set<PageId> := {};
    for i := 0 to |order|
      invariant r.Keys == pages.Keys
      invariant forall q | q in r :: r[q] == if q in D then BeforeImagePage(pages[q]) else pages[q]
      invariant forall j | 0 <= j < i :: order[j] in D
      invariant forall q | q in D :: q in order
      invariant forall j | i <= j < |order| :: order[j] !in D
    {
      var p := order[i];
      r := r[p := BeforeImagePage(r[p])];
      D := D + {p};
    }
  }

  /** The pages the transactions of `ts` touched, all together. */
  function TouchedByAll(touched: map<TransactionId, set<PageId>>, ts: seq<TransactionId>): (r: set<PageId>)
    ensures forall i | 0 <= i < |ts| && ts[i] in touched :: touched[ts[i]] <= r
  {
    if ts == [] then {}
    else
      var n := |ts| - 1;
      assert forall i | 0 <= i < n :: ts[..n][i] == ts[i];
      TouchedByAll(touched, ts[..n]) + (if ts[n] in touched then touched[ts[n]] else {})
  }

  /** A page is touched by the transactions of `ts` only if one of them touched it. */
  lemma {:induction false} TouchedByAllOnly(touched: map<TransactionId, set<PageId>>, ts: seq<TransactionId>, q: PageId)
    requires q in TouchedByAll(touched, ts)
    ensures exists i :: 0 <= i < |ts| && ts[i] in touched && q in touched[ts[i]]
  {
    var n := |ts| - 1;
    if q !in (if ts[n] in touched then touched[ts[n]] else {}) {
      TouchedByAllOnly(touched, ts[..n], q);
      var i :| 0 <= i < n && ts[..n][i] in touched && q in touched[ts[..n][i]];
      assert ts[..n][i] == ts[i];
    }
  }

  /**
   * Aborting one more transaction, whose touched pages are `P`, after those
   * whose touched pages make up `done`: since aborting a page twice is
   * aborting it once, every page of either set is its before-image.
   */
  lemma AbortedStep(start: map<PageId, Page>, prev: map<PageId, Page>, cur: map<PageId, Page>, done: set<PageId>, P: set<PageId>)
    requires prev.Keys == start.Keys && cur.Keys == prev.Keys
    requires forall q | q in prev :: prev[q] == if q in done then BeforeImagePage(start[q]) else start[q]
    requires forall q | q in cur :: cur[q] == if q in P then BeforeImagePage(prev[q]) else prev[q]
    ensures forall q | q in cur :: cur[q] == if q in done + P then BeforeImagePage(start[q]) else start[q]
  {
    forall q | q in cur
      ensures cur[q] == if q in done + P then BeforeImagePage(start[q]) else start[q]
    {
      AbortIdempotent(start[q]);
    }
  }

  /** One more aborted transaction adds its touched pages and completes its locks last. */
  lemma AbortedOneMore(touched: map<TransactionId, set<PageId>>, s: Locking.LockTables, aborted: seq<TransactionId>, t: TransactionId)
    requires t in touched
    ensures TouchedByAll(touched, aborted + [t]) == TouchedByAll(touched, aborted) + touched[t]
    ensures Locking.CompletedAll(s, aborted + [t]) == Locking.Completed(Locking.CompletedAll(s, aborted), t)
  {
    assert (aborted + [t])[..|aborted|] == aborted;
  }

  /**
   * A page an insert or delete handed back.  `shared` says whether it is
   * the very object the cache holds (it came through `getPage`), so that
   * changing it changed the cache; a page the heap file created and
   * appended is not shared.
   */
  datatype Changed = Changed(page: Page, shared: bool)

  /**
   * The cache after an insert or delete has handed back the pages it
   * changed (`modified`, in order): each is marked dirtied by tid.  One that
   * tid holds no lock on is put into the cache; one it does hold a lock on
   * is not put, so the cache shows it only when it is the cached object
   * itself, changed in place, and otherwise keeps what it held.
   */
  function Cached(pages: map<PageId, Page>, locks: Locking.LockTables, tid: TransactionId, modified: seq<Changed>): (r: map<PageId, Page>)
    ensures forall p | p in pages :: p in r
    ensures (forall p | p in pages :: pages[p].pid == p) ==> forall p | p in r :: r[p].pid == p
  {
    if modified == [] then pages
    else
      var prev := Cached(pages, locks, tid, modified[..|modified| - 1]);
      var c := modified[|modified| - 1];
      var q := c.page.(dirtier := Some(tid));
      if !Locking.Holds(locks, tid, q.pid) || (c.shared && q.pid in prev) then prev[q.pid := q] else prev
  }

  /**
   * What caching the changed pages can do to an entry: a page newly cached
   * is one tid holds no lock on, a changed entry is dirtied by tid, an
   * entry no changed page names is left alone, and so is an entry tid
   * holds a lock on when no page handed back for it is the cached object.
   */
  lemma {:induction false} CachedChanges(pages: map<PageId, Page>, locks: Locking.LockTables, tid: TransactionId, modified: seq<Changed>)
    ensures var r := Cached(pages, locks, tid, modified);
      && (forall p | p in r && p !in pages :: !Locking.Holds(locks, tid, p))
      && (forall p | p in r :: (p in pages && r[p] == pages[p]) || r[p].dirtier == Some(tid))
      && (forall p | p in pages && (forall i | 0 <= i < |modified| :: modified[i].page.pid != p) :: r[p] == pages[p])
      && (forall p | p in pages && Locking.Holds(locks, tid, p) &&
                     (forall i | 0 <= i < |modified| && modified[i].page.pid == p :: !modified[i].shared) :: r[p] == pages[p])
  {
    if modified != [] {
      var n := |modified| - 1;
      CachedChanges(pages, locks, tid, modified[..n]);
      assert forall i | 0 <= i < n :: modified[..n][i] == modified[i];
    }
  }

  /**
   * The last page handed back for a page id is the one cached for it,
   * marked dirtied by tid, when tid holds no lock on it or it is the cached
   * object itself.
   */
  lemma {:induction false} CachedLastWins(pages: map<PageId, Page>, locks: Locking.LockTables, tid: TransactionId, modified: seq<Changed>, i: nat)
    requires i < |modified| && forall j | i < j < |modified| :: modified[j].page.pid != modified[i].page.pid
    requires !Locking.Holds(locks, tid, modified[i].page.pid) || (modified[i].shared && modified[i].page.pid in pages)
    ensures modified[i].page.pid in Cached(pages, locks, tid, modified)
    ensures Cached(pages, locks, tid, modified)[modified[i].page.pid] == modified[i].page.(dirtier := Some(tid))
  {
    var n := |modified| - 1;
    var prev := Cached(pages, locks, tid, modified[..n]);
    var c := modified[n];
    var q := c.page.(dirtier := Some(tid));
    var r := Cached(pages, locks, tid, modified);
    assert r == if !Locking.Holds(locks, tid, q.pid) || (c.shared && q.pid in prev) then prev[q.pid := q] else prev;
    var pid := modified[i].page.pid;
    if i < n {
      assert modified[..n][i] == modified[i];
      CachedLastWins(pages, locks, tid, modified[..n], i);
      assert q.pid != pid;
      assert r[pid] == prev[pid];
    } else {
      assert pid in pages ==> pid in prev;
      assert r == prev[pid := q];
    }
  }

  /**
   * An appended page that tid already holds a lock on does not reach the
   * cache: a page cached for that id before the insert (read, say, while
   * scanning the table when it was shorter) stays there as it was.
   */
  lemma AppendedUnderLockLeavesCache(pages: map<PageId, Page>, locks: Locking.LockTables, tid: TransactionId, appended: Page)
    requires Locking.Holds(locks, tid, appended.pid)
    ensures Cached(pages, locks, tid, [Changed(appended, false)]) == pages
  {
    assert [Changed(appended, false)][..0] == [];
  }

  /** Every page of a delete comes through `getPage`, so each is the cached object. */
  function AllShared(modified: seq<Page>): (r: seq<Changed>)
    ensures |r| == |modified| && forall i | 0 <= i < |r| :: r[i] == Changed(modified[i], true)
  {
    seq(|modified|, i requires 0 <= i < |modified| => Changed(modified[i], true))
  }

  /**
   * The parts of the pool `getPage` changes besides the files and the log:
   * the cached pages, the FIFO list, the touched sets and the lock tables.
   */
  datatype Stage = Stage(pages: map<PageId, Page>, pagesList: seq<PageId>,
                         touched: map<TransactionId, set<PageId>>, locks: Locking.LockTables)

  /** A subset is no larger than its superset. */
  lemma {:induction false} SubsetCard<X>(a: set<X>, b: set<X>)
    requires a <= b
    ensures |a| <= |b|
    decreases b
  {
    if a != {} {
      var x :| x in a;
      SubsetCard(a - {x}, b - {x});
    }
  }

  /** A cache that gains at most one page grows by at most one entry. */
  lemma GainsAtMostOne(before: map<PageId, Page>, after: map<PageId, Page>, pid: PageId)
    requires after.Keys <= before.Keys + {pid}
    ensures |after| <= |before| + 1
  {
    SubsetCard(after.Keys, before.Keys + {pid});
    assert |after.Keys| == |after| && |before.Keys| == |before|;
  }

  class BufferPool {
    /** The most pages the pool is meant to hold. */
    const numPages: int
    const pageSize: nat
    /** The deadlock policy: abort the requester (true) or every other transaction (false). */
    const selfAbort: bool
    const lockManager: Locking.LockManager
    /** The cached pages. */
    var pages: map<PageId, Page>
    /** The ids of the pages `getPage` loaded, oldest first. */
    var pagesList: seq<PageId>
    /** The pages each transaction fetched. */
    var transactionSet: map<TransactionId, set<PageId>>
    /** The catalog's files: the byte image of each table's file. */
    var files: map<int, seq<byte>>
    /** The log records, log forces and page writes, in the order they happened. */
    var events: seq<Event>

    ghost predicate Keyed()
      reads this
    {
      forall p | p in pages :: pages[p].pid == p
    }

    ghost predicate TouchedResident()
      reads this
    {
      forall t | t in transactionSet :: transactionSet[t] <= pages.Keys
    }

    ghost predicate ListResident()
      reads this
    {
      Distinct(pagesList) && forall i | 0 <= i < |pagesList| :: pagesList[i] in pages
    }

    /** The pool's current `Stage`. */
    ghost function Snapshot(): Stage
      reads this, lockManager
    {
      Stage(pages, pagesList, transactionSet, lockManager.State())
    }

    ghost predicate Valid()
      reads this, lockManager
    {
      lockManager.Valid() && pageSize > 0 && Keyed() && TouchedResident() && ListResident() && WriteAhead(events)
    }

    constructor(numPages: int, pageSize: nat, selfAbort: bool, files: map<int, seq<byte>>)
      requires pageSize > 0
      ensures Valid() && fresh(lockManager)
      ensures this.numPages == numPages && this.pageSize == pageSize && this.selfAbort == selfAbort
      ensures pages == map[] && pagesList == [] && transactionSet == map[] && this.files == files && events == []
      ensures lockManager.State() == Locking.NoLocks
    {
      this.numPages := numPages;
      this.pageSize := pageSize;
      this.selfAbort := selfAbort;
      this.files := files;
      lockManager := new Locking.LockManager();
      pages := map[];
      pagesList := [];
      transactionSet := map[];
      events := [];
    }

    /** Whether tid holds a lock on pid, as the lock manager says. */
    function HoldsLock(tid: TransactionId, pid: PageId): (b: bool)
      reads lockManager
      ensures b <==> Locking.Holds(lockManager.State(), tid, pid)
    {
      lockManager.HoldsLock(tid, pid)
    }

    /** Releases tid's lock on pid through the lock manager. */
    method ReleasePage(tid: TransactionId, pid: PageId)
      requires Valid()
      modifies lockManager
      ensures Valid()
      ensures lockManager.State() == Locking.Released(old(lockManager.State()), tid, pid)
    {
      Locking.ReleasedKeepsInv(lockManager.State(), tid, pid);
      lockManager.ReleasePage(tid, pid);
    }

    /**
     * Flushing a page, as `FlushStep` says: a page that is not cached is an
     * IOException; a dirty page of a table in the catalog is logged, the
     * log forced, the page written to its file and marked clean (a failed
     * write leaves it dirty, its log records emitted); a clean page is left
     * alone.
     */
    method FlushPage(pid: PageId) returns (r: Result<()>)
      requires Valid()
      modifies this
      ensures Valid()
      ensures pagesList == old(pagesList) && transactionSet == old(transactionSet)
      ensures var f := FlushStep(old(pages), old(files), pageSize, pid);
                r == f.result && pages == f.pages && files == f.files && events == old(events) + f.log
    {
      if pid !in pages {
        return Err(IoError);
      }
      var p := pages[pid];
      if p.dirtier.None? || pid.tableId !in files {
        return Ok(());
      }
      FlushStepWriteAhead(events, pages, files, pageSize, pid);
      ghost var f := FlushStep(pages, files, pageSize, pid);
      events := events + [LogWrite(p.dirtier.value, p.beforeImage, p.data), LogForce];
      var w := Storage.WritePageBytes(files[pid.tableId], pid.pageNumber, p.data, pageSize);
      if w.Err? {
        assert events == old(events) + f.log;
        return Err(IoError);
      }
      events := events + [PageWrite(p.pid, p.data)];
      assert events == old(events) + f.log;
      files := files[pid.tableId := w.value];
      pages := pages[pid := p.(dirtier := None)];
      return Ok(());
    }

    /**
     * Discarding a page: its first entry in the FIFO list and its cache
     * entry go, it leaves every touched set (a set left empty is dropped,
     * as is one that was empty already), and every lock on it is released.
     */
    method DiscardPage(pid: PageId)
      requires Valid()
      modifies this, lockManager
      ensures Valid()
      ensures pagesList == RemoveFirst(old(pagesList), pid) && pid !in pagesList
      ensures pages == old(pages) - {pid}
      ensures forall t :: t in transactionSet <==> t in old(transactionSet) && old(transactionSet[t]) - {pid} != {}
      ensures forall t | t in transactionSet :: transactionSet[t] == old(transactionSet[t]) - {pid}
      ensures files == old(files) && events == old(events)
      ensures forall t :: !HoldsLock(t, pid)
      ensures lockManager.readLocks == old(lockManager.readLocks) - {pid}
      ensures lockManager.writeLocks == old(lockManager.writeLocks) - {pid}
      ensures Locking.TidLocksShrunk(old(lockManager.tidLocks), lockManager.tidLocks, pid)
    {
      RemoveFirstDistinct(pagesList, pid);
      pagesList := RemoveFirstLoop(pagesList, pid);
      if pid in pages {
        pages := pages - {pid};
      }
      transactionSet := ScrubTouched(transactionSet, pid);
      lockManager.ReleaseDiscardPage(pid);
    }

    /**
     * Evicting the oldest loaded page: an empty pool is a DbException, an
     * empty FIFO list an IndexOutOfBoundsException; otherwise the list's
     * head is flushed (an IOException from the flush is ignored, what the
     * flush wrote and logged stays) and discarded: it leaves every touched
     * set and every lock on it is released, while the other pages' locks
     * and touched-set entries stay.
     */
    method EvictPage() returns (r: Result<()>)
      requires Valid()
      modifies this, lockManager
      ensures Valid()
      ensures old(|pages|) == 0 ==> r == Err(DbError) && unchanged(this) && unchanged(lockManager)
      ensures old(|pages|) > 0 && old(pagesList) == [] ==>
                r == Err(IndexOutOfBounds) && unchanged(this) && unchanged(lockManager)
      ensures old(|pages|) > 0 && old(pagesList) != [] ==>
                var head := old(pagesList[0]);
                && r == Ok(())
                && pagesList == old(pagesList[1..])
                && pages.Keys == old(pages.Keys) - {head} && |pages| == old(|pages|) - 1
                && (forall p | p in pages :: pages[p] == old(pages[p]))
                && (forall t :: !HoldsLock(t, head))
                && (forall t :: t in transactionSet <==> t in old(transactionSet) && old(transactionSet[t]) - {head} != {})
                && (forall t | t in transactionSet :: transactionSet[t] == old(transactionSet[t]) - {head})
                && lockManager.readLocks == old(lockManager.readLocks) - {head}
                && lockManager.writeLocks == old(lockManager.writeLocks) - {head}
                && Locking.TidLocksShrunk(old(lockManager.tidLocks), lockManager.tidLocks, head)
                && var f := FlushStep(old(pages), old(files), pageSize, head);
                && files == f.files && events == old(events) + f.log
    {
      if |pages| <= 0 {
        return Err(DbError);
      }
      if pagesList == [] {
        return Err(IndexOutOfBounds);
      }
      var head := pagesList[0];
      assert head in pages;
      var _ := FlushPage(head);
      DiscardPage(head);
      assert |old(pages.Keys) - {head}| == |old(pages.Keys)| - 1;
      return Ok(());
    }

    /**
     * Completing a transaction.  A transaction with no touched-page entry,
     * or an empty one, is left as it is, locks included.  Otherwise, on
     * commit every touched page is logged (before- and after-image), the log
     * forced, and its before-image reset; on abort every touched page's
     * cache entry is replaced by its before-image.  Then all the
     * transaction's locks are released.  The touched-page entry is kept.
     */
    method TransactionComplete(tid: TransactionId, commit: bool) returns (order: seq<PageId>)
      requires Valid()
      modifies this, lockManager
      ensures Valid()
      ensures transactionSet == old(transactionSet) && pagesList == old(pagesList) && files == old(files)
      ensures tid !in old(transactionSet) || old(transactionSet[tid]) == {} ==>
                unchanged(this) && unchanged(lockManager)
      ensures tid in old(transactionSet) && old(transactionSet[tid]) != {} ==>
                var P := old(transactionSet[tid]);
                && Distinct(order) && |order| == |P| && (forall q :: q in order <==> q in P)
                && (forall i | 0 <= i < |order| :: order[i] in old(pages))
                && pages.Keys == old(pages.Keys)
                && (commit ==> forall q | q in pages :: pages[q] == if q in P then WithBeforeImageReset(old(pages[q])) else old(pages[q]))
                && (!commit ==> forall q | q in pages :: pages[q] == if q in P then BeforeImagePage(old(pages[q])) else old(pages[q]))
                && (commit ==> events == old(events) + CommitLog(tid, old(pages), order))
                && (!commit ==> events == old(events))
                && lockManager.State() == Locking.Completed(old(lockManager.State()), tid)
                && (forall q :: !HoldsLock(tid, q))
    {
      order := [];
      if tid !in transactionSet || transactionSet[tid] == {} {
        return;
      }
      order := Enumerate(transactionSet[tid]);
      if commit {
        CommitPages(tid, order);
      } else {
        AbortPages(order);
      }
      lockManager.TransactionComplete(tid);
    }

    /** The commit half of `TransactionComplete`: log and force each listed page, then reset its before-image. */
    method CommitPages(tid: TransactionId, order: seq<PageId>)
      requires Valid() && Distinct(order) && forall i | 0 <= i < |order| :: order[i] in pages
      modifies this
      ensures Valid()
      ensures transactionSet == old(transactionSet) && pagesList == old(pagesList) && files == old(files)
      ensures pages.Keys == old(pages.Keys)
      ensures forall q | q in pages :: pages[q] == if q in order then WithBeforeImageReset(old(pages[q])) else old(pages[q])
      ensures events == old(events) + CommitLog(tid, old(pages), order)
    {
      var committed, log := CommitLoop(tid, pages, order);
      CommitLogWriteAhead(tid, pages, order);
      WriteAheadAppend(events, log);
      events := events + log;
      pages := committed;
    }

    /** The abort half of `TransactionComplete`: each listed page's entry becomes its before-image. */
    method AbortPages(order: seq<PageId>)
      requires Valid() && Distinct(order) && forall i | 0 <= i < |order| :: order[i] in pages
      modifies this
      ensures Valid()
      ensures transactionSet == old(transactionSet) && pagesList == old(pagesList) && files == old(files)
      ensures events == old(events) && pages.Keys == old(pages.Keys)
      ensures forall q | q in pages :: pages[q] == if q in order then BeforeImagePage(old(pages[q])) else old(pages[q])
    {
      pages := AbortLoop(pages, order);
    }

    /** Aborting `t` after the transactions of `aborted`: one more step of the abort-others policy. */
    method AbortOneMore(t: TransactionId, ghost aborted: seq<TransactionId>, ghost start: map<PageId, Page>, ghost startLocks: Locking.LockTables)
      requires Valid() && t in transactionSet && transactionSet[t] != {}
      requires pages.Keys == start.Keys
      requires forall q | q in pages ::
                 pages[q] == if q in TouchedByAll(transactionSet, aborted) then BeforeImagePage(start[q]) else start[q]
      requires lockManager.State() == Locking.CompletedAll(startLocks, aborted)
      modifies this, lockManager
      ensures Valid()
      ensures transactionSet == old(transactionSet) && pagesList == old(pagesList) && files == old(files)
      ensures pages.Keys == old(pages.Keys) && events == old(events)
      ensures forall q | q in pages ::
                pages[q] == if q in TouchedByAll(transactionSet, aborted + [t]) then BeforeImagePage(start[q]) else start[q]
      ensures lockManager.State() == Locking.CompletedAll(startLocks, aborted + [t])
    {
      ghost var done := TouchedByAll(transactionSet, aborted);
      var _ := TransactionComplete(t, false);
      AbortedStep(start, old(pages), pages, done, transactionSet[t]);
      AbortedOneMore(transactionSet, startLocks, aborted, t);
    }

    /**
     * The abort-others policy: every other transaction with a touched-page
     * entry is aborted, one after another (`aborted` lists those whose entry
     * is not empty, in that order).  Each page any of them touched becomes
     * its before-image, their locks are released as the lock manager's
     * `transactionComplete` releases them, and afterwards none of them holds
     * any lock.
     */
    method AbortOthers(tid: TransactionId) returns (ghost aborted: seq<TransactionId>)
      requires Valid()
      modifies this, lockManager
      ensures Valid()
      ensures transactionSet == old(transactionSet) && pagesList == old(pagesList) && files == old(files)
      ensures pages.Keys == old(pages.Keys) && events == old(events)
      ensures Distinct(aborted)
      ensures forall t :: t in aborted <==> t in transactionSet && t != tid && transactionSet[t] != {}
      ensures forall q | q in pages ::
                pages[q] == if q in TouchedByAll(transactionSet, aborted) then BeforeImagePage(old(pages[q])) else old(pages[q])
      ensures lockManager.State() == Locking.CompletedAll(old(lockManager.State()), aborted)
      ensures forall t, q | t in transactionSet && t != tid && transactionSet[t] != {} :: !HoldsLock(t, q)
    {
      aborted := [];
      var rest := transactionSet.Keys;
      while rest != {}
        invariant Valid() && rest <= transactionSet.Keys
        invariant transactionSet == old(transactionSet) && pagesList == old(pagesList) && files == old(files)
        invariant pages.Keys == old(pages.Keys) && events == old(events)
        invariant Distinct(aborted)
        invariant forall t :: t in aborted <==> t in transactionSet && t !in rest && t != tid && transactionSet[t] != {}
        invariant forall q | q in pages ::
                    pages[q] == if q in TouchedByAll(transactionSet, aborted) then BeforeImagePage(old(pages[q])) else old(pages[q])
        invariant lockManager.State() == Locking.CompletedAll(old(lockManager.State()), aborted)
        decreases |rest|
      {
        var t :| t in rest;
        if t != tid && transactionSet[t] != {} {
          AbortOneMore(t, aborted, old(pages), old(lockManager.State()));
          aborted := aborted + [t];
        }
        rest := rest - {t};
      }
      Locking.CompletedAllReleases(old(lockManager.State()), aborted);
    }

    /**
     * The locking step of `getPage` from the pool `s`, with `lock` its
     * result: a lock granted at the first attempt aborts nobody; under
     * `selfAbort` a refusal aborts tid (restoring the pages it touched) and
     * fails with TransactionAbortedException; otherwise a refusal aborts
     * `aborted`, every other transaction with touched pages, restores the
     * pages they touched, and asks again, a second refusal failing with a
     * RuntimeException.
     */
    ghost predicate LockedFrom(s: Stage, tid: TransactionId, pid: PageId, perm: Permission, lock: Result<()>,
                               aborted: seq<TransactionId>, restored: set<PageId>)
      reads lockManager
    {
      var first := Locking.AcquireOutcome(s.locks, tid, pid, perm, selfAbort);
      && (first.0 == Locking.Acquired ==> lock == Ok(()) && restored == {} && lockManager.State() == first.1)
      && (first.0 != Locking.Acquired && selfAbort ==>
            && lock == Err(Aborted)
            && (tid in s.touched && s.touched[tid] != {} ==>
                  restored == s.touched[tid] && lockManager.State() == Locking.Completed(s.locks, tid))
            && (tid !in s.touched || s.touched[tid] == {} ==>
                  restored == {} && lockManager.State() == s.locks))
      && (first.0 != Locking.Acquired && !selfAbort ==>
            && (forall t :: t in aborted <==> t in s.touched && t != tid && s.touched[t] != {})
            && restored == TouchedByAll(s.touched, aborted)
            && var second := Locking.AcquireOutcome(Locking.CompletedAll(s.locks, aborted), tid, pid, perm, selfAbort);
            && lockManager.State() == second.1
            && (lock.Ok? <==> second.0 == Locking.Acquired)
            && (lock.Err? ==> lock == Err(Runtime)))
    }

    /**
     * The locking step of `getPage`: one attempt; on refusal either the
     * requester is aborted (`selfAbort`) and the request fails, or every
     * other transaction is aborted; then the lock is asked for again, and a
     * second refusal fails the request.  `restored` is the set of pages
     * whose entries the aborts replaced by their before-images.
     */
    method LockStep(tid: TransactionId, pid: PageId, perm: Permission)
      returns (r: Result<()>, ghost aborted: seq<TransactionId>, ghost restored: set<PageId>)
      requires Valid()
      modifies this, lockManager
      ensures Valid()
      ensures transactionSet == old(transactionSet) && pagesList == old(pagesList) && files == old(files) && events == old(events)
      ensures pages.Keys == old(pages.Keys)
      ensures r.Ok? ==> HoldsLock(tid, pid)
      ensures r.Ok? && perm == ReadWrite ==> pid in lockManager.writeLocks && lockManager.writeLocks[pid] == tid
      ensures r.Err? ==> (r.error == Aborted <==> selfAbort) && (r.error == Aborted || r.error == Runtime)
      ensures var first := Locking.AcquireOutcome(old(lockManager.State()), tid, pid, perm, selfAbort);
              first.0 == Locking.Acquired ==> r == Ok(()) && unchanged(this) && lockManager.State() == first.1
      ensures r.Err? && selfAbort && tid in old(transactionSet) && old(transactionSet[tid]) != {} ==>
                && (forall q :: !HoldsLock(tid, q))
                && lockManager.State() == Locking.Completed(old(lockManager.State()), tid)
                && forall q | q in pages ::
                     pages[q] == if q in old(transactionSet[tid]) then BeforeImagePage(old(pages[q])) else old(pages[q])
      ensures r.Err? && selfAbort && (tid !in old(transactionSet) || old(transactionSet[tid]) == {}) ==>
                unchanged(this) && lockManager.State() == old(lockManager.State())
      ensures !selfAbort && Locking.AcquireOutcome(old(lockManager.State()), tid, pid, perm, selfAbort).0 != Locking.Acquired ==>
                && (forall t :: t in aborted <==> t in transactionSet && t != tid && transactionSet[t] != {})
                && (forall q | q in pages ::
                      pages[q] == if q in TouchedByAll(transactionSet, aborted) then BeforeImagePage(old(pages[q])) else old(pages[q]))
                && var second := Locking.AcquireOutcome(Locking.CompletedAll(old(lockManager.State()), aborted), tid, pid, perm, selfAbort);
                && lockManager.State() == second.1
                && (r.Ok? <==> second.0 == Locking.Acquired)
      ensures forall q | q in pages :: pages[q] == if q in restored then BeforeImagePage(old(pages[q])) else old(pages[q])
      ensures var first := Locking.AcquireOutcome(old(lockManager.State()), tid, pid, perm, selfAbort);
              && (first.0 == Locking.Acquired ==> restored == {})
              && (first.0 != Locking.Acquired && selfAbort ==>
                    && r == Err(Aborted)
                    && (tid in old(transactionSet) && old(transactionSet[tid]) != {} ==> restored == old(transactionSet[tid]))
                    && (tid !in old(transactionSet) || old(transactionSet[tid]) == {} ==> restored == {}))
              && (first.0 != Locking.Acquired && !selfAbort ==>
                    && restored == TouchedByAll(old(transactionSet), aborted)
                    && (r.Err? ==> r == Err(Runtime)))
      ensures LockedFrom(old(Snapshot()), tid, pid, perm, r, aborted, restored)
    {
      aborted, restored := [], {};
      var outcome := lockManager.AcquireLock(tid, pid, perm, selfAbort);
      if outcome == Locking.TransactionAborted {
        restored := if tid in transactionSet then transactionSet[tid] else {};
        var _ := TransactionComplete(tid, false);
        return Err(Aborted), aborted, restored;
      }
      if outcome == Locking.AbortOthers {
        aborted := AbortOthers(tid);
        restored := TouchedByAll(transactionSet, aborted);
      } else {
        Locking.ReacquireIsNoOp(old(lockManager.State()), tid, pid, perm, selfAbort);
      }
      var again := lockManager.AcquireLock(tid, pid, perm, selfAbort);
      if again == Locking.TransactionAborted {
        return Err(Aborted), aborted, restored;
      } else if again == Locking.AbortOthers {
        return Err(Runtime), aborted, restored;
      }
      return Ok(()), aborted, restored;
    }

    /**
     * The loading step of `getPage`: a page not cached is read from its
     * table's file (a table missing from the catalog dereferences null; a
     * negative page number is an IllegalArgumentException), cached, and
     * appended to the FIFO list; the page joins tid's touched set.
     */
    method LoadPage(tid: TransactionId, pid: PageId) returns (r: Result<Page>)
      requires Valid()
      modifies this
      ensures Valid()
      ensures files == old(files) && events == old(events)
      ensures old(pid in pages) ==> pages == old(pages) && pagesList == old(pagesList) && r.Ok?
      ensures old(pid !in pages) && pid.tableId !in old(files) ==> r == Err(NullPointer) && unchanged(this)
      ensures old(pid !in pages) && pid.tableId in old(files) ==>
                var bytes := Storage.ReadPageBytes(old(files[pid.tableId]), pid.pageNumber, pageSize);
                && (bytes.Err? ==> r == Err(IllegalArgument) && unchanged(this))
                && (bytes.Ok? ==> r.Ok? && pages == old(pages)[pid := Page(pid, bytes.value, None, bytes.value)] &&
                                  pagesList == old(pagesList) + [pid])
      ensures r.Ok? ==> pid in pages && r.value == pages[pid]
      ensures r.Ok? ==> tid in transactionSet && transactionSet[tid] == (if tid in old(transactionSet) then old(transactionSet[tid]) else {}) + {pid}
      ensures r.Ok? ==> transactionSet - {tid} == old(transactionSet) - {tid}
      ensures r.Ok? ==> transactionSet == old(transactionSet)[tid := (if tid in old(transactionSet) then old(transactionSet[tid]) else {}) + {pid}]
    {
      if pid !in pages {
        if pid.tableId !in files {
          return Err(NullPointer);
        }
        var bytes := Storage.ReadPageBytes(files[pid.tableId], pid.pageNumber, pageSize);
        if bytes.Err? {
          return Err(IllegalArgument);
        }
        pages := pages[pid := Page(pid, bytes.value, None, bytes.value)];
        pagesList := pagesList + [pid];
      }
      var touched := if tid in transactionSet then transactionSet[tid] + {pid} else {pid};
      transactionSet := transactionSet[tid := touched];
      return Ok(pages[pid]);
    }

    /**
     * What `getPage`'s locking and loading steps do to the pool `s` the
     * eviction left: the locking step ends in `lock` (`LockedFrom`); a failed
     * one is the request's failure, and once the lock is held a page not
     * cached is read from its table's file; afterwards every page cached in
     * `s` is still cached, restored to its before-image if an abort touched
     * it, a newly loaded page joins the cache and the FIFO list, and tid's
     * touched set gains pid.
     */
    ghost predicate LockedAndLoaded(s: Stage, tid: TransactionId, pid: PageId, perm: Permission, lock: Result<()>,
                                    r: Result<Page>, aborted: seq<TransactionId>, restored: set<PageId>)
      reads this, lockManager
    {
      && LockedFrom(s, tid, pid, perm, lock, aborted, restored)
      && (lock.Err? ==> r == Err(lock.error))
      && (lock.Ok? && pid in s.pages ==> r.Ok?)
      && (lock.Ok? && pid !in s.pages && pid.tableId !in files ==> r == Err(NullPointer))
      && (lock.Ok? && pid !in s.pages && pid.tableId in files ==>
            var bytes := Storage.ReadPageBytes(files[pid.tableId], pid.pageNumber, pageSize);
            && (bytes.Ok? ==> r == Ok(Page(pid, bytes.value, None, bytes.value)))
            && (bytes.Err? ==> r == Err(IllegalArgument)))
      && (forall q | q in s.pages ::
            q in pages && pages[q] == if q in restored then BeforeImagePage(s.pages[q]) else s.pages[q])
      && pages.Keys == s.pages.Keys + (if r.Ok? then {pid} else {})
      && pagesList == s.pagesList + (if r.Ok? && pid !in s.pages then [pid] else [])
      && transactionSet == if r.Ok? then s.touched[tid := (if tid in s.touched then s.touched[tid] else {}) + {pid}]
                           else s.touched
    }

    /**
     * The locking and loading steps of `getPage`, on the pool as the
     * eviction left it (`s`): `LockStep`, then `LoadPage` once the lock is
     * held.
     */
    method LockAndLoad(tid: TransactionId, pid: PageId, perm: Permission, ghost s: Stage)
      returns (r: Result<Page>, ghost lock: Result<()>, ghost aborted: seq<TransactionId>, ghost restored: set<PageId>)
      requires Valid() && s == Snapshot()
      modifies this, lockManager
      ensures Valid()
      ensures files == old(files) && events == old(events)
      ensures r.Ok? ==> pid in pages && r.value == pages[pid] && HoldsLock(tid, pid)
      ensures LockedAndLoaded(s, tid, pid, perm, lock, r, aborted, restored)
      ensures r.Ok? ==> tid in transactionSet && pid in transactionSet[tid]
      ensures r.Ok? && pid in s.pages ==> pagesList == s.pagesList && pages.Keys == s.pages.Keys
      ensures r.Ok? && pid !in s.pages ==> pagesList == s.pagesList + [pid] && pages.Keys == s.pages.Keys + {pid}
      ensures r.Ok? && pid !in s.pages ==>
                && pid.tableId in files
                && var bytes := Storage.ReadPageBytes(files[pid.tableId], pid.pageNumber, pageSize);
                && bytes.Ok? && r.value == Page(pid, bytes.value, None, bytes.value)
    {
      assert s.pages == pages && s.pagesList == pagesList && s.touched == transactionSet && s.locks == lockManager.State();
      var l;
      l, aborted, restored := LockStep(tid, pid, perm);
      lock := l;
      if l.Err? {
        return Err(l.error), lock, aborted, restored;
      }
      ghost var before := pages.Keys;
      r := LoadPage(tid, pid);
      assert pages.Keys <= before + {pid};
    }

    /**
     * `getPage`: evict first when the pool holds `numPages` pages or more
     * (even if pid is cached), then lock, then load.  Starting from at most
     * `numPages` cached pages, it ends with at most `numPages`.  `evicted`
     * is the pool as the eviction leaves it (the pool itself when there is
     * none); `lock`, `aborted` and `restored` are the locking step's.  From
     * `evicted` on, every other cached page keeps its entry unless an abort
     * restored it, and only tid's touched set changes (`LockedAndLoaded`).
     */
    method GetPage(tid: TransactionId, pid: PageId, perm: Permission)
      returns (r: Result<Page>, ghost evicted: Stage, ghost lock: Result<()>,
               ghost aborted: seq<TransactionId>, ghost restored: set<PageId>)
      requires Valid()
      modifies this, lockManager
      ensures Valid()
      ensures r.Ok? ==> pid in pages && r.value == pages[pid] && HoldsLock(tid, pid)
      ensures r.Ok? ==> tid in transactionSet && pid in transactionSet[tid]
      ensures old(|pages|) <= numPages ==> |pages| <= numPages
      ensures r.Ok? && old(|pages|) >= numPages ==>
                old(pagesList) != [] && (pagesList == old(pagesList[1..]) || pagesList == old(pagesList[1..]) + [pid])
      ensures r.Ok? && old(|pages|) < numPages && old(pid in pages) ==>
                pagesList == old(pagesList) && pages.Keys == old(pages.Keys)
      ensures r.Ok? && old(|pages|) < numPages && old(pid !in pages) ==>
                pagesList == old(pagesList) + [pid] && pages.Keys == old(pages.Keys) + {pid}
      ensures old(|pages|) < numPages ==> files == old(files) && events == old(events)
      ensures old(|pages|) >= numPages && old(|pages|) > 0 && old(pagesList) != [] ==>
                var f := FlushStep(old(pages), old(files), pageSize, old(pagesList[0]));
                files == f.files && events == old(events) + f.log
      ensures r.Ok? && old(pid !in pages) ==>
                && pid.tableId in files
                && var bytes := Storage.ReadPageBytes(files[pid.tableId], pid.pageNumber, pageSize);
                && bytes.Ok? && r.value == Page(pid, bytes.value, None, bytes.value)
      // the eviction
      ensures old(|pages|) >= numPages && (old(|pages|) == 0 || old(pagesList) == []) ==>
                && r == Err(if old(|pages|) == 0 then DbError else IndexOutOfBounds)
                && unchanged(this) && unchanged(lockManager)
      ensures old(|pages|) < numPages ==> evicted == old(Snapshot())
      ensures old(|pages|) >= numPages && old(|pages|) > 0 && old(pagesList) != [] ==>
                var head := old(pagesList[0]);
                && evicted.pages == old(pages) - {head} && evicted.pagesList == old(pagesList[1..])
                && (forall t :: t in evicted.touched <==> t in old(transactionSet) && old(transactionSet[t]) - {head} != {})
                && (forall t | t in evicted.touched :: evicted.touched[t] == old(transactionSet[t]) - {head})
                && evicted.locks.readLocks == old(lockManager.readLocks) - {head}
                && evicted.locks.writeLocks == old(lockManager.writeLocks) - {head}
                && Locking.TidLocksShrunk(old(lockManager.tidLocks), evicted.locks.tidLocks, head)
      // the locking and loading steps, from the evicted pool
      ensures old(|pages|) < numPages || (old(|pages|) > 0 && old(pagesList) != []) ==>
                LockedAndLoaded(evicted, tid, pid, perm, lock, r, aborted, restored)
    {
      if |pages| < numPages {
        evicted := Snapshot();
        r, lock, aborted, restored := LockAndLoad(tid, pid, perm, evicted);
        GainsAtMostOne(evicted.pages, pages, pid);
        return;
      }
      var e := EvictPage();
      if e.Err? {
        return Err(e.error), Snapshot(), Err(e.error), [], {};
      }
      assert pages == old(pages) - {old(pagesList[0])};
      evicted := Snapshot();
      r, lock, aborted, restored := LockAndLoad(tid, pid, perm, evicted);
      GainsAtMostOne(evicted.pages, pages, pid);
    }

    method FlushEach(order: seq<PageId>) returns (r: Result<()>)
      requires Valid()
      modifies this
      ensures Valid()
      ensures transactionSet == old(transactionSet) && pagesList == old(pagesList)
      ensures var f := FlushSeq(old(pages), old(files), pageSize, order);
                r == f.result && pages == f.pages && files == f.files && events == old(events) + f.log
    {
      ghost var start := events;
      ghost var f := FlushSeq(pages, files, pageSize, []);
      for i := 0 to |order|
        invariant Valid()
        invariant transactionSet == old(transactionSet) && pagesList == old(pagesList) && start == old(events)
        invariant f == FlushSeq(old(pages), old(files), pageSize, order[..i])
        invariant f.result.Ok? && pages == f.pages && files == f.files && events == start + f.log
      {
        FlushSeqNext(old(pages), old(files), pageSize, order, i);
        ghost var t := FlushStep(pages, files, pageSize, order[i]);
        ghost var before := events;
        r := FlushPage(order[i]);
        AppendAssoc(start, f.log, t.log);
        f := FlushSeq(old(pages), old(files), pageSize, order[..i + 1]);
        if r.Err? {
          FlushSeqStops(old(pages), old(files), pageSize, order, i + 1);
          return;
        }
      }
      assert order[..|order|] == order;
      return Ok(());
    }

    /**
     * `flushAllPages`: flush every cached page, in some order of the cached
     * ids (`order`), stopping at the first IOException.
     */
    method FlushAllPages() returns (r: Result<()>, ghost order: seq<PageId>)
      requires Valid()
      modifies this
      ensures Valid()
      ensures transactionSet == old(transactionSet) && pagesList == old(pagesList)
      ensures Distinct(order) && forall q :: q in order <==> q in old(pages)
      ensures var f := FlushSeq(old(pages), old(files), pageSize, order);
                r == f.result && pages == f.pages && files == f.files && events == old(events) + f.log
      ensures r.Ok? ==> forall p | p in pages :: pages[p].dirtier.None? || p.tableId !in files
    {
      var ids := Enumerate(pages.Keys);
      order := ids;
      FlushSeqCleans(pages, files, pageSize, ids);
      r := FlushEach(ids);
    }

    /**
     * `flushPages(tid)`: flush the pages tid touched, in some order of them
     * (`order`); nothing when it has no entry or an empty one.
     */
    method FlushPages(tid: TransactionId) returns (r: Result<()>, ghost order: seq<PageId>)
      requires Valid()
      modifies this
      ensures Valid()
      ensures transactionSet == old(transactionSet) && pagesList == old(pagesList)
      ensures tid !in transactionSet || transactionSet[tid] == {} ==> r == Ok(()) && unchanged(this)
      ensures Distinct(order) && forall q :: q in order <==> tid in transactionSet && q in transactionSet[tid]
      ensures var f := FlushSeq(old(pages), old(files), pageSize, order);
                r == f.result && pages == f.pages && files == f.files && events == old(events) + f.log
      ensures r.Ok? && tid in transactionSet ==> forall p | p in transactionSet[tid] :: pages[p].dirtier.None? || p.tableId !in files
    {
      order := [];
      if tid !in transactionSet || transactionSet[tid] == {} {
        return Ok(()), order;
      }
      var ids := Enumerate(transactionSet[tid]);
      order := ids;
      FlushSeqCleans(pages, files, pageSize, ids);
      r := FlushEach(ids);
    }

    /** Marks the pages an insert or delete changed as dirtied by tid and caches them (see `Cached`). */
    method CacheDirtied(tid: TransactionId, modified: seq<Changed>)
      requires Valid()
      modifies this
      ensures Valid()
      ensures pages == Cached(old(pages), lockManager.State(), tid, modified)
      ensures pagesList == old(pagesList) && transactionSet == old(transactionSet)
      ensures files == old(files) && events == old(events)
    {
      var i := 0;
      while i < |modified|
        invariant 0 <= i <= |modified| && Valid()
        invariant pages == Cached(old(pages), lockManager.State(), tid, modified[..i])
        invariant pagesList == old(pagesList) && transactionSet == old(transactionSet)
        invariant files == old(files) && events == old(events)
      {
        assert modified[..i + 1][..i] == modified[..i];
        var q := modified[i].page.(dirtier := Some(tid));
        if !HoldsLock(tid, q.pid) {
          pages := pages[q.pid := q];
        } else if modified[i].shared && q.pid in pages {
          // the cached object itself was changed in place
          pages := pages[q.pid := q];
        }
        i := i + 1;
      }
      assert modified[..|modified|] == modified;
    }

    /**
     * `insertTuple`, after the heap file has inserted the tuple: the pages
     * it returns are marked dirtied by tid and cached as `Cached` says (a
     * page it appended is not shared with the cache); a page new to the
     * cache does not join the FIFO list.
     */
    method InsertTuple(tid: TransactionId, modified: seq<Changed>)
      requires Valid()
      modifies this
      ensures Valid()
      ensures pages == Cached(old(pages), lockManager.State(), tid, modified)
      ensures pagesList == old(pagesList) && transactionSet == old(transactionSet)
      ensures files == old(files) && events == old(events)
    {
      CacheDirtied(tid, modified);
    }

    /** `deleteTuple`, after the heap file has deleted the tuple: the same cache update as `InsertTuple`. */
    method DeleteTuple(tid: TransactionId, modified: seq<Page>)
      requires Valid()
      modifies this
      ensures Valid()
      ensures pages == Cached(old(pages), lockManager.State(), tid, AllShared(modified))
      ensures pagesList == old(pagesList) && transactionSet == old(transactionSet)
      ensures files == old(files) && events == old(events)
    {
      CacheDirtied(tid, AllShared(modified));
    }
  }
}
