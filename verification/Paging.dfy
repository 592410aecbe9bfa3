/**
 Paged reads of a fixed result set: the OpenObserve driver's own page loop, its bounded
 pages, and the generic cursor walk over them.
 */
module Paging {
  import opened Options
  import opened Slices

  type Positive = n: int | n > 0 witness 1

  // Why a request failed: its kind and any `Retry-After`.
  datatype Failure = Failure(kind: string, retryAfterS: Option<real>)

  // A returned row and its `_seq` stamp.
  datatype Hit<T> = Hit(row: T, position: nat)

  // Cursors are decimal offsets.
  datatype QueryResult<T> = QueryResult(
    reachable: bool,
    events: seq<Hit<T>>,
    complete: bool,
    failure: Option<Failure>,
    nextCursor: Option<nat>)

  function Min(a: nat, b: nat): nat {
    if a < b then a else b
  }

  // What the server answers to `from`/`size`.
  function Page<T>(rows: seq<T>, offset: nat, size: Positive): seq<T> {
    rows[Min(offset, |rows|)..Min(offset + size, |rows|)]
  }

  // Rows lo to hi, each stamped with its global position.
  function Stamped<T>(rows: seq<T>, lo: nat, hi: nat): (hits: seq<Hit<T>>)
    requires lo <= hi <= |rows|
    ensures |hits| == hi - lo
  {
    seq(hi - lo, i requires 0 <= i < hi - lo => Hit(rows[lo + i], lo + i))
  }

  lemma StampedConcat<T>(rows: seq<T>, lo: nat, mid: nat, hi: nat)
    requires lo <= mid <= hi <= |rows|
    ensures Stamped(rows, lo, mid) + Stamped(rows, mid, hi) == Stamped(rows, lo, hi)
  {
  }

  // `h["_seq"] = offset + i` over the hits of one page.
  method Stamp<T>(ghost rows: seq<T>, hits: seq<T>, offset: nat, ghost size: Positive) returns (stamped: seq<Hit<T>>)
    requires hits == Page(rows, offset, size)
    ensures stamped == Stamped(rows, Min(offset, |rows|), Min(offset + size, |rows|))
  {
    stamped := [];
    for i := 0 to |hits|
      invariant |stamped| == i
      invariant forall j :: 0 <= j < i ==> stamped[j] == Hit(hits[j], offset + j)
    {
      stamped := stamped + [Hit(hits[i], offset + i)];
    }
  }

  lemma StampedPrefix<T>(rows: seq<T>, lo: nat, hi: nat, t: nat)
    requires lo <= hi <= |rows| && t <= hi - lo
    ensures Stamped(rows, lo, hi)[..t] == Stamped(rows, lo, lo + t)
  {
  }

  // No request from the first-th on, count of them, fails.
  ghost predicate AllUp(outage: nat -> Option<Failure>, first: nat, count: nat) {
    forall i :: first <= i < first + count ==> outage(i).None?
  }

  lemma NextIsUp(outage: nat -> Option<Failure>, first: nat, count: nat)
    requires AllUp(outage, first, count) && outage(first + count).None?
    ensures AllUp(outage, first, count + 1)
  {
  }

  // A read of m rows in pages of `size` never meets the cap after a full page.
  predicate UnderCap(m: nat, size: Positive, cap: Option<int>) {
    cap.None? || m / size == 0 || m / size * size < cap.value
  }

  // A read that ran short after i full pages, none of which met the cap.
  lemma CapIsNotMet(m: nat, size: Positive, i: nat, cap: Option<int>)
    requires i * size <= m < (i + 1) * size
    requires i > 0 && cap.Some? ==> i * size < cap.value
    ensures m / size == i && UnderCap(m, size, cap)
  {
    var q := m / size;
    assert q * size <= m < (q + 1) * size;
    if q < i {
      MultipleMonotone(q + 1, i, size);
    } else if i < q {
      MultipleMonotone(i + 1, q, size);
    }
  }

  lemma MultipleMonotone(a: nat, b: nat, size: Positive)
    requires a <= b
    ensures a * size <= b * size
  {
  }

  // The i-th full page met the cap, so the read as a whole does.
  lemma CapIsMet(m: nat, size: Positive, i: nat, cap: int)
    requires 0 < i && i * size <= m && i * size >= cap
    ensures !UnderCap(m, size, Some(cap))
  {
    var q := m / size;
    assert m < (q + 1) * size;
    if q < i {
      MultipleMonotone(q + 1, i, size);
    } else {
      MultipleMonotone(i, q, size);
    }
  }

  // A failure while pages remain is among the requests a complete read makes.
  lemma FailureIsCounted(m: nat, size: Positive, i: nat, outage: nat -> Option<Failure>, first: nat)
    requires i * size <= m && outage(first + i).Some?
    ensures !AllUp(outage, first, m / size + 1)
  {
    var q := m / size;
    assert m < (q + 1) * size;
    if q < i {
      MultipleMonotone(q + 1, i, size);
    }
  }

  // What a walk over m rows from `start` in pages of `size` may return. Its events are a
  // prefix of those rows, each at its global position; it is complete exactly when every
  // page arrived and none met the cap, and then it holds every row.
  ghost predicate PagedRead<T>(rows: seq<T>, start: nat, size: Positive, cap: Option<int>,
                               outage: nat -> Option<Failure>, first: nat, result: QueryResult<T>)
    requires start <= |rows|
  {
    var m := |rows| - start;
    && |result.events| <= m
    && result.events == Stamped(rows, start, start + |result.events|)
    && (result.complete <==> AllUp(outage, first, m / size + 1) && UnderCap(m, size, cap))
    && (result.complete ==> result.reachable && |result.events| == m && result.nextCursor.None?)
  }

  lemma UnreachableRead<T>(rows: seq<T>, start: nat, size: Positive, cap: Option<int>, i: nat,
                           outage: nat -> Option<Failure>, first: nat, result: QueryResult<T>)
    requires start <= |rows| && i * size <= |rows| - start && outage(first + i).Some?
    requires !result.complete && result.events == Stamped(rows, start, start + i * size)
    ensures PagedRead(rows, start, size, cap, outage, first, result)
  {
    hide Stamped, AllUp, UnderCap;
    FailureIsCounted(|rows| - start, size, i, outage, first);
  }

  lemma FinishedRead<T>(rows: seq<T>, start: nat, size: Positive, cap: Option<int>, i: nat,
                        outage: nat -> Option<Failure>, first: nat, result: QueryResult<T>)
    requires start <= |rows| && i * size <= |rows| - start < (i + 1) * size
    requires i > 0 && cap.Some? ==> i * size < cap.value
    requires AllUp(outage, first, i + 1)
    requires result.reachable && result.complete && result.nextCursor.None?
    requires result.events == Stamped(rows, start, |rows|)
    ensures PagedRead(rows, start, size, cap, outage, first, result)
  {
    hide Stamped, AllUp, UnderCap;
    CapIsNotMet(|rows| - start, size, i, cap);
  }

  lemma CappedRead<T>(rows: seq<T>, start: nat, size: Positive, cap: int, i: nat, kept: nat,
                      outage: nat -> Option<Failure>, first: nat, result: QueryResult<T>)
    requires start <= |rows| && 0 < i && cap <= i * size <= |rows| - start
    requires !result.complete && kept <= i * size && result.events == Stamped(rows, start, start + kept)
    ensures PagedRead(rows, start, size, Some(cap), outage, first, result)
  {
    hide Stamped, AllUp, UnderCap;
    CapIsMet(|rows| - start, size, i, cap);
  }

  class OpenObserve<T> {
    // The rows matching one cid and window, in server order.
    const rows: seq<T>
    // The failure of each request, by request number.
    const outage: nat -> Option<Failure>
    const pageSize: Positive
    const maxRows: Positive
    var requests: nat

    constructor (rows: seq<T>, outage: nat -> Option<Failure>, pageSize: Positive, maxRows: Positive)
      requires pageSize <= maxRows
      ensures this.rows == rows && this.outage == outage && requests == 0
      ensures this.pageSize == pageSize && this.maxRows == maxRows
    {
      this.rows := rows;
      this.outage := outage;
      this.pageSize := pageSize;
      this.maxRows := maxRows;
      requests := 0;
    }

    // One search round trip.
    method Search(offset: nat, size: Positive) returns (failure: Option<Failure>, hits: seq<T>)
      modifies this`requests
      ensures requests == old(requests) + 1
      ensures failure == outage(old(requests))
      ensures hits == if failure.Some? then [] else Page(rows, offset, size)
    {
      failure := outage(requests);
      requests := requests + 1;
      hits := if failure.Some? then [] else Page(rows, offset, size);
    }

    // Read to completion, page by page, until one comes back short.
    method Query() returns (result: QueryResult<T>)
      modifies this`requests
      ensures WholeRead(old(requests), result)
    {
      var events: seq<Hit<T>> := [];
      var offset := 0;
      ghost var i, first := 0, requests;
      assert AllUp(outage, first, 0);
      assert events == Stamped(rows, 0, 0);
      hide AllUp, UnderCap, PagedRead, Stamped;
      while true
        invariant offset == i * pageSize <= |rows|
        invariant events == Stamped(rows, 0, offset)
        invariant requests == first + i
        invariant (offset == 0 <==> i == 0) && (i > 0 ==> outage(first).None?)
        invariant AllUp(outage, first, i)
        invariant i > 0 ==> offset < maxRows
        decreases |rows| - offset
      {
        var failure, hits := Search(offset, pageSize);
        if failure.Some? {
          if offset == 0 {
            result := QueryResult(false, [], true, failure, None);
          } else {
            result := QueryResult(true, events, false, failure, None);
          }
          UnreachableRead(rows, 0, pageSize, Some(maxRows), i, outage, first, AsRead(result));
          return;
        }
        NextIsUp(outage, first, i);
        var stamped := Stamp(rows, hits, |events|, pageSize);
        StampedConcat(rows, 0, offset, offset + |hits|);
        events := events + stamped;
        assert (i + 1) * pageSize == offset + pageSize;
        if |hits| < pageSize {
          result := QueryResult(true, events, true, None, None);
          FinishedRead(rows, 0, pageSize, Some(maxRows), i, outage, first, result);
          return;
        }
        offset := offset + |hits|;
        i := i + 1;
        if offset >= maxRows {
          result := QueryResult(true, events, false, None, None);
          CappedRead(rows, 0, pageSize, maxRows, i, offset, outage, first, result);
          return;
        }
      }
    }

    // The typed read: without limit or cursor the whole result set, otherwise one bounded
    // page with the offset of the next unless the page came back short.
    method QuerySpec(limit: Option<Positive>, cursor: Option<nat>) returns (result: QueryResult<T>)
      modifies this`requests
      ensures limit.None? && cursor.None? ==> WholeRead(old(requests), result)
      ensures limit.Some? || cursor.Some? ==> requests == old(requests) + 1
      ensures limit.Some? || cursor.Some? ==>
        OnePage(SizeOf(limit), if cursor.Some? then cursor.value else 0, old(requests), result)
    {
      if limit.None? && cursor.None? {
        result := Query();
        return;
      }
      var offset := if cursor.Some? then cursor.value else 0;
      var size := if limit.Some? then limit.value else pageSize;
      var failure, hits := Search(offset, size);
      if failure.Some? {
        return QueryResult(false, [], true, failure, None);
      }
      var stamped := Stamp(rows, hits, offset, size);
      var next := if |hits| == size then Some(offset + |hits|) else None;
      return QueryResult(true, stamped, next.None?, None, next);
    }

    // The page size in force.
    ghost function SizeOf(limit: Option<Positive>): Positive {
      if limit.Some? then limit.value else pageSize
    }

    // The result of a whole read whose first request is number `first`. An unreachable
    // result leaves `complete` at its default.
    ghost predicate WholeRead(first: nat, result: QueryResult<T>) {
      && (result.reachable <==> outage(first).None?)
      && (!result.reachable ==> result.events == [] && result.failure == outage(first))
      && (result.reachable && !result.complete ==> result.failure.Some? || |result.events| >= maxRows)
      && result.nextCursor.None?
      && PagedRead(rows, 0, pageSize, Some(maxRows), outage, first, AsRead(result))
    }

    function AsRead(result: QueryResult<T>): QueryResult<T> {
      result.(complete := result.reachable && result.complete)
    }

    // The result of one page of `size` rows from `offset`, read by request `number`.
    ghost predicate OnePage(size: Positive, offset: nat, number: nat, result: QueryResult<T>) {
      var lo, hi := Min(offset, |rows|), Min(offset + size, |rows|);
      && result.failure == outage(number)
      && result.reachable == result.failure.None?
      && result.events == (if result.reachable then Stamped(rows, lo, hi) else [])
      && result.nextCursor == (if result.reachable && hi - lo == size then Some(offset + size) else None)
      && result.complete == result.nextCursor.None?
    }

    // After i full pages from `start`, the next page extends the read to the end of the
    // rows, or by one more full page.
    lemma NextPage(size: Positive, start: nat, i: nat, offset: nat, number: nat, page: QueryResult<T>)
      requires start + i * size <= |rows|
      requires Min(offset, |rows|) == start + i * size
      requires OnePage(size, offset, number, page) && page.reachable
      ensures page.nextCursor.None? ==> |rows| - start < (i + 1) * size && page.complete
      ensures page.nextCursor.None? ==>
        Stamped(rows, start, start + i * size) + page.events == Stamped(rows, start, |rows|)
      ensures page.nextCursor.Some? ==> (i + 1) * size <= |rows| - start
      ensures page.nextCursor.Some? ==> page.nextCursor == Some(start + (i + 1) * size)
      ensures page.nextCursor.Some? ==>
        Stamped(rows, start, start + i * size) + page.events == Stamped(rows, start, start + (i + 1) * size)
    {
      hide Stamped;
      var lo, hi := Min(offset, |rows|), Min(offset + size, |rows|);
      assert (i + 1) * size == i * size + size;
      StampedConcat(rows, start, lo, hi);
    }
  }

  // The generic cursor walk over bounded pages.

  // The rows a walk from `cursor` is to read.
  function Start(n: nat, cursor: Option<nat>): (start: nat)
    ensures start <= n
  {
    if cursor.Some? then Min(cursor.value, n) else 0
  }

  // A guarded walk stopped after k full pages, the first k to reach the guard.
  ghost predicate StoppedAfter<T>(result: QueryResult<T>, start: nat, size: Positive, guard: int, k: nat) {
    && k > 0
    && k * size >= guard
    && (k > 1 ==> (k - 1) * size < guard)
    && |result.events| == TakeLength(k * size, guard)
    && result.nextCursor == Some(start + k * size)
  }

  // With no limit and no cursor this is the driver's own read under its own row cap;
  // otherwise stopping at the guard leaves the cursor after the last page read.
  method FetchAllPages<T>(backend: OpenObserve<T>, limit: Option<Positive>, cursor: Option<nat>, maxRows: Option<int>)
      returns (result: QueryResult<T>)
    modifies backend`requests
    ensures PagedRead(backend.rows, Start(|backend.rows|, cursor), backend.SizeOf(limit),
                      if limit.None? && cursor.None? then Some(backend.maxRows) else maxRows,
                      backend.outage, old(backend.requests), result)
    ensures (limit.Some? || cursor.Some?) && result.reachable && !result.complete ==>
      maxRows.Some? &&
      exists k: nat :: StoppedAfter(result, Start(|backend.rows|, cursor), backend.SizeOf(limit), maxRows.value, k)
  {
    var events: seq<Hit<T>> := [];
    var at := cursor;
    ghost var first, i, size := backend.requests, 0, backend.SizeOf(limit);
    ghost var n, start := |backend.rows|, Start(|backend.rows|, cursor);
    ghost var rows, outage := backend.rows, backend.outage;
    assert AllUp(outage, first, 0) && events == Stamped(rows, start, start);
    hide OpenObserve.OnePage, Stamped, UnderCap, AllUp, PagedRead;
    while true
      invariant i * size <= n - start
      invariant events == Stamped(rows, start, start + i * size)
      invariant i == 0 ==> at == cursor
      invariant i > 0 ==> at == Some(start + i * size) && (limit.Some? || cursor.Some?)
      invariant backend.requests == first + i
      invariant AllUp(outage, first, i)
      invariant i > 0 && maxRows.Some? ==> i * size < maxRows.value
      decreases n - start - i * size
    {
      ghost var whole := limit.None? && at.None?;
      ghost var offset := if at.Some? then at.value else 0;
      var page := backend.QuerySpec(limit, at);
      if !page.reachable {
        result := QueryResult(false, events, false, page.failure, None);
        if whole {
          assert result == backend.AsRead(page);
        } else {
          UnreachableRead(rows, start, size, maxRows, i, outage, first, result);
        }
        return;
      }
      if !whole {
        backend.NextPage(size, start, i, offset, first + i, page);
        NextIsUp(outage, first, i);
      }
      events := events + page.events;
      at := page.nextCursor;
      if at.None? {
        result := QueryResult(true, events, page.complete, page.failure, None);
        if whole {
          assert result == backend.AsRead(page);
        } else {
          FinishedRead(rows, start, size, maxRows, i, outage, first, result);
        }
        return;
      }
      i := i + 1;
      if maxRows.Some? && |events| >= maxRows.value {
        var kept := TakeLength(|events|, maxRows.value);
        StampedPrefix(rows, start, start + i * size, kept);
        result := QueryResult(true, events[..kept], false, None, at);
        CappedRead(rows, start, size, maxRows.value, i, kept, outage, first, result);
        assert StoppedAfter(result, start, size, maxRows.value, i);
        return;
      }
    }
  }

  // Resuming a walk its guard stopped after k full pages: the guard cuts the events but not
  // the cursor, so the two reads together miss no row exactly when the guard is a positive
  // multiple of the page size.
  lemma ResumingLosesNothingIffAligned<T>(rows: seq<T>, start: nat, size: Positive, guard: int, k: nat,
                                         stopped: QueryResult<T>, resumed: QueryResult<T>)
    requires start <= |rows| && k * size <= |rows| - start
    requires StoppedAfter(stopped, start, size, guard, k)
    requires stopped.events == Stamped(rows, start, start + |stopped.events|)
    requires resumed.events == Stamped(rows, stopped.nextCursor.value, |rows|)
    ensures stopped.events + resumed.events == Stamped(rows, start, |rows|) <==> guard > 0 && guard % size == 0
  {
    hide Stamped;
    KeptIsWholeIffAligned(size, guard, k);
    if |stopped.events| == k * size {
      StampedConcat(rows, start, start + k * size, |rows|);
    } else {
      assert |stopped.events + resumed.events| < |Stamped(rows, start, |rows|)|;
    }
  }

  // The first k pages to reach the guard are kept whole only when they meet it exactly.
  lemma KeptIsWholeIffAligned(size: Positive, guard: int, k: nat)
    requires k > 0 && k * size >= guard && (k > 1 ==> (k - 1) * size < guard)
    ensures TakeLength(k * size, guard) == k * size <==> guard > 0 && guard % size == 0
  {
    if guard > 0 {
      MultipleBetween(size, guard, k);
    } else {
      MultipleMonotone(1, k, size);
    }
  }

  lemma MultipleBetween(size: Positive, guard: Positive, k: nat)
    requires k > 0 && (k - 1) * size < guard <= k * size
    ensures guard % size == 0 <==> guard == k * size
  {
    var q := guard / size;
    assert guard == q * size + guard % size;
    if q < k - 1 {
      MultipleMonotone(q + 1, k - 1, size);
    } else if q > k {
      MultipleMonotone(k, q, size);
    }
    assert (k - 1) * size == k * size - size;
  }

  // Paging equals one read: two complete reads of the same rows agree whatever their page
  // sizes and caps, and an incomplete one is a prefix of them.
  lemma CompleteReadsAgree<T>(rows: seq<T>, start: nat,
                              sizeA: Positive, capA: Option<int>, outageA: nat -> Option<Failure>, firstA: nat,
                              a: QueryResult<T>,
                              sizeB: Positive, capB: Option<int>, outageB: nat -> Option<Failure>, firstB: nat,
                              b: QueryResult<T>)
    requires start <= |rows|
    requires PagedRead(rows, start, sizeA, capA, outageA, firstA, a) && a.complete
    requires PagedRead(rows, start, sizeB, capB, outageB, firstB, b)
    ensures b.complete ==> b.events == a.events
    ensures b.events <= a.events
  {
    StampedPrefix(rows, start, |rows|, |b.events|);
  }
}
