/** The `/api/messages` history endpoint: the room's log, filtered by a
    case-insensitive search term, then cut to one page counted back from the
    newest message. */
module History {
  import opened ChatTypes
  import opened Text
  import RoomLog

  /** `parseInt(q) || d`: `None` stands for NaN; NaN and 0 fall back to `d`,
      any other integer (negative ones too) is kept. */
  function ParsedOr(q: Option<int>, d: int): (r: int)
    ensures q.None? || q.value == 0 ==> r == d
    ensures q.Some? && q.value != 0 ==> r == q.value
    ensures r == 0 ==> d == 0
  {
    if q.Some? && q.value != 0 then q.value else d
  }

  /** `m.message.toLowerCase().includes(term)` */
  predicate Matches(m: Msg, term: string) {
    Includes(Lower(m.body), term)
  }

  /** `log.filter(m => Matches(m, term))` */
  function Filter(log: seq<Msg>, term: string): (r: seq<Msg>)
    ensures |r| <= |log|
    ensures forall m :: m in r <==> m in log && Matches(m, term)
  {
    if log == [] then []
    else (if Matches(log[0], term) then [log[0]] else []) + Filter(log[1..], term)
  }

  /** Filtering a concatenation filters each part, so the survivors keep
      their original relative order. */
  lemma {:induction false} FilterAppend(a: seq<Msg>, b: seq<Msg>, term: string)
    ensures Filter(a + b, term) == Filter(a, term) + Filter(b, term)
    decreases |a|
  {
    if a == [] {
      assert a + b == b;
    } else {
      assert (a + b)[1..] == a[1..] + b;
      FilterAppend(a[1..], b, term);
    }
  }

  /** Nothing is dropped when every message matches. */
  lemma {:induction false} FilterAllMatch(log: seq<Msg>, term: string)
    requires forall i :: 0 <= i < |log| ==> Matches(log[i], term)
    ensures Filter(log, term) == log
    decreases |log|
  {
    if log != [] {
      FilterAllMatch(log[1..], term);
    }
  }

  /** Nothing is kept when no message matches. */
  lemma {:induction false} FilterNoneMatch(log: seq<Msg>, term: string)
    requires forall i :: 0 <= i < |log| ==> !Matches(log[i], term)
    ensures Filter(log, term) == []
    decreases |log|
  {
    if log != [] {
      FilterNoneMatch(log[1..], term);
    }
  }

  /** The `filtered` sequence of the endpoint: the whole log when the search
      term is empty. */
  function Filtered(log: seq<Msg>, search: string): seq<Msg> {
    if search != "" then Filter(log, search) else log
  }

  /** How `Array.prototype.slice` reads one of its arguments for a sequence
      of length `n`: negative values count from the end, and the result is
      clamped to `0..n`. */
  function SliceIndex(k: int, n: nat): (r: nat)
    ensures r <= n
    ensures 0 <= k <= n ==> r == k
  {
    if k < 0 then (if n + k < 0 then 0 else n + k) else if k > n then n else k
  }

  /** `s.slice(start, end)` */
  function Slice<T>(s: seq<T>, start: int, end: int): (r: seq<T>)
    ensures |r| <= |s|
    ensures forall x :: x in r ==> x in s
  {
    var from, to := SliceIndex(start, |s|), SliceIndex(end, |s|);
    if from < to then s[from..to] else []
  }

  function Max(a: int, b: int): int { if a < b then b else a }
  function Min(a: int, b: int): int { if a < b then a else b }

  /** The page computation: `start = max(len - page * pageSize, 0)`, then
      `filtered.slice(start, start + pageSize)`. */
  function Page(log: seq<Msg>, page: int, pageSize: int, search: string): (r: seq<Msg>)
    ensures forall m :: m in r ==> m in log
    ensures search != "" ==> forall m :: m in r ==> Matches(m, search)
  {
    var filtered := Filtered(log, search);
    var start := Max(|filtered| - page * pageSize, 0);
    Slice(filtered, start, start + pageSize)
  }

  /** The whole endpoint from its query parameters: room defaulting to
      "global", page to 1, page size to 20, and the search term lowercased. */
  function Query(messages: map<string, seq<Msg>>, room: Option<string>, page: Option<int>,
                 pageSize: Option<int>, search: Option<string>): (r: seq<Msg>)
    ensures forall m :: m in r ==> m in RoomLog.LogOf(messages, OrElse(room, GlobalRoom))
  {
    var term := if search.Some? then Lower(search.value) else "";
    Page(RoomLog.LogOf(messages, OrElse(room, GlobalRoom)), ParsedOr(page, 1), ParsedOr(pageSize, 20), term)
  }

  // ---------------------------------------------------------------------------
  // Properties of the page arithmetic, for page >= 1 and pageSize >= 1

  /** A page is the window of the filtered log that starts at
      `max(N - page * pageSize, 0)` and holds up to `pageSize` entries. */
  lemma PageWindow(log: seq<Msg>, page: int, pageSize: int, search: string)
    requires page >= 1 && pageSize >= 1
    ensures var f := Filtered(log, search);
            var start := Max(|f| - page * pageSize, 0);
            && start <= |f|
            && Page(log, page, pageSize, search) == f[start..Min(start + pageSize, |f|)]
            && |Page(log, page, pageSize, search)| <= pageSize
  {
    var f := Filtered(log, search);
    assert page * pageSize >= 0;
  }

  /** Page 1 is the newest `min(N, pageSize)` entries, oldest first. */
  lemma PageOneIsNewest(log: seq<Msg>, pageSize: int, search: string)
    requires pageSize >= 1
    ensures var f := Filtered(log, search);
            Page(log, 1, pageSize, search) == f[|f| - Min(|f|, pageSize)..]
  {
    PageWindow(log, 1, pageSize, search);
  }

  /** A page that fits entirely in the filtered log is the `pageSize`
      entries ending `(page - 1) * pageSize` entries before the newest. */
  lemma PageInside(log: seq<Msg>, page: int, pageSize: int, search: string)
    requires page >= 1 && pageSize >= 1
    requires page * pageSize <= |Filtered(log, search)|
    ensures var f := Filtered(log, search);
            var start := |f| - page * pageSize;
            && start + pageSize <= |f|
            && Page(log, page, pageSize, search) == f[start..start + pageSize]
  {
    assert page * pageSize >= pageSize;
    PageWindow(log, page, pageSize, search);
  }

  /** While page `p + 1` still fits in the filtered log, pages `p + 1` and
      `p` are adjacent: page `p + 1` ends where page `p` starts, so together
      they are one contiguous window with neither a gap nor an overlap. */
  lemma PagesAdjacent(log: seq<Msg>, p: int, pageSize: int, search: string)
    requires p >= 1 && pageSize >= 1
    requires (p + 1) * pageSize <= |Filtered(log, search)|
    ensures var f := Filtered(log, search);
            var start := |f| - (p + 1) * pageSize;
            && start + 2 * pageSize <= |f|
            && Page(log, p + 1, pageSize, search) == f[start..start + pageSize]
            && Page(log, p, pageSize, search) == f[start + pageSize..start + 2 * pageSize]
            && Page(log, p + 1, pageSize, search) + Page(log, p, pageSize, search)
               == f[start..start + 2 * pageSize]
  {
    var f := Filtered(log, search);
    var start := |f| - (p + 1) * pageSize;
    assert (p + 1) * pageSize == p * pageSize + pageSize;
    PageInside(log, p + 1, pageSize, search);
    PageInside(log, p, pageSize, search);
    assert f[start..start + pageSize] + f[start + pageSize..start + 2 * pageSize]
        == f[start..start + 2 * pageSize];
  }

  /** Once `page * pageSize` reaches the length of the filtered log the start
      clamps to 0, and every such page is the oldest `min(N, pageSize)`
      entries: pages past the end repeat, they do not run short. */
  lemma PagesPastTheEndRepeat(log: seq<Msg>, page: int, pageSize: int, search: string)
    requires page >= 1 && pageSize >= 1
    requires page * pageSize >= |Filtered(log, search)|
    ensures var f := Filtered(log, search);
            Page(log, page, pageSize, search) == f[..Min(|f|, pageSize)]
  {
    PageWindow(log, page, pageSize, search);
  }

  /** The last page overlaps the one before it: when `(p - 1) * pageSize <
      N < p * pageSize`, the tail of page `p` from index `N - (p - 1) *
      pageSize` on is the head of page `p - 1`, and that overlap is not empty
      whenever `N >= pageSize`. */
  lemma LastPageOverlapsPrevious(log: seq<Msg>, p: int, pageSize: int, search: string)
    requires p >= 2 && pageSize >= 1
    requires (p - 1) * pageSize < |Filtered(log, search)| < p * pageSize
    ensures var f := Filtered(log, search);
            var k := |f| - (p - 1) * pageSize;
            var last := Page(log, p, pageSize, search);
            var previous := Page(log, p - 1, pageSize, search);
            && 0 < k <= |last| && |last| - k <= |previous|
            && last[k..] == previous[..|last| - k]
            && (|f| >= pageSize ==> |last| - k > 0)
  {
    var f := Filtered(log, search);
    var before := (p - 1) * pageSize;
    assert p * pageSize == before + pageSize;
    PagesPastTheEndRepeat(log, p, pageSize, search);
    PageInside(log, p - 1, pageSize, search);
    var k := |f| - before;
    var last := f[..Min(|f|, pageSize)];
    var previous := f[k..k + pageSize];
    assert last[k..] == f[k..|last|];
    assert previous[..|last| - k] == f[k..|last|];
  }

  /** With no page, page size or search term in the query, the endpoint
      answers with the newest 20 messages of the room (all of them when the
      room has fewer), oldest first. */
  lemma QueryDefaults(messages: map<string, seq<Msg>>, room: Option<string>)
    ensures var log := RoomLog.LogOf(messages, OrElse(room, GlobalRoom));
            Query(messages, room, None, None, None) == log[|log| - Min(|log|, 20)..]
  {
    PageOneIsNewest(RoomLog.LogOf(messages, OrElse(room, GlobalRoom)), 20, "");
  }
}
