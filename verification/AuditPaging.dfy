/**
 Walking the audit log by the notes the CLI prints (cmd/showmeshctl/cmd_audit.go), against a log
 that grows at one end and is pruned while the walk goes on (internal/coordinator/store/audit.go).
 */
module AuditPaging {
  import opened Sequences

  const DEFAULT_AUDIT_LIMIT := 100
  const MAX_AUDIT_LIMIT := 500

  datatype Order = Asc | Desc

  /** The retained ids and the highest id ever assigned; ids are positive and never reused. */
  datatype AuditLog = AuditLog(ids: set<int>, highWater: int)

  ghost predicate IsLog(log: AuditLog) {
    forall id :: id in log.ids ==> 0 < id <= log.highWater
  }

  /** Appends take new ids; pruning may remove any rows at all. */
  ghost predicate Evolves(a: AuditLog, b: AuditLog) {
    && a.highWater <= b.highWater
    && forall id :: id in b.ids ==> id in a.ids || a.highWater < id
  }

  /** The log over time: state n is the one that the n-th query of the walk reads. */
  ghost predicate IsHistory(env: nat -> AuditLog) {
    forall n: nat :: IsLog(env(n)) && Evolves(env(n), env(n + 1))
  }

  // ---------------------------------------------------------------------------------------------
  // The server
  // ---------------------------------------------------------------------------------------------

  ghost function Pick<T>(s: set<T>): (x: T)
    requires s != {}
    ensures x in s
  {
    var x :| x in s;
    x
  }

  ghost function Max(s: set<int>): (m: int)
    requires s != {}
    ensures m in s && forall x :: x in s ==> x <= m
  {
    MaxExists(s);
    var m :| m in s && forall x :: x in s ==> x <= m;
    m
  }

  lemma {:induction false} MaxExists(s: set<int>)
    requires s != {}
    ensures exists m :: m in s && forall x :: x in s ==> x <= m
  {
    var x := Pick(s);
    var rest := s - {x};
    if rest != {} {
      MaxExists(rest);
      var m :| m in rest && forall y :: y in rest ==> y <= m;
      var top := if m < x then x else m;
      forall y | y in s
        ensures y <= top
      {
        assert y == x || y in rest;
      }
      assert top in s;
    } else {
      assert forall y :: y in s ==> y == x || y in rest;
    }
  }

  ghost function Negated(s: set<int>): set<int> {
    set x | x in s :: -x
  }

  lemma MinExists(s: set<int>)
    requires s != {}
    ensures exists m :: m in s && forall x :: x in s ==> m <= x
  {
    assert -Pick(s) in Negated(s);
    var m := -Max(Negated(s));
    assert m in s && forall x :: x in s ==> -x in Negated(s);
  }

  ghost function Min(s: set<int>): (m: int)
    requires s != {}
    ensures m in s && forall x :: x in s ==> m <= x
  {
    MinExists(s);
    var m :| m in s && forall x :: x in s ==> m <= x;
    m
  }

  /** ORDER BY id DESC LIMIT n. */
  ghost function Newest(ids: set<int>, n: nat): seq<int> {
    if n == 0 || ids == {} then [] else [Max(ids)] + Newest(ids - {Max(ids)}, n - 1)
  }

  /** ORDER BY id ASC LIMIT n. */
  ghost function Oldest(ids: set<int>, n: nat): seq<int> {
    if n == 0 || ids == {} then [] else [Min(ids)] + Oldest(ids - {Min(ids)}, n - 1)
  }

  /** No bound and a bound of zero both mean "start at the newest". */
  ghost function Below(log: AuditLog, before: Option<int>): set<int> {
    set id | id in log.ids && (before.Some? && before.value > 0 ==> id < before.value)
  }

  ghost function Above(log: AuditLog, since: int): set<int> {
    set id | id in log.ids && since < id
  }

  /** The server refuses a negative bound. */
  predicate ServerTakes(before: Option<int>) {
    before.Some? ==> before.value >= 0
  }

  /** The server refuses a limit below one, defaults an absent one and clamps a large one. */
  function ServerLimit(limit: Option<int>): Option<nat> {
    match limit
    case None => Some(DEFAULT_AUDIT_LIMIT)
    case Some(v) => if v <= 0 then None else Some(if v > MAX_AUDIT_LIMIT then MAX_AUDIT_LIMIT else v)
  }

  datatype Response = Response(order: Order, oldestRetained: Option<int>, entries: seq<int>)

  ghost function OldestRetained(log: AuditLog): Option<int> {
    if log.ids == {} then None else Some(Min(log.ids))
  }

  /** The page and the oldest id come from two queries, between which the log may move. */
  ghost function ServeDesc(first: AuditLog, second: AuditLog, before: Option<int>, n: nat): Response {
    Response(Desc, OldestRetained(second), Newest(Below(first, before), n))
  }

  ghost function ServeAsc(first: AuditLog, second: AuditLog, since: int, n: nat): Response {
    Response(Asc, OldestRetained(second), Oldest(Above(first, since), n))
  }

  // ---------------------------------------------------------------------------------------------
  // The client
  // ---------------------------------------------------------------------------------------------

  function EffectiveAuditLimit(requested: int): nat {
    if requested <= 0 then DEFAULT_AUDIT_LIMIT
    else if requested > MAX_AUDIT_LIMIT then MAX_AUDIT_LIMIT
    else requested
  }

  datatype Note = NoNote | ReachedOldest(id: int) | ContinueBefore(cursor: int) | ContinueSince(cursor: int)

  function AuditPagingNote(resp: Response, requestedLimit: int): Note {
    if resp.entries == [] then NoNote
    else
      var last := resp.entries[|resp.entries| - 1];
      if resp.order == Desc && resp.oldestRetained.Some? && last <= resp.oldestRetained.value then
        ReachedOldest(resp.oldestRetained.value)
      else if |resp.entries| < EffectiveAuditLimit(requestedLimit) then NoNote
      else if resp.order == Desc then ContinueBefore(last)
      else ContinueSince(last)
  }

  function RequestedLimit(limit: Option<int>): int {
    if limit.Some? then limit.value else 0
  }

  /** The client's idea of a full page is the server's, for every query the server accepts: a hundred
      entries, or as many as are asked for up to five hundred. */
  lemma LimitsAgree(limit: Option<int>)
    ensures ServerLimit(limit).None? <==> limit.Some? && limit.value < 1
    ensures ServerLimit(limit).Some? ==>
      && EffectiveAuditLimit(RequestedLimit(limit)) == ServerLimit(limit).value
      && ServerLimit(limit).value == (if limit.None? then 100 else if limit.value < 500 then limit.value else 500)
  {
  }

  // ---------------------------------------------------------------------------------------------
  // Pages
  // ---------------------------------------------------------------------------------------------

  ghost predicate Decreasing(s: seq<int>) {
    forall i, j :: 0 <= i < j < |s| ==> s[i] > s[j]
  }

  ghost predicate Increasing(s: seq<int>) {
    forall i, j :: 0 <= i < j < |s| ==> s[i] < s[j]
  }

  lemma {:induction false} NewestExact(ids: set<int>, n: nat)
    ensures var page := Newest(ids, n);
      && Decreasing(page)
      && (forall id :: id in page ==> id in ids)
      && |page| == (if n < |ids| then n else |ids|)
      && (forall id, k :: id in ids && id !in page && 0 <= k < |page| ==> id < page[k])
      && (|page| < n ==> forall id :: id in ids ==> id in page)
  {
    if n > 0 && ids != {} {
      var rest := ids - {Max(ids)};
      NewestExact(rest, n - 1);
      var page := Newest(rest, n - 1);
      assert forall k :: 0 <= k < |page| ==> page[k] in page;
    }
  }

  lemma {:induction false} OldestExact(ids: set<int>, n: nat)
    ensures var page := Oldest(ids, n);
      && Increasing(page)
      && (forall id :: id in page ==> id in ids)
      && |page| == (if n < |ids| then n else |ids|)
      && (forall id, k :: id in ids && id !in page && 0 <= k < |page| ==> page[k] < id)
      && (|page| < n ==> forall id :: id in ids ==> id in page)
  {
    if n > 0 && ids != {} {
      var rest := ids - {Min(ids)};
      OldestExact(rest, n - 1);
      var page := Oldest(rest, n - 1);
      assert forall k :: 0 <= k < |page| ==> page[k] in page;
    }
  }

  // ---------------------------------------------------------------------------------------------
  // The descending walk
  // ---------------------------------------------------------------------------------------------

  lemma {:induction false} EvolvesOver(env: nat -> AuditLog, i: nat, j: nat)
    requires IsHistory(env) && i <= j
    ensures Evolves(env(i), env(j))
    decreases j - i
  {
    if i < j {
      EvolvesOver(env, i + 1, j);
      assert Evolves(env(i), env(i + 1));
    }
  }

  /** The ids shown, in the order shown, and the number of the last query. */
  datatype Walk = Walk(shown: seq<int>, end: nat)

  ghost function DescPage(env: nat -> AuditLog, i: nat, before: Option<int>, n: nat): Response {
    ServeDesc(env(i), env(i + 1), before, n)
  }

  /** What is left below the printed cursor is strictly less than what was left before. */
  lemma CursorAdvances(env: nat -> AuditLog, i: nat, before: Option<int>, n: nat)
    requires IsHistory(env) && Newest(Below(env(i), before), n) != []
    ensures var page := Newest(Below(env(i), before), n);
      page[|page| - 1] > 0 && Below(env(i + 2), Some(page[|page| - 1])) < Below(env(i), before)
  {
    var page := Newest(Below(env(i), before), n);
    var last := page[|page| - 1];
    NewestExact(Below(env(i), before), n);
    assert last in page;
    EvolvesOver(env, i, i + 2);
    assert last in Below(env(i), before) && last !in Below(env(i + 2), Some(last));
    assert IsLog(env(i));
  }

  /** Follows every printed note from a first request; notes never carry --limit, so each later page
      has the default size. The walk is finite because the ids below its cursor run out. */
  ghost function DescWalk(env: nat -> AuditLog, i: nat, before: Option<int>, limit: Option<int>): Walk
    requires IsHistory(env) && ServerTakes(before) && ServerLimit(limit).Some?
    decreases Below(env(i), before)
  {
    var page := DescPage(env, i, before, ServerLimit(limit).value);
    match AuditPagingNote(page, RequestedLimit(limit))
    case ContinueBefore(cursor) =>
      CursorAdvances(env, i, before, ServerLimit(limit).value);
      var rest := DescWalk(env, i + 2, Some(cursor), None);
      Walk(page.entries + rest.shown, rest.end)
    case _ => Walk(page.entries, i + 1)
  }

  /** No repeats, nothing from outside the request, and nothing missing that is still retained. */
  ghost predicate CompleteWalk(env: nat -> AuditLog, i: nat, before: Option<int>, w: Walk) {
    && i < w.end
    && Decreasing(w.shown)
    && (forall id :: id in w.shown ==> id in env(i).ids && (before.None? || before.value == 0 || id < before.value))
    && (forall id :: id in env(i).ids && id in env(w.end).ids && (before.None? || before.value == 0 || id < before.value) ==>
          id in w.shown)
  }

  /** A page holds everything its request reaches down to its last entry. */
  ghost predicate WholePage(page: seq<int>, reach: set<int>) {
    && Decreasing(page)
    && (forall id :: id in page ==> id in reach)
    && (forall id :: id in reach && id !in page ==> page != [] && id < page[|page| - 1])
  }

  /** The note sends the reader on from the last entry, or there is nothing retained beyond it. */
  lemma PageAndNote(env: nat -> AuditLog, i: nat, before: Option<int>, limit: Option<int>)
    requires IsHistory(env) && ServerTakes(before) && ServerLimit(limit).Some?
    ensures var page := DescPage(env, i, before, ServerLimit(limit).value);
      var note := AuditPagingNote(page, RequestedLimit(limit));
      && WholePage(page.entries, Below(env(i), before))
      && (note.ContinueBefore? ==> page.entries != [] && note.cursor == page.entries[|page.entries| - 1])
      && (!note.ContinueBefore? ==>
            forall id :: id in Below(env(i), before) && id in env(i + 1).ids ==> id in page.entries)
  {
    LimitsAgree(limit);
    NewestExact(Below(env(i), before), ServerLimit(limit).value);
    var page := DescPage(env, i, before, ServerLimit(limit).value).entries;
    if page == [] {
      assert forall id :: id in Below(env(i), before) ==> id in page;
    }
  }

  ghost predicate IsOldest(log: AuditLog, id: int) {
    id in log.ids && forall x :: x in log.ids ==> id <= x
  }

  /** There is something retained below `last`, or nothing at all to compare it with. */
  ghost predicate GoesOn(log: AuditLog, last: int) {
    log.ids == {} || exists x :: x in log.ids && x < last
  }

  /** Each note of a descending page, exactly: the end of history when the page ends at or below the oldest
      id that the second query finds, and that id; otherwise the last id of a full page; otherwise none. */
  lemma DescNoteExactly(env: nat -> AuditLog, i: nat, before: Option<int>, limit: Option<int>, id: int)
    requires IsHistory(env) && ServerTakes(before) && ServerLimit(limit).Some?
    ensures var n := ServerLimit(limit).value;
      var page := DescPage(env, i, before, n);
      var note := AuditPagingNote(page, RequestedLimit(limit));
      && page.entries == Newest(Below(env(i), before), n)
      && (page.entries == [] ==> note == NoNote)
      && (page.entries != [] ==>
            var last := page.entries[|page.entries| - 1];
            && (note == ReachedOldest(id) <==> IsOldest(env(i + 1), id) && last <= id)
            && (note == ContinueBefore(id) <==> GoesOn(env(i + 1), last) && |page.entries| == n && id == last)
            && (note == NoNote <==> GoesOn(env(i + 1), last) && |page.entries| < n))
  {
    LimitsAgree(limit);
    NewestExact(Below(env(i), before), ServerLimit(limit).value);
  }

  /** A whole page followed by a complete walk from its last entry is a complete walk. */
  lemma WalkJoin(env: nat -> AuditLog, i: nat, before: Option<int>, page: seq<int>, rest: Walk)
    requires IsHistory(env) && ServerTakes(before) && page != [] && WholePage(page, Below(env(i), before))
    requires CompleteWalk(env, i + 2, Some(page[|page| - 1]), rest)
    ensures CompleteWalk(env, i, before, Walk(page + rest.shown, rest.end))
  {
    var cursor := page[|page| - 1];
    assert cursor in page;
    EvolvesOver(env, i, i + 2);
    EvolvesOver(env, i + 2, rest.end);
    assert IsLog(env(i)) && IsLog(env(i + 2));
    forall id | id in rest.shown
      ensures id in Below(env(i), before) && id < cursor
    {
      assert id in Below(env(i + 2), Some(cursor));
    }
    assert forall k :: 0 <= k < |rest.shown| ==> rest.shown[k] in rest.shown;
    forall id | id in Below(env(i), before) && id in env(rest.end).ids
      ensures id in page + rest.shown
    {
      if id !in page {
        assert id <= env(i).highWater <= env(i + 2).highWater;
        assert id in Below(env(i + 2), Some(cursor));
      }
    }
  }

  /** The walk by printed cursors, against any appending and pruning: it ends (DescWalk is total),
      its ids strictly decrease, so none repeats, and it shows every entry that its first page could
      have reached and that is still retained when it ends. */
  lemma {:induction false} DescWalkComplete(env: nat -> AuditLog, i: nat, before: Option<int>, limit: Option<int>)
    requires IsHistory(env) && ServerTakes(before) && ServerLimit(limit).Some?
    ensures CompleteWalk(env, i, before, DescWalk(env, i, before, limit))
    decreases Below(env(i), before)
  {
    var page := DescPage(env, i, before, ServerLimit(limit).value);
    PageAndNote(env, i, before, limit);
    var note := AuditPagingNote(page, RequestedLimit(limit));
    if note.ContinueBefore? {
      CursorAdvances(env, i, before, ServerLimit(limit).value);
      DescWalkComplete(env, i + 2, Some(note.cursor), None);
      WalkJoin(env, i, before, page.entries, DescWalk(env, i + 2, Some(note.cursor), None));
    }
  }

  // ---------------------------------------------------------------------------------------------
  // The ascending walk of a log that does not move
  // ---------------------------------------------------------------------------------------------

  lemma SinceAdvances(log: AuditLog, since: int, n: nat)
    requires Oldest(Above(log, since), n) != []
    ensures var page := Oldest(Above(log, since), n);
      Above(log, page[|page| - 1]) < Above(log, since)
  {
    var page := Oldest(Above(log, since), n);
    OldestExact(Above(log, since), n);
    assert page[|page| - 1] in page;
    assert page[|page| - 1] in Above(log, since) && page[|page| - 1] !in Above(log, page[|page| - 1]);
  }

  ghost function AscWalk(log: AuditLog, since: int, limit: Option<int>): seq<int>
    requires ServerLimit(limit).Some?
    decreases Above(log, since)
  {
    var page := ServeAsc(log, log, since, ServerLimit(limit).value);
    match AuditPagingNote(page, RequestedLimit(limit))
    case ContinueSince(cursor) =>
      SinceAdvances(log, since, ServerLimit(limit).value);
      page.entries + AscWalk(log, cursor, None)
    case _ => page.entries
  }

  /** The ascending walk of a quiescent log ends having shown exactly the ids above its start, each
      once, oldest first. */
  lemma {:induction false} AscWalkComplete(log: AuditLog, since: int, limit: Option<int>)
    requires ServerLimit(limit).Some?
    ensures var shown := AscWalk(log, since, limit);
      Increasing(shown) && forall id :: id in shown <==> id in log.ids && since < id
    decreases Above(log, since)
  {
    var page := ServeAsc(log, log, since, ServerLimit(limit).value);
    var note := AuditPagingNote(page, RequestedLimit(limit));
    if note.ContinueSince? {
      SinceAdvances(log, since, ServerLimit(limit).value);
      AscWalkComplete(log, note.cursor, None);
      AscWalkResumes(log, since, limit, note.cursor);
    } else {
      AscLastPage(log, since, limit);
    }
  }

  lemma {:induction false} AscWalkResumes(log: AuditLog, since: int, limit: Option<int>, cursor: int)
    requires ServerLimit(limit).Some?
    requires AuditPagingNote(ServeAsc(log, log, since, ServerLimit(limit).value), RequestedLimit(limit)) == ContinueSince(cursor)
    requires var rest := AscWalk(log, cursor, None);
      Increasing(rest) && forall id :: id in rest <==> id in log.ids && cursor < id
    ensures var shown := AscWalk(log, since, limit);
      Increasing(shown) && forall id :: id in shown <==> id in log.ids && since < id
  {
    var page := Oldest(Above(log, since), ServerLimit(limit).value);
    SinceAdvances(log, since, ServerLimit(limit).value);
    AscPage(log, since, ServerLimit(limit).value);
    AscJoin(log, since, page, AscWalk(log, cursor, None));
  }

  lemma AscLastPage(log: AuditLog, since: int, limit: Option<int>)
    requires ServerLimit(limit).Some?
    requires !AuditPagingNote(ServeAsc(log, log, since, ServerLimit(limit).value), RequestedLimit(limit)).ContinueSince?
    ensures var page := Oldest(Above(log, since), ServerLimit(limit).value);
      Increasing(page) && forall id :: id in page <==> id in log.ids && since < id
  {
    LimitsAgree(limit);
    OldestExact(Above(log, since), ServerLimit(limit).value);
    assert forall id :: id in Above(log, since) <==> id in log.ids && since < id;
  }

  /** A page is everything above its start down to its last id. */
  lemma AscPage(log: AuditLog, since: int, n: nat)
    requires Oldest(Above(log, since), n) != []
    ensures var page := Oldest(Above(log, since), n);
      var last := page[|page| - 1];
      Increasing(page) && forall id :: id in page <==> id in log.ids && since < id <= last
  {
    OldestExact(Above(log, since), n);
    var page := Oldest(Above(log, since), n);
    var last := page[|page| - 1];
    assert last in page;
    forall id
      ensures id in page <==> id in log.ids && since < id <= last
    {
      if id in page {
        var k :| 0 <= k < |page| && page[k] == id;
        assert id in Above(log, since);
      } else if id in Above(log, since) {
        assert last < id;
      }
    }
  }

  lemma AscJoin(log: AuditLog, since: int, page: seq<int>, rest: seq<int>)
    requires page != [] && Increasing(page) && Increasing(rest)
    requires forall id :: id in page <==> id in log.ids && since < id <= page[|page| - 1]
    requires forall id :: id in rest <==> id in log.ids && page[|page| - 1] < id
    ensures Increasing(page + rest)
    ensures forall id :: id in page + rest <==> id in log.ids && since < id
  {
    var last := page[|page| - 1];
    assert last in page;
    forall k | 0 <= k < |rest|
      ensures last < rest[k]
    {
      assert rest[k] in rest;
    }
    forall k | 0 <= k < |page|
      ensures page[k] <= last
    {
      assert page[k] in page;
    }
  }

  // ---------------------------------------------------------------------------------------------
  // The ascending walk of a log that moves
  // ---------------------------------------------------------------------------------------------

  /** The first pages of a walk: the ids shown, the last of them (or the start), the number of the last
      query, and whether its page printed no note to go on. */
  datatype Trail = Trail(shown: seq<int>, cursor: int, last: nat, done: bool)

  /** Follows the printed notes for at most `pages` more pages. New entries can keep the notes coming
      for ever, so the number of pages bounds it. */
  ghost function AscTrail(env: nat -> AuditLog, i: nat, since: int, limit: Option<int>, pages: nat): Trail
    requires ServerLimit(limit).Some?
    decreases pages
  {
    var page := ServeAsc(env(i), env(i + 1), since, ServerLimit(limit).value);
    match AuditPagingNote(page, RequestedLimit(limit))
    case ContinueSince(cursor) =>
      if pages == 0 then Trail(page.entries, cursor, i, false)
      else
        var rest := AscTrail(env, i + 2, cursor, None, pages - 1);
        Trail(page.entries + rest.shown, rest.cursor, rest.last, rest.done)
    case _ =>
      Trail(page.entries, if page.entries == [] then since else page.entries[|page.entries| - 1], i, true)
  }

  /** In order, from the span walked, and everything of that span still retained at the last query. */
  ghost predicate SpanShown(log: AuditLog, since: int, cursor: int, shown: seq<int>) {
    && since <= cursor
    && Increasing(shown)
    && (forall id :: id in shown ==> since < id <= cursor)
    && (forall id :: id in log.ids && since < id <= cursor ==> id in shown)
  }

  /** What a trail should have shown; one that ends for want of a note left nothing above its cursor. */
  ghost predicate GoodTrail(env: nat -> AuditLog, i: nat, since: int, w: Trail) {
    && i <= w.last
    && SpanShown(env(w.last), since, w.cursor, w.shown)
    && (w.done ==> forall id :: id in env(w.last).ids && since < id ==> id <= w.cursor)
  }

  /** However the log grows and is pruned meanwhile, after any number of pages the ids shown strictly
      increase, and everything between the start and the cursor that is still retained at the last
      query has been shown; and a walk that ends for want of a note has left nothing above its cursor. */
  lemma {:induction false} AscTrailComplete(env: nat -> AuditLog, i: nat, since: int, limit: Option<int>, pages: nat)
    requires IsHistory(env) && ServerLimit(limit).Some?
    ensures GoodTrail(env, i, since, AscTrail(env, i, since, limit, pages))
    decreases pages
  {
    AscTrailStep(env, i, since, limit, pages);
    var n := ServerLimit(limit).value;
    if |Oldest(Above(env(i), since), n)| == n && pages > 0 {
      var cursor := Oldest(Above(env(i), since), n)[n - 1];
      AscTrailComplete(env, i + 2, cursor, None, pages - 1);
      TrailGoesOn(env, i, since, n, AscTrail(env, i + 2, cursor, None, pages - 1));
    } else {
      TrailStops(env, i, since, n);
    }
  }

  lemma TrailStops(env: nat -> AuditLog, i: nat, since: int, n: nat)
    requires n > 0
    ensures var page := Oldest(Above(env(i), since), n);
      && (|page| < n ==> GoodTrail(env, i, since, Trail(page, if page == [] then since else page[|page| - 1], i, true)))
      && (|page| == n ==> GoodTrail(env, i, since, Trail(page, page[n - 1], i, false)))
  {
    if |Oldest(Above(env(i), since), n)| < n {
      ShortPage(env(i), since, n);
    } else if |Oldest(Above(env(i), since), n)| == n {
      FullPage(env(i), since, n);
    }
  }

  lemma TrailGoesOn(env: nat -> AuditLog, i: nat, since: int, n: nat, rest: Trail)
    requires IsHistory(env) && n > 0 && |Oldest(Above(env(i), since), n)| == n
    requires GoodTrail(env, i + 2, Oldest(Above(env(i), since), n)[n - 1], rest)
    ensures var page := Oldest(Above(env(i), since), n);
      GoodTrail(env, i, since, Trail(page + rest.shown, rest.cursor, rest.last, rest.done))
  {
    FullPage(env(i), since, n);
    TrailJoin(env, i, since, Oldest(Above(env(i), since), n), rest);
  }

  lemma AscTrailStep(env: nat -> AuditLog, i: nat, since: int, limit: Option<int>, pages: nat)
    requires ServerLimit(limit).Some?
    ensures var n := ServerLimit(limit).value;
      var page := Oldest(Above(env(i), since), n);
      && n > 0 && |page| <= n
      && AscTrail(env, i, since, limit, pages) ==
           if |page| < n then Trail(page, if page == [] then since else page[|page| - 1], i, true)
           else if pages == 0 then Trail(page, page[n - 1], i, false)
           else
             var rest := AscTrail(env, i + 2, page[n - 1], None, pages - 1);
             Trail(page + rest.shown, rest.cursor, rest.last, rest.done)
  {
    AscNote(env(i), env(i + 1), since, limit);
  }

  /** An ascending page prints a note exactly when it is full, and the note resumes at its last id. */
  lemma AscNote(first: AuditLog, second: AuditLog, since: int, limit: Option<int>)
    requires ServerLimit(limit).Some?
    ensures var n := ServerLimit(limit).value;
      var page := Oldest(Above(first, since), n);
      && n > 0 && |page| <= n
      && AuditPagingNote(ServeAsc(first, second, since, n), RequestedLimit(limit)) ==
           if |page| == n then ContinueSince(page[n - 1]) else NoNote
  {
    LimitsAgree(limit);
    OldestExact(Above(first, since), ServerLimit(limit).value);
  }

  lemma FullPage(log: AuditLog, since: int, n: nat)
    requires Oldest(Above(log, since), n) != []
    ensures var page := Oldest(Above(log, since), n);
      page[|page| - 1] in log.ids && SpanShown(log, since, page[|page| - 1], page)
  {
    AscPage(log, since, n);
    var page := Oldest(Above(log, since), n);
    assert page[|page| - 1] in page;
  }

  /** A page that is not full is the whole span above its start. */
  lemma ShortPage(log: AuditLog, since: int, n: nat)
    requires |Oldest(Above(log, since), n)| < n
    ensures var page := Oldest(Above(log, since), n);
      var cursor := if page == [] then since else page[|page| - 1];
      SpanShown(log, since, cursor, page) && forall id :: id in log.ids && since < id ==> id <= cursor
  {
    OldestExact(Above(log, since), n);
    assert forall id :: id in log.ids && since < id ==> id in Above(log, since);
    if Oldest(Above(log, since), n) != [] {
      AscPage(log, since, n);
      var page := Oldest(Above(log, since), n);
      assert page[|page| - 1] in page;
    }
  }

  /** No entry can appear later at or below an id already shown: new ids lie above all earlier ones. */
  lemma TrailJoin(env: nat -> AuditLog, i: nat, since: int, page: seq<int>, rest: Trail)
    requires IsHistory(env) && page != [] && page[|page| - 1] in env(i).ids
    requires SpanShown(env(i), since, page[|page| - 1], page)
    requires GoodTrail(env, i + 2, page[|page| - 1], rest)
    ensures GoodTrail(env, i, since, Trail(page + rest.shown, rest.cursor, rest.last, rest.done))
  {
    var last := page[|page| - 1];
    assert last in page;
    EvolvesOver(env, i, rest.last);
    assert IsLog(env(i));
    assert forall k :: 0 <= k < |rest.shown| ==> rest.shown[k] in rest.shown;
    assert forall k :: 0 <= k < |page| ==> page[k] in page;
  }
}
