/**
 * The admin command handlers: each validates its submitted fields, runs one store
 * operation and answers with a success or an error message. Submitted numbers
 * arrive here already cast to integers; a field that was not submitted is None
 * where the handler gives it a default, and 0 where the cast gives it one.
 */
module Ajax {
  import opened Wrappers
  import opened PhpStrings
  import opened Records
  import opened Table
  import opened UrlLog
  import opened Database
  import opened RequestLogger

  /** The JSON answer of a handler. */
  datatype Reply =
    | Failure(message: string)
    | Done(message: string)
    | Toggled(blocked: bool, counts: StatusCounts)
    | Updated(count: int, counts: StatusCounts)
    | Cleared(exceptBlocked: bool, counts: StatusCounts)
    | Shown(view: DetailView)

  /** The status shown for a row. */
  datatype Status = Allowed | Blocked | RateLimited

  /** The derived fields of the detail view, beside the row itself. */
  datatype DetailView = DetailView(row: HostRecord, status: Status, source: Attribution, urls: seq<string>)

  const InvalidRequest: string := "Invalid request"
  const NotFound: string := "Request not found"
  const InvalidAction: string := "Invalid action"
  const ActionFailed: string := "Action failed"
  const InvalidMode: string := "Invalid mode"

  // ---------------------------------------------------------------------------
  // Derived fields of the detail view
  // ---------------------------------------------------------------------------

  /** A positive rate-limit interval shows as rate limited, ahead of the block flag. */
  function StatusOf(x: HostRecord): (s: Status)
    ensures s == RateLimited <==> x.rateLimitInterval > 0
    ensures s == Blocked <==> x.rateLimitInterval <= 0 && x.isBlocked
    ensures s == Allowed <==> x.rateLimitInterval <= 0 && !x.isBlocked
  {
    if x.rateLimitInterval > 0 then RateLimited
    else if x.isBlocked then Blocked
    else Allowed
  }

  /** The URL list of the detail view: empty unless tracking is on and the log is not empty. */
  function UrlsList(track: bool, log: string): (urls: seq<string>)
    ensures forall u :: u in urls ==> IsEntry(u)
    ensures !track ==> urls == []
  {
    if track && !Falsy(log) then Entries(log) else []
  }

  /** The emptiness test is only a shortcut: with tracking on the list is what the log holds. */
  lemma UrlsListIsEntries(track: bool, log: string)
    ensures UrlsList(track, log) == if track then Entries(log) else []
  {
    if Falsy(log) {
      FalsyLogIsEmpty(log);
    }
  }

  /** After a tracked call with room for a URL, the detail view of its row lists that URL. */
  lemma UrlsListShowsLoggedUrl(stored: string, url: string, maxUrls: int)
    requires IsEntry(url) && maxUrls >= 1
    ensures url in UrlsList(true, NextLog(stored, url, maxUrls))
  {
    NextLogListsUrl(stored, url, maxUrls);
    UrlsListIsEntries(true, NextLog(stored, url, maxUrls));
  }

  /** The detail view of a row. */
  function ViewOf(x: HostRecord, track: bool): (v: DetailView)
    ensures v.row == x && v.status == StatusOf(x)
    ensures v.source == Attribute(x.sourcePlugin, x.sourceTheme)
    ensures v.urls == UrlsList(track, x.urlsLog)
  {
    DetailView(x, StatusOf(x), Attribute(x.sourcePlugin, x.sourceTheme), UrlsList(track, x.urlsLog))
  }

  /** `get_detail`: id 0 is invalid, a missing or soft-deleted row is not found; nothing changes. */
  function GetDetail(store: HostStore, id: int, track: bool): (r: Reply)
    reads store
    ensures id == 0 ==> r == Failure(InvalidRequest)
    ensures id != 0 && store.Detail(id).None? ==> r == Failure(NotFound)
    ensures id != 0 && store.Detail(id).Some? ==> r == Shown(ViewOf(store.Detail(id).value, track))
    ensures r.Shown? ==> r.view.row in store.rows && r.view.row.id == id && !r.view.row.isDeleted
  {
    if id == 0 then Failure(InvalidRequest)
    else match store.Detail(id)
      case None => Failure(NotFound)
      case Some(x) => Shown(ViewOf(x, track))
  }

  // ---------------------------------------------------------------------------
  // Handlers that change the store
  // ---------------------------------------------------------------------------

  /**
   * `toggle_block`: the live row with the id gets the opposite block flag; every
   * other column and every other row stay as they were.
   */
  method ToggleBlock(store: HostStore, id: int) returns (r: Reply)
    requires store.Valid()
    modifies store`rows
    ensures store.Valid()
    ensures id == 0 ==> r == Failure(InvalidRequest) && store.rows == old(store.rows)
    ensures id != 0 && old(store.Detail(id)).None? ==> r == Failure(NotFound) && store.rows == old(store.rows)
    ensures id != 0 && old(store.Detail(id)).Some? ==>
      var x := old(store.Detail(id)).value;
      r == Toggled(!x.isBlocked, store.Counts())
      && store.rows == UpdateWhere(old(store.rows), HasId(id), SetBlocked(!x.isBlocked))
  {
    if id == 0 {
      return Failure(InvalidRequest);
    }
    var request := store.Detail(id);
    if request.None? {
      return Failure(NotFound);
    }
    var newStatus := !request.value.isBlocked;
    store.UpdateRequestBlocked(id, newStatus);
    return Toggled(newStatus, store.Counts());
  }

  /** Toggling flips exactly one row's flag: the row with the id; all other rows are unchanged. */
  lemma ToggleFlipsOneRow(rows: seq<HostRecord>, nextId: int, x: HostRecord)
    requires WellFormed(rows, nextId) && x in rows
    ensures var after := UpdateWhere(rows, HasId(x.id), SetBlocked(!x.isBlocked));
      |after| == |rows|
      && forall i :: 0 <= i < |rows| ==>
           if rows[i] == x then after[i] == x.(isBlocked := !x.isBlocked) else after[i] == rows[i]
  {
    var after := UpdateWhere(rows, HasId(x.id), SetBlocked(!x.isBlocked));
    forall i | 0 <= i < |rows|
      ensures if rows[i] == x then after[i] == x.(isBlocked := !x.isBlocked) else after[i] == rows[i]
    {
      if rows[i].id == x.id {
        SameKeySameRow(rows, rows[i], x);
      }
    }
  }

  /**
   * The delete loop of the bulk handler: `delete_request(id, true)` for each
   * submitted id in turn, without clearing the block or the rate limit first, so
   * each audit row keeps the row's block flag.
   */
  method DeleteEach(store: HostStore, ids: seq<int>, now: int, user: int)
    requires store.Valid()
    modifies store`rows, store`deleted
    ensures store.Valid()
    ensures store.rows == Where(old(store.rows), IdNotIn(ids))
    ensures store.deleted == old(store.deleted) + Map(Picked(old(store.rows), ids), Audit(now, user))
  {
    ghost var rows0 := store.rows;
    ghost var deleted0 := store.deleted;
    WhereAll(rows0, IdNotIn(ids[..0]));
    var k := 0;
    while k < |ids|
      invariant 0 <= k <= |ids|
      invariant store.Valid()
      invariant store.rows == Where(rows0, IdNotIn(ids[..k]))
      invariant store.deleted == deleted0 + Map(Picked(rows0, ids[..k]), Audit(now, user))
    {
      DeleteLoopStep(rows0, ids, k, deleted0, Audit(now, user));
      var _ := store.DeleteRequest(ids[k], true, now, user);
      k := k + 1;
    }
    assert ids[..k] == ids;
  }

  /**
   * The audit rows of the handler's delete loop: exactly one per row whose id was
   * submitted, each with the row's host, URL and block flag.
   */
  lemma DeleteEachAudits(rows: seq<HostRecord>, nextId: int, ids: seq<int>, now: int, user: int)
    requires WellFormed(rows, nextId)
    ensures forall x :: x in rows && x.id in ids ==> AuditOf(x, now, user) in Map(Picked(rows, ids), Audit(now, user))
    ensures forall x :: x in rows && x.id !in ids ==> x in Where(rows, IdNotIn(ids))
  {
    forall x | x in rows && x.id in ids
      ensures AuditOf(x, now, user) in Map(Picked(rows, ids), Audit(now, user))
    {
      PickedCovers(rows, ids, x);
      var picked := Picked(rows, ids);
      var i :| 0 <= i < |picked| && picked[i] == x;
      MapAt(picked, Audit(now, user), i);
    }
  }

  /** `bulk_action` (handler): validation, then its own delete loop or the store's bulk action. */
  method BulkAction(store: HostStore, ids: seq<int>, action: string, now: int, user: int) returns (r: Reply)
    requires store.Valid()
    modifies store`rows, store`deleted
    ensures store.Valid()
    ensures ids == [] || Falsy(action) ==>
      r == Failure(InvalidRequest) && store.rows == old(store.rows) && store.deleted == old(store.deleted)
    ensures ids != [] && !Falsy(action) && action !in BulkActions ==>
      r == Failure(InvalidAction) && store.rows == old(store.rows) && store.deleted == old(store.deleted)
    ensures ids != [] && action == "delete" ==>
      r == Updated(|ids|, store.Counts())
      && store.rows == Where(old(store.rows), IdNotIn(ids))
      && store.deleted == old(store.deleted) + Map(Picked(old(store.rows), ids), Audit(now, user))
    ensures ids != [] && action in {"block", "unblock", "restore"} && NonZero(ids) == [] ==>
      r == Failure(ActionFailed) && store.rows == old(store.rows) && store.deleted == old(store.deleted)
    ensures ids != [] && action in {"block", "unblock", "restore"} && NonZero(ids) != [] ==>
      r == Updated(|ids|, store.Counts()) && store.deleted == old(store.deleted)
      && store.rows == UpdateWhere(old(store.rows), IdIn(NonZero(ids)),
                                   if action == "restore" then SetDeleted(false) else SetBlocked(action == "block"))
  {
    if ids == [] || Falsy(action) {
      return Failure(InvalidRequest);
    }
    if action !in BulkActions {
      return Failure(InvalidAction);
    }
    if action == "delete" {
      DeleteEach(store, ids, now, user);
      return Updated(|ids|, store.Counts());
    }
    var ok := store.BulkAction(ids, action, now, user);
    if ok {
      return Updated(|ids|, store.Counts());
    }
    return Failure(ActionFailed);
  }

  /** The clear modes; a mode that was not submitted means all. */
  function ClearModeOf(mode: Option<string>): (r: Option<bool>)
    ensures mode.None? ==> r == Some(false)
    ensures r == Some(true) <==> mode == Some("except_blocked")
    ensures r == Some(false) <==> mode.None? || mode == Some("all")
  {
    match mode
    case None => Some(false)
    case Some(m) =>
      if m == "except_blocked" then Some(true)
      else if m == "all" then Some(false)
      else None
  }

  /** `clear_logs`: dispatch on the mode; an unknown mode is an error and changes nothing. */
  method ClearLogs(store: HostStore, mode: Option<string>, now: int, user: int) returns (r: Reply)
    requires store.Valid()
    modifies store`rows, store`deleted
    ensures store.Valid()
    ensures ClearModeOf(mode).None? ==>
      r == Failure(InvalidMode) && store.rows == old(store.rows) && store.deleted == old(store.deleted)
    ensures ClearModeOf(mode) == Some(true) ==>
      r == Cleared(true, store.Counts())
      && store.rows == Where(old(store.rows), Not(LiveAllowed))
      && store.deleted == old(store.deleted) + Map(Where(old(store.rows), LiveAllowed), Audit(now, user))
    ensures ClearModeOf(mode) == Some(false) ==>
      r == Cleared(false, store.Counts())
      && store.rows == Where(old(store.rows), IsSoftDeleted)
      && store.deleted == old(store.deleted) + Map(Where(old(store.rows), IsLive), Audit(now, user))
      && store.Counts() == StatusCounts(0, 0, 0)
  {
    var m := if mode.None? then "all" else mode.value;
    if m == "except_blocked" {
      store.ClearAllLogs(true, now, user);
      return Cleared(true, store.Counts());
    } else if m == "all" {
      store.ClearAllLogs(false, now, user);
      return Cleared(false, store.Counts());
    }
    return Failure(InvalidMode);
  }

  /** `max(0, v)`. */
  function NonNegative(v: int): (r: int)
    ensures r >= 0 && r >= v
    ensures v >= 0 ==> r == v
  {
    if v > 0 then v else 0
  }

  /** `update_rate_limit`: id 0 is an error; otherwise the row with the id, deleted or not, gets the clamped limit. */
  method UpdateRateLimit(store: HostStore, id: int, interval: int, calls: int) returns (r: Reply)
    requires store.Valid()
    modifies store`rows
    ensures store.Valid()
    ensures id == 0 ==> r == Failure(InvalidRequest) && store.rows == old(store.rows)
    ensures id != 0 ==>
      r == Done("Rate limit updated")
      && store.rows == UpdateWhere(old(store.rows), HasId(id), SetRateLimit(NonNegative(interval), NonNegative(calls)))
  {
    if id == 0 {
      return Failure(InvalidRequest);
    }
    var f := SetRateLimit(NonNegative(interval), NonNegative(calls));
    ColumnUpdatesKeepKeys(false, NonNegative(interval), NonNegative(calls));
    UpdateWhereWellFormed(store.rows, HasId(id), f, store.nextId);
    store.rows := UpdateWhere(store.rows, HasId(id), f);
    return Done("Rate limit updated");
  }

  /** A rate-limit update never stores a negative interval or call count, and touches only the row with the id. */
  lemma RateLimitStoredNonNegative(rows: seq<HostRecord>, id: int, interval: int, calls: int)
    requires forall x :: x in rows ==> x.rateLimitInterval >= 0 && x.rateLimitCalls >= 0
    ensures var after := UpdateWhere(rows, HasId(id), SetRateLimit(NonNegative(interval), NonNegative(calls)));
      (forall x :: x in after ==> x.rateLimitInterval >= 0 && x.rateLimitCalls >= 0)
      && forall i :: 0 <= i < |rows| && rows[i].id != id ==> after[i] == rows[i]
  {
    var after := UpdateWhere(rows, HasId(id), SetRateLimit(NonNegative(interval), NonNegative(calls)));
    forall x | x in after ensures x.rateLimitInterval >= 0 && x.rateLimitCalls >= 0 {
      var i :| 0 <= i < |after| && after[i] == x;
      assert rows[i] in rows;
    }
  }

  /** `restore_deleted`: id 0 is an error; otherwise the row with the id is live again. */
  method RestoreDeleted(store: HostStore, id: int) returns (r: Reply)
    requires store.Valid()
    modifies store`rows
    ensures store.Valid()
    ensures id == 0 ==> r == Failure(InvalidRequest) && store.rows == old(store.rows)
    ensures id != 0 ==>
      r == Done("Item restored") && store.rows == UpdateWhere(old(store.rows), HasId(id), SetDeleted(false))
  {
    if id == 0 {
      return Failure(InvalidRequest);
    }
    ColumnUpdatesKeepKeys(false, 0, 0);
    UpdateWhereWellFormed(store.rows, HasId(id), SetDeleted(false), store.nextId);
    store.rows := UpdateWhere(store.rows, HasId(id), SetDeleted(false));
    return Done("Item restored");
  }

  /** A restored row shows up in the detail view again, with everything else it held. */
  lemma RestoreShowsRow(rows: seq<HostRecord>, nextId: int, x: HostRecord)
    requires WellFormed(rows, nextId) && x in rows
    ensures First(UpdateWhere(rows, HasId(x.id), SetDeleted(false)), LiveWithId(x.id)) == Some(x.(isDeleted := false))
  {
    var after := UpdateWhere(rows, HasId(x.id), SetDeleted(false));
    var i :| 0 <= i < |rows| && rows[i] == x;
    assert after[i] == x.(isDeleted := false);
    assert after[i] in after;
    var found := First(after, LiveWithId(x.id));
    var j :| 0 <= j < |after| && after[j] == found.value;
    if rows[j].id == x.id {
      SameKeySameRow(rows, rows[j], x);
    }
  }

  // ---------------------------------------------------------------------------
  // Interceptor and admin forms together
  // ---------------------------------------------------------------------------

  /**
   * A rate limit set on a host that has been called before takes effect one call
   * late: the check records no time while the host has no limit, so the first call
   * after the limit is set finds nothing remembered and goes through. Only the call
   * after that one is refused with 429 (and the host blocked), and the next one
   * with 403.
   */
  method RateLimitWalkthrough(t: int) returns (d1: Decision, d2: Decision, d3: Decision, d4: Decision)
    ensures d1 == Proceed && d2 == Proceed && d3 == TooManyRequests && d4 == Forbidden
  {
    var store := new HostStore();
    var cfg := Config(false, 10, false, 65536, 30, true);
    var site := "example.org";
    var host := "api.example.net";
    var url := "https://api.example.net/v1";
    var src := Source("", "", "");
    assert !Skipped(host, site);
    d1 := InterceptRequest(store, cfg, site, host, url, EmptyArgs, src, t);
    var first := NewRow(1, host, "GET", url, RequestLineSize, src, false, t);
    assert store.rows == [first];
    var _ := UpdateRateLimit(store, 1, 60, 0);
    assert store.rows == [first.(rateLimitInterval := 60, rateLimitCalls := 0)];
    d2, d3, d4 := CallsAfterNewLimit(store, cfg, site, host, url, src, t + 1);
  }

  /**
   * Three calls one second apart to a host whose only row is live, unblocked and
   * newly limited to more than one second, with no time remembered: the first goes
   * through and is recorded, the second is refused with 429 and blocks the host,
   * the third is refused with 403.
   */
  method CallsAfterNewLimit(store: HostStore, cfg: Config, site: string, host: string, url: string,
                            src: Source, t: int) returns (d2: Decision, d3: Decision, d4: Decision)
    requires store.Valid() && !Skipped(host, site)
    requires |store.rows| == 1 && store.rows[0].host == host && store.rows[0].requestMethod == "GET"
    requires store.rows[0].rateLimitInterval > 1 && !store.rows[0].isBlocked && !store.rows[0].isDeleted
    requires host !in store.rateLimits
    modifies store`rows, store`nextId, store`rateLimits, store`notifications
    ensures d2 == Proceed && d3 == TooManyRequests && d4 == Forbidden
  {
    d2 := InterceptRequest(store, cfg, site, host, url, EmptyArgs, src, t);
    assert store.rateLimits == old(store.rateLimits)[host := t];
    assert |store.rows| == 1 && store.rows[0].rateLimitInterval > 1 && !store.rows[0].isBlocked
        && !store.rows[0].isDeleted && store.rows[0].host == host;
    d3 := InterceptRequest(store, cfg, site, host, url, EmptyArgs, src, t + 1);
    d4 := InterceptRequest(store, cfg, site, host, url, EmptyArgs, src, t + 2);
  }
}
