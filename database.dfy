/**
 * The plugin's store: the requests table, the deleted-requests audit table, and the
 * two transients the request path keeps (the per-host time of the last permitted
 * call, and the notification list). The operations of `ERM_Database` are the
 * methods of `HostStore`; each states its new state through the statements of
 * `Table`, and the lemmas below say what those statements amount to.
 */
module Database {
  import opened Wrappers
  import opened PhpStrings
  import opened Records
  import opened Table

  // ---------------------------------------------------------------------------
  // The dashboard listing
  // ---------------------------------------------------------------------------

  /** `needle` occurs in `hay` as a contiguous piece (`LIKE '%needle%'`). */
  predicate Contains(hay: string, needle: string)
    decreases |hay|
  {
    needle <= hay || (hay != [] && Contains(hay[1..], needle))
  }

  /** The search condition of the listing: none for an empty term, else the chosen column(s). */
  predicate MatchesSearch(x: HostRecord, search: string, searchBy: string)
  {
    Falsy(search) ||
    (if searchBy == "host" then Contains(x.host, search)
     else if searchBy == "url" then Contains(x.urlExample, search)
     else if searchBy == "plugin" then Contains(x.sourcePlugin, search)
     else if searchBy == "theme" then Contains(x.sourceTheme, search)
     else (Contains(x.host, search) || Contains(x.urlExample, search)
       || Contains(x.sourcePlugin, search) || Contains(x.sourceTheme, search)))
  }

  /** The WHERE clause of the listing: live rows, the status filter, the search. */
  function Listed(filter: string, search: string, searchBy: string): HostRecord -> bool
  {
    (x: HostRecord) =>
      !x.isDeleted
      && (filter == "blocked" ==> x.isBlocked)
      && (filter == "allowed" ==> !x.isBlocked)
      && MatchesSearch(x, search, searchBy)
  }

  /**
   * `LIMIT limit OFFSET offset`: the run of at most `limit` rows starting at
   * `offset`. A negative limit or offset makes the query fail, which the listing
   * sees as no rows.
   */
  function Window(xs: seq<HostRecord>, offset: int, limit: int): (r: seq<HostRecord>)
    ensures offset < 0 || limit < 0 ==> r == []
    ensures 0 <= offset && 0 <= limit ==>
      |r| == (if offset >= |xs| then 0 else if |xs| - offset < limit then |xs| - offset else limit)
    ensures forall i :: 0 <= i < |r| ==> 0 <= offset && offset + i < |xs| && r[i] == xs[offset + i]
  {
    if offset < 0 || limit < 0 || offset >= |xs| then []
    else if |xs| - offset < limit then xs[offset..]
    else xs[offset..offset + limit]
  }

  /** One page of the listing and the number of rows matching in all. */
  datatype Page = Page(total: nat, data: seq<HostRecord>)

  /** The ids with the falsy ones (0) dropped, in order (`array_filter`). */
  function NonZero(ids: seq<int>): (r: seq<int>)
    ensures |r| <= |ids|
    ensures forall i :: i in r <==> i in ids && i != 0
  {
    if ids == [] then []
    else (if ids[0] != 0 then [ids[0]] else []) + NonZero(ids[1..])
  }

  /** The actions `bulk_action` knows. */
  const BulkActions: set<string> := {"block", "unblock", "delete", "restore"}

  // ---------------------------------------------------------------------------
  // The store
  // ---------------------------------------------------------------------------

  class HostStore {
    /** The requests table, in table order. */
    var rows: seq<HostRecord>
    /** The deleted-requests audit table, in insertion order. */
    var deleted: seq<DeletedRecord>
    /** The AUTO_INCREMENT counter of the requests table. */
    var nextId: int
    /** The `erm_rate_limit_<md5(host)>` transients: the time of the last permitted call per host. */
    var rateLimits: map<string, int>
    /** The `erm_pro_notifications` transient. */
    var notifications: seq<Notification>

    /** The schema's keys hold and every id was handed out by the counter. */
    ghost predicate Valid()
      reads this
    {
      WellFormed(rows, nextId)
    }

    /** A freshly installed store: both tables and both transients empty. */
    constructor ()
      ensures Valid()
      ensures rows == [] && deleted == [] && nextId == 1 && rateLimits == map[] && notifications == []
    {
      rows := [];
      deleted := [];
      nextId := 1;
      rateLimits := map[];
      notifications := [];
    }

    /**
     * `count_by_status`: only live rows are counted, and every live row is either
     * blocked or allowed.
     */
    function Counts(): (c: StatusCounts)
      reads this
      ensures c.total == c.blocked + c.allowed
      ensures c.total == |Where(rows, IsLive)|
      ensures c.blocked == |Where(rows, LiveBlocked)| && c.allowed == |Where(rows, LiveAllowed)|
    {
      WherePartition(rows, IsLive, LiveBlocked, LiveAllowed);
      StatusCounts(|Where(rows, IsLive)|, |Where(rows, LiveBlocked)|, |Where(rows, LiveAllowed)|)
    }

    /** `get_request_detail`: the live row with this id, if there is one. */
    function Detail(id: int): (r: Option<HostRecord>)
      reads this
      ensures r.Some? ==> r.value in rows && r.value.id == id && !r.value.isDeleted
      ensures r.None? <==> forall x :: x in rows ==> x.id != id || x.isDeleted
    {
      First(rows, LiveWithId(id))
    }

    /**
     * `get_requests`: the number of live rows passing the status filter and the
     * search, and the page of them starting at `(paged - 1) * perPage`. No row of
     * the page is soft-deleted or fails the filter.
     */
    function Requests(filter: string, search: string, searchBy: string, perPage: int, paged: int): (page: Page)
      reads this
      ensures page.total == |Where(rows, Listed(filter, search, searchBy))|
      ensures page.data == Window(Where(rows, Listed(filter, search, searchBy)), (paged - 1) * perPage, perPage)
      ensures forall x :: x in page.data ==> x in rows && !x.isDeleted && MatchesSearch(x, search, searchBy)
      ensures filter == "blocked" ==> forall x :: x in page.data ==> x.isBlocked
      ensures filter == "allowed" ==> forall x :: x in page.data ==> !x.isBlocked
      ensures 0 <= perPage ==> |page.data| <= perPage
    {
      var matching := Where(rows, Listed(filter, search, searchBy));
      var data := Window(matching, (paged - 1) * perPage, perPage);
      assert forall x :: x in data ==> x in matching by {
        forall x | x in data ensures x in matching {
          var i :| 0 <= i < |data| && data[i] == x;
        }
      }
      Page(|matching|, data)
    }

    /** `update_request_blocked`: the flag of the row with this id, deleted or not. */
    method UpdateRequestBlocked(id: int, blocked: bool)
      requires Valid()
      modifies this`rows
      ensures Valid()
      ensures rows == UpdateWhere(old(rows), HasId(id), SetBlocked(blocked))
    {
      ColumnUpdatesKeepKeys(blocked, 0, 0);
      UpdateWhereWellFormed(rows, HasId(id), SetBlocked(blocked), nextId);
      rows := UpdateWhere(rows, HasId(id), SetBlocked(blocked));
    }

    /**
     * `delete_request`: a missing id is refused and nothing is written. Otherwise one
     * audit row copies the row's host, URL and flag, and the row is removed (hard)
     * or marked deleted (soft). The lookup ignores the deleted flag.
     */
    method DeleteRequest(id: int, hard: bool, now: int, user: int) returns (ok: bool)
      requires Valid()
      modifies this`rows, this`deleted
      ensures Valid()
      ensures ok <==> First(old(rows), HasId(id)).Some?
      ensures !ok ==> rows == old(rows) && deleted == old(deleted)
      ensures ok ==> deleted == old(deleted) + [AuditOf(First(old(rows), HasId(id)).value, now, user)]
      ensures hard ==> rows == Where(old(rows), OtherId(id))
      ensures !hard ==> rows == UpdateWhere(old(rows), HasId(id), SetDeleted(true))
    {
      var found := First(rows, HasId(id));
      if found.None? {
        WhereAll(rows, OtherId(id));
        UpdateWhereIdle(rows, HasId(id), SetDeleted(true));
        return false;
      }
      deleted := deleted + [AuditOf(found.value, now, user)];
      if hard {
        WhereWellFormed(rows, OtherId(id), nextId);
        rows := Where(rows, OtherId(id));
      } else {
        ColumnUpdatesKeepKeys(true, 0, 0);
        UpdateWhereWellFormed(rows, HasId(id), SetDeleted(true), nextId);
        rows := UpdateWhere(rows, HasId(id), SetDeleted(true));
      }
      return true;
    }

    /**
     * `bulk_action`: no usable id or an unknown action is refused with no change.
     * Block, unblock and restore rewrite exactly the listed rows. Delete removes
     * exactly the listed rows, one id at a time, each after clearing its block and
     * rate limit, so every audit row it writes records an unblocked row.
     */
    method BulkAction(ids: seq<int>, action: string, now: int, user: int) returns (ok: bool)
      requires Valid()
      modifies this`rows, this`deleted
      ensures Valid()
      ensures ok <==> NonZero(ids) != [] && action in BulkActions
      ensures !ok ==> rows == old(rows) && deleted == old(deleted)
      ensures ok && action == "block" ==>
        rows == UpdateWhere(old(rows), IdIn(NonZero(ids)), SetBlocked(true)) && deleted == old(deleted)
      ensures ok && action == "unblock" ==>
        rows == UpdateWhere(old(rows), IdIn(NonZero(ids)), SetBlocked(false)) && deleted == old(deleted)
      ensures ok && action == "restore" ==>
        rows == UpdateWhere(old(rows), IdIn(NonZero(ids)), SetDeleted(false)) && deleted == old(deleted)
      ensures ok && action == "delete" ==>
        rows == Where(old(rows), IdNotIn(NonZero(ids)))
        && deleted == old(deleted) + Map(Picked(old(rows), NonZero(ids)), ClearedAudit(now, user))
    {
      var live := NonZero(ids);
      if live == [] {
        return false;
      }
      ColumnUpdatesKeepKeys(true, 0, 0);
      ColumnUpdatesKeepKeys(false, 0, 0);
      if action == "block" || action == "unblock" {
        var flag := action == "block";
        UpdateWhereWellFormed(rows, IdIn(live), SetBlocked(flag), nextId);
        rows := UpdateWhere(rows, IdIn(live), SetBlocked(flag));
        return true;
      } else if action == "restore" {
        UpdateWhereWellFormed(rows, IdIn(live), SetDeleted(false), nextId);
        rows := UpdateWhere(rows, IdIn(live), SetDeleted(false));
        return true;
      } else if action == "delete" {
        ClearAndDeleteEach(live, now, user);
        return true;
      }
      return false;
    }

    /**
     * One turn of the delete branch of `bulk_action`: clear the row's block and rate
     * limit, then hard-delete it through `DeleteRequest`. The row goes, and its audit
     * row records it unblocked.
     */
    method ClearAndDelete(id: int, now: int, user: int)
      requires Valid()
      modifies this`rows, this`deleted
      ensures Valid()
      ensures ClearedAndDeleted(old(rows), old(deleted), rows, deleted, id, now, user)
    {
      ColumnUpdatesKeepKeys(false, 0, 0);
      UpdateWhereWellFormed(rows, HasId(id), ClearPolicy, nextId);
      rows := UpdateWhere(rows, HasId(id), ClearPolicy);
      var _ := DeleteRequest(id, true, now, user);
    }

    /**
     * The delete branch of `bulk_action`: `ClearAndDelete` for each id in turn.
     * Exactly the listed rows go, and the audit holds one entry per removed row, in
     * list order, each recording the row unblocked.
     */
    method ClearAndDeleteEach(ids: seq<int>, now: int, user: int)
      requires Valid()
      modifies this`rows, this`deleted
      ensures Valid()
      ensures rows == Where(old(rows), IdNotIn(ids))
      ensures deleted == old(deleted) + Map(Picked(old(rows), ids), ClearedAudit(now, user))
    {
      ghost var rows0 := rows;
      ghost var deleted0 := deleted;
      WhereAll(rows0, IdNotIn(ids[..0]));
      var k := 0;
      while k < |ids|
        invariant 0 <= k <= |ids|
        invariant Valid()
        invariant DeletedUpTo(rows, deleted, rows0, deleted0, ids, k, ClearedAudit(now, user))
      {
        ghost var rowsK, deletedK := rows, deleted;
        ClearAndDelete(ids[k], now, user);
        ClearDeleteStep(rows0, ids, k, deleted0, now, user, rowsK, deletedK, rows, deleted);
        k := k + 1;
      }
      assert ids[..k] == ids;
    }

    /**
     * `clear_all_logs`. Except-blocked mode audits and removes exactly the live
     * allowed rows. All mode audits every live row, clears its block, and removes
     * it. Soft-deleted rows survive both modes.
     */
    method ClearAllLogs(exceptBlocked: bool, now: int, user: int)
      requires Valid()
      modifies this`rows, this`deleted
      ensures Valid()
      ensures exceptBlocked ==>
        deleted == old(deleted) + Map(Where(old(rows), LiveAllowed), Audit(now, user))
        && rows == Where(old(rows), Not(LiveAllowed))
        && Counts() == StatusCounts(old(Counts()).blocked, old(Counts()).blocked, 0)
      ensures !exceptBlocked ==>
        deleted == old(deleted) + Map(Where(old(rows), IsLive), Audit(now, user))
        && rows == Where(old(rows), IsSoftDeleted)
        && Counts() == StatusCounts(0, 0, 0)
    {
      if exceptBlocked {
        deleted := deleted + Map(Where(rows, LiveAllowed), Audit(now, user));
        ClearExceptBlockedCounts(rows);
        WhereWellFormed(rows, Not(LiveAllowed), nextId);
        rows := Where(rows, Not(LiveAllowed));
      } else {
        deleted := deleted + Map(Where(rows, IsLive), Audit(now, user));
        ClearAllLeavesDeleted(rows);
        ColumnUpdatesKeepKeys(false, 0, 0);
        UpdateWhereWellFormed(rows, IsLive, SetBlocked(false), nextId);
        WhereWellFormed(UpdateWhere(rows, IsLive, SetBlocked(false)), IsSoftDeleted, nextId);
        rows := UpdateWhere(rows, IsLive, SetBlocked(false));
        rows := Where(rows, IsSoftDeleted);
      }
    }

    /**
     * `cleanup_old_logs`: fewer than one day is refused with no change; otherwise
     * every live row not seen since the cutoff is marked deleted.
     */
    method CleanupOldLogs(days: int, now: int) returns (ok: bool)
      requires Valid()
      modifies this`rows
      ensures Valid()
      ensures ok <==> days >= 1
      ensures !ok ==> rows == old(rows)
      ensures ok ==> rows == SoftSweep(old(rows), Cutoff(now, days))
    {
      if days < 1 {
        return false;
      }
      ColumnUpdatesKeepKeys(true, 0, 0);
      UpdateWhereWellFormed(rows, StaleLive(Cutoff(now, days)), SetDeleted(true), nextId);
      rows := SoftSweep(rows, Cutoff(now, days));
      return true;
    }

    /**
     * `permanently_delete_old_logs`: fewer than one day is refused with no change;
     * otherwise every soft-deleted row not seen since the cutoff is audited (by user
     * 0) and removed.
     */
    method PermanentlyDeleteOldLogs(days: int, now: int) returns (ok: bool)
      requires Valid()
      modifies this`rows, this`deleted
      ensures Valid()
      ensures ok <==> days >= 1
      ensures !ok ==> rows == old(rows) && deleted == old(deleted)
      ensures ok ==>
        deleted == old(deleted) + Map(Where(old(rows), StaleDeleted(Cutoff(now, days))), Audit(now, 0))
        && rows == HardSweep(old(rows), Cutoff(now, days))
    {
      if days < 1 {
        return false;
      }
      var cutoff := Cutoff(now, days);
      deleted := deleted + Map(Where(rows, StaleDeleted(cutoff)), Audit(now, 0));
      WhereWellFormed(rows, Not(StaleDeleted(cutoff)), nextId);
      rows := HardSweep(rows, cutoff);
      return true;
    }
  }

  // ---------------------------------------------------------------------------
  // What the bulk statements amount to
  // ---------------------------------------------------------------------------

  /** The soft phase of the retention sweep: stale live rows marked deleted. */
  function SoftSweep(rows: seq<HostRecord>, cutoff: int): (r: seq<HostRecord>)
    ensures |r| == |rows|
    ensures forall i :: 0 <= i < |rows| ==>
      r[i] == rows[i].(isDeleted := rows[i].isDeleted || rows[i].lastTimestamp < cutoff)
  {
    UpdateWhere(rows, StaleLive(cutoff), SetDeleted(true))
  }

  /** The hard phase of the retention sweep: stale soft-deleted rows removed. */
  function HardSweep(rows: seq<HostRecord>, cutoff: int): (r: seq<HostRecord>)
    ensures forall x :: x in r <==> x in rows && !(x.isDeleted && x.lastTimestamp < cutoff)
  {
    Where(rows, Not(StaleDeleted(cutoff)))
  }

  /** Running the soft phase again with the same cutoff changes nothing. */
  lemma SoftSweepIdempotent(rows: seq<HostRecord>, cutoff: int)
    ensures SoftSweep(SoftSweep(rows, cutoff), cutoff) == SoftSweep(rows, cutoff)
  {
    var once := SoftSweep(rows, cutoff);
    UpdateWhereIdle(once, StaleLive(cutoff), SetDeleted(true));
  }

  /** After the hard phase no stale soft-deleted row is left, so a second run audits and removes nothing. */
  lemma HardSweepIdempotent(rows: seq<HostRecord>, cutoff: int)
    ensures Where(HardSweep(rows, cutoff), StaleDeleted(cutoff)) == []
    ensures HardSweep(HardSweep(rows, cutoff), cutoff) == HardSweep(rows, cutoff)
  {
    var once := HardSweep(rows, cutoff);
    WhereNone(once, StaleDeleted(cutoff));
    WhereAll(once, Not(StaleDeleted(cutoff)));
  }

  /**
   * The daily sweep runs both phases with the same cutoff, so it removes every row
   * not seen since the cutoff, live or not, and keeps every other row as it was.
   */
  lemma DailySweepRemovesStale(rows: seq<HostRecord>, cutoff: int)
    ensures HardSweep(SoftSweep(rows, cutoff), cutoff) == Where(rows, Not(IsStale(cutoff)))
  {
    WhereAfterUpdate(rows, StaleLive(cutoff), SetDeleted(true), Not(StaleDeleted(cutoff)), Not(IsStale(cutoff)));
  }

  /**
   * Clearing except blocked: the live blocked rows and the soft-deleted rows are all
   * still there, and no live allowed row is.
   */
  lemma ClearExceptBlockedCounts(rows: seq<HostRecord>)
    ensures Where(Where(rows, Not(LiveAllowed)), LiveBlocked) == Where(rows, LiveBlocked)
    ensures Where(Where(rows, Not(LiveAllowed)), IsSoftDeleted) == Where(rows, IsSoftDeleted)
    ensures Where(Where(rows, Not(LiveAllowed)), LiveAllowed) == []
  {
    WhereTwice(rows, Not(LiveAllowed), LiveBlocked, LiveBlocked);
    WhereTwice(rows, Not(LiveAllowed), IsSoftDeleted, IsSoftDeleted);
    WhereNone(Where(rows, Not(LiveAllowed)), LiveAllowed);
    var kept := Where(rows, Not(LiveAllowed));
    WherePartition(kept, IsLive, LiveBlocked, LiveAllowed);
    WhereNone(kept, LiveAllowed);
  }

  /**
   * Clearing all: the UPDATE that unblocks live rows is followed by the DELETE of
   * every live row, so exactly the soft-deleted rows remain, unchanged, and no live
   * row is left to count.
   */
  lemma ClearAllLeavesDeleted(rows: seq<HostRecord>)
    ensures Where(UpdateWhere(rows, IsLive, SetBlocked(false)), IsSoftDeleted) == Where(rows, IsSoftDeleted)
    ensures Where(Where(rows, IsSoftDeleted), IsLive) == []
    ensures Where(Where(rows, IsSoftDeleted), LiveBlocked) == []
    ensures Where(Where(rows, IsSoftDeleted), LiveAllowed) == []
  {
    WhereAfterUpdate(rows, IsLive, SetBlocked(false), IsSoftDeleted, IsSoftDeleted);
    var kept := Where(rows, IsSoftDeleted);
    WhereNone(kept, IsLive);
    WhereNone(kept, LiveBlocked);
    WhereNone(kept, LiveAllowed);
  }
}
