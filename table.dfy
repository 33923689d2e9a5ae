/**
 * The requests table as a sequence of rows in table order, and the SQL statements
 * the plugin issues against it: a `SELECT ... WHERE` is `Where`, an `UPDATE ... WHERE`
 * is `UpdateWhere`, a `DELETE ... WHERE p` keeps `Where(rows, Not(p))`, an
 * `INSERT ... SELECT` into the audit table is `Map` of `Audit`, and a `LIMIT 1`
 * lookup without `ORDER BY` is `First`. The database may answer such a lookup with
 * any matching row; `First` takes the first match in table order.
 */
module Table {
  import opened Wrappers
  import opened Records

  // ---------------------------------------------------------------------------
  // Row conditions, as named functions so that one condition is one term
  // ---------------------------------------------------------------------------

  predicate IsLive(x: HostRecord) { !x.isDeleted }
  predicate IsSoftDeleted(x: HostRecord) { x.isDeleted }
  predicate LiveBlocked(x: HostRecord) { !x.isDeleted && x.isBlocked }
  predicate LiveAllowed(x: HostRecord) { !x.isDeleted && !x.isBlocked }

  function Not(p: HostRecord -> bool): HostRecord -> bool { (x: HostRecord) => !p(x) }
  function HasId(id: int): HostRecord -> bool { (x: HostRecord) => x.id == id }
  function OtherId(id: int): HostRecord -> bool { (x: HostRecord) => x.id != id }
  function IdIn(ids: seq<int>): HostRecord -> bool { (x: HostRecord) => x.id in ids }
  function IdNotIn(ids: seq<int>): HostRecord -> bool { (x: HostRecord) => x.id !in ids }
  function LiveWithId(id: int): HostRecord -> bool { (x: HostRecord) => x.id == id && !x.isDeleted }
  function OnHost(host: string): HostRecord -> bool { (x: HostRecord) => x.host == host }
  function LiveOnHost(host: string): HostRecord -> bool { (x: HostRecord) => x.host == host && !x.isDeleted }
  function InBucket(host: string, requestMethod: string): HostRecord -> bool
  {
    (x: HostRecord) => x.host == host && x.requestMethod == requestMethod
  }
  /** `last_timestamp < cutoff AND is_deleted = 0` */
  function StaleLive(cutoff: int): HostRecord -> bool { (x: HostRecord) => x.lastTimestamp < cutoff && !x.isDeleted }
  /** `last_timestamp < cutoff AND is_deleted = 1` */
  function StaleDeleted(cutoff: int): HostRecord -> bool { (x: HostRecord) => x.lastTimestamp < cutoff && x.isDeleted }
  function IsStale(cutoff: int): HostRecord -> bool { (x: HostRecord) => x.lastTimestamp < cutoff }

  // ---------------------------------------------------------------------------
  // Column assignments of the plugin's UPDATE statements
  // ---------------------------------------------------------------------------

  function SetBlocked(b: bool): HostRecord -> HostRecord { (x: HostRecord) => x.(isBlocked := b) }
  function SetDeleted(d: bool): HostRecord -> HostRecord { (x: HostRecord) => x.(isDeleted := d) }
  /** `is_blocked = 0, rate_limit_interval = 0, rate_limit_calls = 0` */
  function ClearPolicy(x: HostRecord): HostRecord
  {
    x.(isBlocked := false, rateLimitInterval := 0, rateLimitCalls := 0)
  }
  function SetRateLimit(interval: int, calls: int): HostRecord -> HostRecord
  {
    (x: HostRecord) => x.(rateLimitInterval := interval, rateLimitCalls := calls)
  }
  function Audit(now: int, user: int): HostRecord -> DeletedRecord { (x: HostRecord) => AuditOf(x, now, user) }
  /** The audit row of a row whose block and rate limit were cleared just before it was deleted. */
  function ClearedAudit(now: int, user: int): HostRecord -> DeletedRecord
  {
    (x: HostRecord) => AuditOf(ClearPolicy(x), now, user)
  }

  // ---------------------------------------------------------------------------
  // Statements
  // ---------------------------------------------------------------------------

  /** The rows satisfying `p`, in table order. */
  function Where(rows: seq<HostRecord>, p: HostRecord -> bool): (r: seq<HostRecord>)
    ensures |r| <= |rows|
    ensures forall x :: x in r ==> x in rows && p(x)
    ensures forall x :: x in rows && p(x) ==> x in r
  {
    if rows == [] then []
    else (if p(rows[0]) then [rows[0]] else []) + Where(rows[1..], p)
  }

  /** Every row satisfying `p` replaced by `f` of it; the others and the order stay. */
  function UpdateWhere(rows: seq<HostRecord>, p: HostRecord -> bool, f: HostRecord -> HostRecord)
    : (r: seq<HostRecord>)
    ensures |r| == |rows|
    ensures forall i :: 0 <= i < |rows| ==> r[i] == if p(rows[i]) then f(rows[i]) else rows[i]
  {
    if rows == [] then []
    else [if p(rows[0]) then f(rows[0]) else rows[0]] + UpdateWhere(rows[1..], p, f)
  }

  /** The row a `LIMIT 1` lookup returns, taken to be the first one satisfying `p` in table order. */
  function First(rows: seq<HostRecord>, p: HostRecord -> bool): (r: Option<HostRecord>)
    ensures r.Some? ==> r.value in rows && p(r.value)
    ensures r.None? <==> forall x :: x in rows ==> !p(x)
  {
    if rows == [] then None
    else if p(rows[0]) then Some(rows[0])
    else First(rows[1..], p)
  }

  /** `f` applied to each element, in order. */
  function Map<A, B>(xs: seq<A>, f: A -> B): (r: seq<B>)
    ensures |r| == |xs|
  {
    if xs == [] then [] else [f(xs[0])] + Map(xs[1..], f)
  }

  // ---------------------------------------------------------------------------
  // The UNIQUE KEY host_method and the primary key
  // ---------------------------------------------------------------------------

  /** Rows `i` and `j` differ in their id and in their (host, method) bucket. */
  predicate KeysDiffer(rows: seq<HostRecord>, i: int, j: int)
    requires 0 <= i < |rows| && 0 <= j < |rows|
  {
    rows[i].id != rows[j].id && (rows[i].host != rows[j].host || rows[i].requestMethod != rows[j].requestMethod)
  }

  /** No two rows share an id, and no two rows share a (host, method) bucket. */
  ghost predicate UniqueKeys(rows: seq<HostRecord>)
  {
    forall i, j :: 0 <= i < j < |rows| ==> KeysDiffer(rows, i, j)
  }

  /** The keys of the rows after the first are unique too. */
  lemma UniqueTail(rows: seq<HostRecord>)
    requires UniqueKeys(rows) && rows != []
    ensures UniqueKeys(rows[1..])
  {
    var t := rows[1..];
    forall i, j | 0 <= i < j < |t| ensures KeysDiffer(t, i, j) {
      assert KeysDiffer(rows, i + 1, j + 1);
    }
  }

  /** With unique keys, a row that shares its id or its bucket with another is that row. */
  lemma SameKeySameRow(rows: seq<HostRecord>, x: HostRecord, y: HostRecord)
    requires UniqueKeys(rows) && x in rows && y in rows
    requires x.id == y.id || (x.host == y.host && x.requestMethod == y.requestMethod)
    ensures x == y
  {
    var i :| 0 <= i < |rows| && rows[i] == x;
    var j :| 0 <= j < |rows| && rows[j] == y;
    UniqueAt(rows, i, j);
    UniqueAt(rows, j, i);
  }

  /** Unique keys, read at one pair of positions. */
  lemma UniqueAt(rows: seq<HostRecord>, i: int, j: int)
    requires UniqueKeys(rows)
    ensures 0 <= i < j < |rows| ==> KeysDiffer(rows, i, j)
  {
  }

  /** `f` rewrites no key column and keeps a positive request count positive. */
  ghost predicate KeepsKeys(f: HostRecord -> HostRecord)
  {
    forall x :: f(x).id == x.id && f(x).host == x.host && f(x).requestMethod == x.requestMethod
      && (x.requestCount >= 1 ==> f(x).requestCount >= 1)
  }

  /** Deleting rows keeps the keys unique. */
  lemma {:induction false} WhereUnique(rows: seq<HostRecord>, p: HostRecord -> bool)
    requires UniqueKeys(rows)
    ensures UniqueKeys(Where(rows, p))
  {
    if rows != [] {
      var t := rows[1..];
      UniqueTail(rows);
      WhereUnique(t, p);
      if p(rows[0]) {
        HeadDiffers(rows);
        ConsUnique(rows[0], Where(t, p));
        assert Where(rows, p) == [rows[0]] + Where(t, p);
      } else {
        assert Where(rows, p) == Where(t, p);
      }
    }
  }

  /** With unique keys, the first row differs in id and bucket from every later row. */
  lemma HeadDiffers(rows: seq<HostRecord>)
    requires UniqueKeys(rows) && rows != []
    ensures forall y :: y in rows[1..] ==>
      y.id != rows[0].id && (y.host != rows[0].host || y.requestMethod != rows[0].requestMethod)
  {
    forall y | y in rows[1..]
      ensures y.id != rows[0].id && (y.host != rows[0].host || y.requestMethod != rows[0].requestMethod)
    {
      var k :| 0 <= k < |rows| - 1 && rows[1..][k] == y;
      assert KeysDiffer(rows, 0, k + 1);
    }
  }

  /** Putting a row in front of rows with unique keys, none sharing its id or bucket, keeps the keys unique. */
  lemma ConsUnique(x: HostRecord, w: seq<HostRecord>)
    requires UniqueKeys(w)
    requires forall y :: y in w ==> y.id != x.id && (y.host != x.host || y.requestMethod != x.requestMethod)
    ensures UniqueKeys([x] + w)
  {
    var r := [x] + w;
    forall i, j | 0 <= i < j < |r| ensures KeysDiffer(r, i, j) {
      if i > 0 {
        assert KeysDiffer(w, i - 1, j - 1);
      } else {
        assert r[j] == w[j - 1] && w[j - 1] in w;
      }
    }
  }

  /** Updates that rewrite no key column keep the keys unique. */
  lemma UpdateWhereUnique(rows: seq<HostRecord>, p: HostRecord -> bool, f: HostRecord -> HostRecord)
    requires UniqueKeys(rows) && KeepsKeys(f)
    ensures UniqueKeys(UpdateWhere(rows, p, f))
  {
    var r := UpdateWhere(rows, p, f);
    forall i | 0 <= i < |r|
      ensures r[i].id == rows[i].id && r[i].host == rows[i].host && r[i].requestMethod == rows[i].requestMethod
    {
      var x := rows[i];
      assert f(x).id == x.id && f(x).host == x.host && f(x).requestMethod == x.requestMethod;
    }
    forall i, j | 0 <= i < j < |r| ensures KeysDiffer(r, i, j) {
      assert KeysDiffer(rows, i, j);
    }
  }

  /** Within one bucket of a table with unique keys there is at most one row. */
  lemma {:induction false} BucketAtMostOne(rows: seq<HostRecord>, host: string, requestMethod: string)
    requires UniqueKeys(rows)
    ensures |Where(rows, InBucket(host, requestMethod))| <= 1
  {
    if rows != [] {
      var t := rows[1..];
      UniqueTail(rows);
      BucketAtMostOne(t, host, requestMethod);
      if InBucket(host, requestMethod)(rows[0]) {
        forall x | x in t ensures !InBucket(host, requestMethod)(x) {
          var k :| 0 <= k < |t| && t[k] == x;
          assert KeysDiffer(rows, 0, k + 1);
        }
        WhereNone(t, InBucket(host, requestMethod));
      }
    }
  }

  /** A condition no row meets selects nothing. */
  lemma {:induction false} WhereNone(rows: seq<HostRecord>, p: HostRecord -> bool)
    requires forall x :: x in rows ==> !p(x)
    ensures Where(rows, p) == []
  {
    if rows != [] {
      assert rows[0] in rows;
      assert forall x :: x in rows[1..] ==> x in rows;
      WhereNone(rows[1..], p);
    }
  }

  /** Splitting a set of rows into two disjoint parts splits its count. */
  lemma {:induction false} WherePartition(rows: seq<HostRecord>, p: HostRecord -> bool,
                                          q: HostRecord -> bool, r: HostRecord -> bool)
    requires forall x :: x in rows ==> (p(x) <==> q(x) || r(x)) && !(q(x) && r(x))
    ensures |Where(rows, p)| == |Where(rows, q)| + |Where(rows, r)|
  {
    if rows != [] {
      assert forall x :: x in rows[1..] ==> x in rows;
      WherePartition(rows[1..], p, q, r);
    }
  }

  /** Two conditions that agree on every row select the same rows. */
  lemma {:induction false} WhereSame(rows: seq<HostRecord>, p: HostRecord -> bool, q: HostRecord -> bool)
    requires forall x :: x in rows ==> p(x) == q(x)
    ensures Where(rows, p) == Where(rows, q)
  {
    if rows != [] {
      assert forall x :: x in rows[1..] ==> x in rows;
      WhereSame(rows[1..], p, q);
    }
  }

  /** Filtering twice is filtering once by both conditions. */
  lemma {:induction false} WhereTwice(rows: seq<HostRecord>, p: HostRecord -> bool,
                                      q: HostRecord -> bool, pq: HostRecord -> bool)
    requires forall x :: x in rows ==> pq(x) == (p(x) && q(x))
    ensures Where(Where(rows, p), q) == Where(rows, pq)
  {
    if rows != [] {
      assert forall x :: x in rows[1..] ==> x in rows;
      WhereTwice(rows[1..], p, q, pq);
      if p(rows[0]) {
        assert Where(rows, p) == [rows[0]] + Where(rows[1..], p);
        assert ([rows[0]] + Where(rows[1..], p))[1..] == Where(rows[1..], p);
      } else {
        assert Where(rows, p) == Where(rows[1..], p);
      }
    }
  }

  /** A condition every row meets keeps the whole table. */
  lemma {:induction false} WhereAll(rows: seq<HostRecord>, p: HostRecord -> bool)
    requires forall x :: x in rows ==> p(x)
    ensures Where(rows, p) == rows
  {
    if rows != [] {
      assert forall x :: x in rows[1..] ==> x in rows;
      WhereAll(rows[1..], p);
    }
  }

  /** An UPDATE whose condition no row meets changes nothing. */
  lemma {:induction false} UpdateWhereIdle(rows: seq<HostRecord>, p: HostRecord -> bool, f: HostRecord -> HostRecord)
    requires forall x :: x in rows ==> !p(x)
    ensures UpdateWhere(rows, p, f) == rows
  {
    var r := UpdateWhere(rows, p, f);
    forall i | 0 <= i < |rows| ensures r[i] == rows[i] {
      assert rows[i] in rows;
    }
  }

  /**
   * An UPDATE followed by a DELETE, seen through what survives: when the rows kept
   * after the update are exactly the rows satisfying `keep`, and updated rows never
   * survive, the pair of statements keeps `Where(rows, keep)`.
   */
  lemma {:induction false} WhereAfterUpdate(rows: seq<HostRecord>, p: HostRecord -> bool, f: HostRecord -> HostRecord,
                                            q: HostRecord -> bool, keep: HostRecord -> bool)
    requires forall x :: x in rows ==> (q(if p(x) then f(x) else x) <==> keep(x))
    requires forall x :: x in rows && keep(x) ==> !p(x)
    ensures Where(UpdateWhere(rows, p, f), q) == Where(rows, keep)
  {
    if rows != [] {
      assert forall x :: x in rows[1..] ==> x in rows;
      WhereAfterUpdate(rows[1..], p, f, q, keep);
      var u := UpdateWhere(rows, p, f);
      assert u == [u[0]] + UpdateWhere(rows[1..], p, f);
      assert rows[0] in rows;
    }
  }

  /** Looking a row up after an UPDATE that keeps the lookup key finds the updated row. */
  lemma {:induction false} FirstAfterUpdate(rows: seq<HostRecord>, p: HostRecord -> bool,
                                            f: HostRecord -> HostRecord, q: HostRecord -> bool)
    requires forall x :: x in rows ==> q(f(x)) == q(x)
    ensures First(rows, q).None? ==> First(UpdateWhere(rows, p, f), q).None?
    ensures First(rows, q).Some? ==>
      First(UpdateWhere(rows, p, f), q)
        == Some(if p(First(rows, q).value) then f(First(rows, q).value) else First(rows, q).value)
  {
    if rows != [] {
      assert forall x :: x in rows[1..] ==> x in rows;
      FirstAfterUpdate(rows[1..], p, f, q);
      var x := rows[0];
      var u := UpdateWhere(rows, p, f);
      assert u == [if p(x) then f(x) else x] + UpdateWhere(rows[1..], p, f);
      assert u[1..] == UpdateWhere(rows[1..], p, f);
      assert x in rows;
      assert q(if p(x) then f(x) else x) == q(x);
    }
  }

  /** Looking a row up after a DELETE that spares every match of the lookup finds the same row. */
  lemma {:induction false} FirstAfterWhere(rows: seq<HostRecord>, p: HostRecord -> bool, q: HostRecord -> bool)
    requires forall x :: x in rows && q(x) ==> p(x)
    ensures First(Where(rows, p), q) == First(rows, q)
  {
    if rows != [] {
      assert forall x :: x in rows[1..] ==> x in rows;
      FirstAfterWhere(rows[1..], p, q);
      assert rows[0] in rows;
      if p(rows[0]) {
        assert Where(rows, p) == [rows[0]] + Where(rows[1..], p);
        assert ([rows[0]] + Where(rows[1..], p))[1..] == Where(rows[1..], p);
      } else {
        assert Where(rows, p) == Where(rows[1..], p);
      }
    }
  }

  /** With unique keys, the lookup of a row's own bucket finds that row. */
  lemma {:induction false} FirstInBucket(rows: seq<HostRecord>, i: int)
    requires UniqueKeys(rows) && 0 <= i < |rows|
    ensures First(rows, InBucket(rows[i].host, rows[i].requestMethod)) == Some(rows[i])
  {
    if i > 0 {
      assert KeysDiffer(rows, 0, i);
      var t := rows[1..];
      UniqueTail(rows);
      assert t[i - 1] == rows[i];
      FirstInBucket(t, i - 1);
    }
  }

  /** Concatenation is associative. */
  lemma AppendAssoc<T>(a: seq<T>, b: seq<T>, c: seq<T>)
    ensures a + b + c == a + (b + c)
  {
  }

  /** The `i`th element of `Map(xs, f)` is `f` of the `i`th element of `xs`. */
  lemma {:induction false} MapAt<A, B>(xs: seq<A>, f: A -> B, i: int)
    requires 0 <= i < |xs|
    ensures Map(xs, f)[i] == f(xs[i])
  {
    if i > 0 {
      MapAt(xs[1..], f, i - 1);
    }
  }

  /** `Map` distributes over appending one element. */
  lemma MapSnoc<A, B>(xs: seq<A>, x: A, f: A -> B)
    ensures Map(xs + [x], f) == Map(xs, f) + [f(x)]
  {
    var l := Map(xs + [x], f);
    var r := Map(xs, f) + [f(x)];
    assert |l| == |r|;
    forall i | 0 <= i < |l| ensures l[i] == r[i] {
      MapAt(xs + [x], f, i);
      if i < |xs| {
        MapAt(xs, f, i);
      }
      assert (xs + [x])[i] == if i < |xs| then xs[i] else x;
    }
  }

  // ---------------------------------------------------------------------------
  // The table invariant
  // ---------------------------------------------------------------------------

  /**
   * The requests table as the schema keeps it: unique ids and buckets, every id
   * positive and below the next AUTO_INCREMENT value, every count at least one.
   */
  ghost predicate WellFormed(rows: seq<HostRecord>, nextId: int)
  {
    UniqueKeys(rows) && 0 < nextId && forall x :: x in rows ==> 0 < x.id < nextId && x.requestCount >= 1
  }

  lemma WhereWellFormed(rows: seq<HostRecord>, p: HostRecord -> bool, nextId: int)
    requires WellFormed(rows, nextId)
    ensures WellFormed(Where(rows, p), nextId)
  {
    WhereUnique(rows, p);
  }

  lemma UpdateWhereWellFormed(rows: seq<HostRecord>, p: HostRecord -> bool, f: HostRecord -> HostRecord, nextId: int)
    requires WellFormed(rows, nextId) && KeepsKeys(f)
    ensures WellFormed(UpdateWhere(rows, p, f), nextId)
  {
    UpdateWhereUnique(rows, p, f);
    var r := UpdateWhere(rows, p, f);
    forall x | x in r ensures 0 < x.id < nextId && x.requestCount >= 1 {
      var i :| 0 <= i < |r| && r[i] == x;
      assert rows[i] in rows;
    }
  }

  /** Inserting a row for a bucket the table lacks, under the next id, keeps the invariant. */
  lemma InsertWellFormed(rows: seq<HostRecord>, x: HostRecord, nextId: int)
    requires WellFormed(rows, nextId)
    requires x.id == nextId && x.requestCount >= 1
    requires First(rows, InBucket(x.host, x.requestMethod)).None?
    ensures WellFormed(rows + [x], nextId + 1)
  {
    var r := rows + [x];
    forall i, j | 0 <= i < j < |r| ensures KeysDiffer(r, i, j) {
      if j == |rows| {
        assert r[i] == rows[i] && rows[i] in rows;
        assert !InBucket(x.host, x.requestMethod)(rows[i]);
      } else {
        assert KeysDiffer(rows, i, j);
      }
    }
  }

  lemma ColumnUpdatesKeepKeys(b: bool, interval: int, calls: int)
    ensures KeepsKeys(SetBlocked(b)) && KeepsKeys(SetDeleted(b))
    ensures KeepsKeys(ClearPolicy) && KeepsKeys(SetRateLimit(interval, calls))
  {
  }

  // ---------------------------------------------------------------------------
  // Deleting listed ids one at a time
  // ---------------------------------------------------------------------------

  /**
   * The rows a loop that deletes `ids` one at a time removes, in the order it
   * reaches them: for each listed id the row with that id, the first time the id
   * comes up (a repeated id finds its row already gone).
   */
  function Picked(rows: seq<HostRecord>, ids: seq<int>): (r: seq<HostRecord>)
    ensures forall x :: x in r ==> x in rows && x.id in ids
    decreases |ids|
  {
    if ids == [] then []
    else
      var earlier := ids[..|ids| - 1];
      var id := ids[|ids| - 1];
      var before := Picked(rows, earlier);
      assert forall x :: x in before ==> x.id in ids by {
        forall x | x in before ensures x.id in ids {
          var k :| 0 <= k < |earlier| && earlier[k] == x.id;
          assert ids[k] == x.id;
        }
      }
      if id in earlier then before
      else match First(rows, HasId(id))
        case None => before
        case Some(x) => before + [x]
  }

  /** With unique ids, every row whose id is listed is among the picked rows. */
  lemma {:induction false} PickedCovers(rows: seq<HostRecord>, ids: seq<int>, x: HostRecord)
    requires UniqueKeys(rows) && x in rows && x.id in ids
    ensures x in Picked(rows, ids)
    decreases |ids|
  {
    var earlier := ids[..|ids| - 1];
    var id := ids[|ids| - 1];
    assert ids == earlier + [id];
    if x.id in earlier {
      PickedCovers(rows, earlier, x);
    } else {
      assert x.id == id;
      SameKeySameRow(rows, x, First(rows, HasId(id)).value);
    }
  }

  /** Under unique keys the rows any condition selects are pairwise different. */
  lemma {:induction false} WhereDistinct(rows: seq<HostRecord>, p: HostRecord -> bool)
    requires UniqueKeys(rows)
    ensures Distinct(Where(rows, p))
  {
    if rows != [] {
      UniqueTail(rows);
      WhereDistinct(rows[1..], p);
      HeadDiffers(rows);
      var rest := Where(rows[1..], p);
      if p(rows[0]) {
        assert rows[0] !in rest;
        var w := [rows[0]] + rest;
        forall i, j | 0 <= i < j < |w| ensures w[i] != w[j] {
          if i == 0 {
            assert w[j] == rest[j - 1] && w[j] in rest;
          } else {
            assert w[i] == rest[i - 1] && w[j] == rest[j - 1];
          }
        }
      }
    }
  }

  /**
   * Under unique keys a delete loop picks each row once: no row twice, and as many rows
   * as `WHERE id IN (ids)` selects, so one audit row is written per deleted row.
   */
  lemma {:induction false} PickedOnce(rows: seq<HostRecord>, ids: seq<int>)
    requires UniqueKeys(rows)
    ensures Distinct(Picked(rows, ids))
    ensures |Picked(rows, ids)| == |Where(rows, IdIn(ids))|
    decreases |ids|
  {
    var picked := Picked(rows, ids);
    if ids != [] {
      var earlier := ids[..|ids| - 1];
      var id := ids[|ids| - 1];
      PickedOnce(rows, earlier);
      var before := Picked(rows, earlier);
      if id !in earlier && First(rows, HasId(id)).Some? {
        var x := First(rows, HasId(id)).value;
        assert picked == before + [x];
        assert x !in before by {
          assert forall y :: y in before ==> y.id in earlier;
        }
        forall i, j | 0 <= i < j < |picked| ensures picked[i] != picked[j] {
          if j == |before| {
            assert picked[i] == before[i] && before[i] in before;
          } else {
            assert picked[i] == before[i] && picked[j] == before[j];
          }
        }
      }
    }
    var selected := Where(rows, IdIn(ids));
    assert (set x | x in picked) == (set x | x in selected) by {
      forall x | x in selected ensures x in picked {
        PickedCovers(rows, ids, x);
      }
    }
    WhereDistinct(rows, IdIn(ids));
    DistinctCard(picked);
    DistinctCard(selected);
  }

  /**
   * One turn of the delete loop: from the rows left after the first `k` ids, deleting
   * id `ids[k]` leaves the rows left after `k + 1` ids, and the row it finds (if any)
   * is the next picked row.
   */
  lemma DeleteStep(rows0: seq<HostRecord>, ids: seq<int>, k: int)
    requires 0 <= k < |ids|
    ensures Where(Where(rows0, IdNotIn(ids[..k])), OtherId(ids[k])) == Where(rows0, IdNotIn(ids[..k + 1]))
    ensures var found := First(Where(rows0, IdNotIn(ids[..k])), HasId(ids[k]));
            Picked(rows0, ids[..k + 1]) == Picked(rows0, ids[..k]) + (if found.Some? then [found.value] else [])
  {
    var id := ids[k];
    var rowsK := Where(rows0, IdNotIn(ids[..k]));
    assert ids[..k + 1] == ids[..k] + [id];
    assert ids[..k + 1][..k] == ids[..k];
    WhereTwice(rows0, IdNotIn(ids[..k]), OtherId(id), IdNotIn(ids[..k + 1]));
    if id in ids[..k] {
      assert First(rowsK, HasId(id)).None?;
    } else {
      FirstAfterWhere(rows0, IdNotIn(ids[..k]), HasId(id));
    }
  }

  /** The UPDATE that the database's delete loop runs first does not change which rows survive. */
  lemma ClearThenDelete(rows: seq<HostRecord>, id: int)
    ensures Where(UpdateWhere(rows, HasId(id), ClearPolicy), OtherId(id)) == Where(rows, OtherId(id))
    ensures First(rows, HasId(id)).None? ==> First(UpdateWhere(rows, HasId(id), ClearPolicy), HasId(id)).None?
    ensures First(rows, HasId(id)).Some? ==>
      First(UpdateWhere(rows, HasId(id), ClearPolicy), HasId(id)) == Some(ClearPolicy(First(rows, HasId(id)).value))
  {
    WhereAfterUpdate(rows, HasId(id), ClearPolicy, OtherId(id), OtherId(id));
    FirstAfterUpdate(rows, HasId(id), ClearPolicy, HasId(id));
  }

  /**
   * What a delete loop has done after its first `k` ids, starting from the rows
   * `rows0` and the audit rows `d0`: the rows with those ids are gone, and the
   * audit holds `audit` of each row it found, in the order it found them.
   */
  ghost predicate DeletedUpTo(rows: seq<HostRecord>, deleted: seq<DeletedRecord>, rows0: seq<HostRecord>,
                              d0: seq<DeletedRecord>, ids: seq<int>, k: int, audit: HostRecord -> DeletedRecord)
    requires 0 <= k <= |ids|
  {
    rows == Where(rows0, IdNotIn(ids[..k])) && deleted == d0 + Map(Picked(rows0, ids[..k]), audit)
  }

  /**
   * One turn of the database's delete loop, from `rows` and `deleted` to `rows'`
   * and `deleted'`: the UPDATE clearing the block and rate limit of the row with
   * `id`, then the hard delete of that row with its audit row, if there is one.
   */
  ghost predicate ClearedAndDeleted(rows: seq<HostRecord>, deleted: seq<DeletedRecord>,
                                    rows': seq<HostRecord>, deleted': seq<DeletedRecord>, id: int, now: int, user: int)
  {
    var cleared := UpdateWhere(rows, HasId(id), ClearPolicy);
    rows' == Where(cleared, OtherId(id))
    && (First(cleared, HasId(id)).None? ==> deleted' == deleted)
    && (First(cleared, HasId(id)).Some? ==> deleted' == deleted + [AuditOf(First(cleared, HasId(id)).value, now, user)])
  }

  /**
   * One turn of the database's delete loop keeps it on course: clearing and
   * deleting `ids[k]` after the first `k` ids gives the state after `k + 1` ids,
   * each audit row recording its row with the block and rate limit cleared.
   */
  lemma ClearDeleteStep(rows0: seq<HostRecord>, ids: seq<int>, k: int, d0: seq<DeletedRecord>, now: int, user: int,
                        rows: seq<HostRecord>, deleted: seq<DeletedRecord>,
                        rows': seq<HostRecord>, deleted': seq<DeletedRecord>)
    requires 0 <= k < |ids|
    requires DeletedUpTo(rows, deleted, rows0, d0, ids, k, ClearedAudit(now, user))
    requires ClearedAndDeleted(rows, deleted, rows', deleted', ids[k], now, user)
    ensures DeletedUpTo(rows', deleted', rows0, d0, ids, k + 1, ClearedAudit(now, user))
  {
    DeleteLoopStep(rows0, ids, k, d0, ClearedAudit(now, user));
    ClearThenDelete(rows, ids[k]);
  }

  /**
   * One turn of a loop that deletes `ids` one at a time and writes `audit` of each
   * row it removes: from the rows left after the first `k` ids, deleting `ids[k]`
   * leaves the rows left after `k + 1` ids, and the audit so far (after the earlier
   * rows `d0`) grows by the row it found, if any.
   */
  lemma DeleteLoopStep(rows0: seq<HostRecord>, ids: seq<int>, k: int, d0: seq<DeletedRecord>,
                       audit: HostRecord -> DeletedRecord)
    requires 0 <= k < |ids|
    ensures var rowsK := Where(rows0, IdNotIn(ids[..k]));
      Where(rowsK, OtherId(ids[k])) == Where(rows0, IdNotIn(ids[..k + 1]))
      && (First(rowsK, HasId(ids[k])).None? ==>
            d0 + Map(Picked(rows0, ids[..k]), audit) == d0 + Map(Picked(rows0, ids[..k + 1]), audit))
      && (First(rowsK, HasId(ids[k])).Some? ==>
            d0 + Map(Picked(rows0, ids[..k]), audit) + [audit(First(rowsK, HasId(ids[k])).value)]
              == d0 + Map(Picked(rows0, ids[..k + 1]), audit))
  {
    var rowsK := Where(rows0, IdNotIn(ids[..k]));
    DeleteStep(rows0, ids, k);
    var found := First(rowsK, HasId(ids[k]));
    if found.Some? {
      var before := Map(Picked(rows0, ids[..k]), audit);
      MapSnoc(Picked(rows0, ids[..k]), found.value, audit);
      AppendAssoc(d0, before, [audit(found.value)]);
    } else {
      assert Picked(rows0, ids[..k]) + [] == Picked(rows0, ids[..k]);
    }
  }
}
