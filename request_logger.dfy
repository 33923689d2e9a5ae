/**
 * The request interceptor: for each outbound call it decides whether the call
 * proceeds, is rejected because its host is blocked (403), or is rejected and its
 * host blocked because it came too soon after the last permitted one (429); a call
 * that proceeds is folded into the aggregate row of its (host, method) bucket.
 * Also here: the byte estimate of a request, the response bookkeeping, the
 * notification list and the daily retention sweep.
 */
module RequestLogger {
  import opened Wrappers
  import opened PhpStrings
  import opened Records
  import opened Table
  import opened UrlLog
  import opened Database

  // ---------------------------------------------------------------------------
  // Request size
  // ---------------------------------------------------------------------------

  /** A header value: one string, or a list of strings sent under the same name. */
  datatype HeaderValue = One(value: string) | Many(values: seq<string>)
  datatype Header = Header(name: string, value: HeaderValue)

  /** The request body: absent, a string, or a form whose `http_build_query` text is `encoded`. */
  datatype Body = NoBody | TextBody(text: string) | FormBody(encoded: string)

  /** The request arguments the interceptor reads; a method that is not set is None. */
  datatype RequestArgs = RequestArgs(requestMethod: Option<string>, body: Body, headers: seq<Header>)

  /** Bytes of the request line the estimate adds to every request. */
  const RequestLineSize: int := 20

  function BodySize(b: Body): nat
  {
    match b
    case NoBody => 0
    case TextBody(t) => |t|
    case FormBody(q) => |q|
  }

  /** `name: v\r\n` for each value `v`: the name, the value and four bytes of separators. */
  function ValuesSize(name: string, vs: seq<string>): nat
  {
    if vs == [] then 0 else ValuesSize(name, vs[..|vs| - 1]) + |name| + |vs[|vs| - 1]| + 4
  }

  function HeaderSize(h: Header): nat
  {
    match h.value
    case One(v) => |h.name| + |v| + 4
    case Many(vs) => ValuesSize(h.name, vs)
  }

  function HeadersSize(hs: seq<Header>): nat
  {
    if hs == [] then 0 else HeadersSize(hs[..|hs| - 1]) + HeaderSize(hs[|hs| - 1])
  }

  /** The estimated size of a request: the request line, the body and every header value. */
  function RequestSize(args: RequestArgs): nat
  {
    RequestLineSize + BodySize(args.body) + HeadersSize(args.headers)
  }

  /** The estimate adds up header by header, so splitting the headers anywhere splits the sum. */
  lemma {:induction false} HeadersSizeAppend(a: seq<Header>, b: seq<Header>)
    ensures HeadersSize(a + b) == HeadersSize(a) + HeadersSize(b)
    decreases |b|
  {
    if b != [] {
      var ab := a + b;
      assert ab[..|ab| - 1] == a + b[..|b| - 1];
      assert ab[|ab| - 1] == b[|b| - 1];
      HeadersSizeAppend(a, b[..|b| - 1]);
    } else {
      assert a + b == a;
    }
  }

  /** Every header value costs at least four bytes. */
  lemma {:induction false} ValuesSizeAtLeast(name: string, vs: seq<string>)
    ensures ValuesSize(name, vs) >= 4 * |vs|
    decreases |vs|
  {
    if vs != [] {
      ValuesSizeAtLeast(name, vs[..|vs| - 1]);
    }
  }

  /** The arguments of a call that has neither body nor headers. */
  const EmptyArgs: RequestArgs := RequestArgs(None, NoBody, [])

  /** `calculate_request_size`: the body, then each header value in turn, then the request line. */
  method CalculateRequestSize(args: RequestArgs) returns (size: int)
    ensures size == RequestSize(args)
    ensures size >= RequestLineSize + BodySize(args.body)
  {
    size := 0;
    match args.body {
      case NoBody =>
      case TextBody(t) => size := size + |t|;
      case FormBody(q) => size := size + |q|;
    }
    var hs := args.headers;
    var k := 0;
    while k < |hs|
      invariant 0 <= k <= |hs|
      invariant size == BodySize(args.body) + HeadersSize(hs[..k])
    {
      var h := hs[k];
      assert hs[..k + 1][..k] == hs[..k];
      match h.value {
        case One(v) =>
          size := size + |h.name| + |v| + 4;
        case Many(vs) =>
          var m := 0;
          while m < |vs|
            invariant 0 <= m <= |vs|
            invariant size == BodySize(args.body) + HeadersSize(hs[..k]) + ValuesSize(h.name, vs[..m])
          {
            assert vs[..m + 1][..m] == vs[..m];
            size := size + |h.name| + |vs[m]| + 4;
            m := m + 1;
          }
          assert vs[..m] == vs;
      }
      k := k + 1;
    }
    assert hs[..k] == hs;
    size := size + RequestLineSize;
    size := if size < 0 then 0 else size;
  }

  // ---------------------------------------------------------------------------
  // Block and rate-limit checks
  // ---------------------------------------------------------------------------

  /** `is_blocked`: the flag of the live row of the host that the lookup returns; no live row means not blocked. */
  function IsBlocked(rows: seq<HostRecord>, host: string): bool
  {
    match First(rows, LiveOnHost(host))
    case None => false
    case Some(x) => x.isBlocked
  }

  /**
   * What the block check means: a blocked host has a live blocked row; a host
   * without live rows is not blocked; a host whose live rows are all blocked is.
   * With live rows that disagree, the row the lookup returns decides.
   */
  lemma IsBlockedMeaning(rows: seq<HostRecord>, host: string)
    ensures IsBlocked(rows, host) ==> exists x :: x in rows && x.host == host && !x.isDeleted && x.isBlocked
    ensures (forall x :: x in rows ==> x.host != host || x.isDeleted) ==> !IsBlocked(rows, host)
    ensures ((forall x :: x in rows && x.host == host && !x.isDeleted ==> x.isBlocked)
             && (exists x :: x in rows && x.host == host && !x.isDeleted)) ==> IsBlocked(rows, host)
  {
    var first := First(rows, LiveOnHost(host));
    if first.Some? {
      assert LiveOnHost(host)(first.value);
    }
  }

  /** The rate-limit interval of the host: that of the live row the lookup returns, 0 without one. */
  function RateInterval(rows: seq<HostRecord>, host: string): int
  {
    match First(rows, LiveOnHost(host))
    case None => 0
    case Some(x) => x.rateLimitInterval
  }

  /** The time of the host's last permitted call, while it is remembered. */
  function StoredTime(limits: map<string, int>, host: string): Option<int>
  {
    if host in limits then Some(limits[host]) else None
  }

  /** The outcomes of `check_rate_limit`. */
  datatype RateCheck =
    | Unlimited   // no positive interval: nothing checked, nothing recorded
    | FirstCall   // no time remembered: permitted, now recorded
    | Cooled      // at least `interval` seconds since the last permitted call: permitted, now recorded
    | Violation   // too soon: rejected, the remembered time kept

  function RateVerdict(interval: int, last: Option<int>, now: int): RateCheck
  {
    if interval <= 0 then Unlimited
    else if last.None? then FirstCall
    else if now - last.value >= interval then Cooled
    else Violation
  }

  /** Whether the check records `now` as the last permitted call. */
  predicate KeepsTime(v: RateCheck) { v == FirstCall || v == Cooled }

  /** The remembered times after a check with verdict `v`. */
  function AfterCheck(limits: map<string, int>, host: string, now: int, v: RateCheck): map<string, int>
  {
    if KeepsTime(v) then limits[host := now] else limits
  }

  /**
   * The times of the calls the check lets through, out of calls at `times` made one
   * after another against a fixed interval, starting from the remembered time `last`.
   */
  function Admitted(interval: int, last: Option<int>, times: seq<int>): seq<int>
    decreases |times|
  {
    if times == [] then []
    else
      var v := RateVerdict(interval, last, times[0]);
      if v == Violation then Admitted(interval, last, times[1..])
      else [times[0]] + Admitted(interval, if KeepsTime(v) then Some(times[0]) else last, times[1..])
  }

  /**
   * A cooldown of one call per interval: consecutive permitted calls lie at least
   * `interval` seconds apart, and the first lies that far from the remembered time.
   * A rejected call does not restart the wait.
   */
  lemma {:induction false} AdmittedSpaced(interval: int, last: Option<int>, times: seq<int>)
    requires interval > 0
    ensures var a := Admitted(interval, last, times);
      (forall k :: 0 <= k < |a| - 1 ==> a[k + 1] - a[k] >= interval)
      && (last.Some? && a != [] ==> a[0] - last.value >= interval)
    decreases |times|
  {
    if times != [] {
      var v := RateVerdict(interval, last, times[0]);
      if v == Violation {
        AdmittedSpaced(interval, last, times[1..]);
      } else {
        AdmittedSpaced(interval, Some(times[0]), times[1..]);
        var rest := Admitted(interval, Some(times[0]), times[1..]);
        var a := [times[0]] + rest;
        assert Admitted(interval, last, times) == a;
        forall k | 0 <= k < |a| - 1 ensures a[k + 1] - a[k] >= interval {
          if k > 0 {
            assert a[k + 1] == rest[k] && a[k] == rest[k - 1];
          }
        }
      }
    }
  }

  /** Without a positive interval every call is let through. */
  lemma {:induction false} AdmittedUnlimited(interval: int, last: Option<int>, times: seq<int>)
    requires interval <= 0
    ensures Admitted(interval, last, times) == times
    decreases |times|
  {
    if times != [] {
      AdmittedUnlimited(interval, last, times[1..]);
    }
  }

  /** `check_rate_limit`: true for a violation; a permitted call with a positive interval records `now`. */
  method CheckRateLimit(store: HostStore, host: string, now: int) returns (violation: bool)
    modifies store`rateLimits
    ensures var v := RateVerdict(RateInterval(store.rows, host), StoredTime(old(store.rateLimits), host), now);
      (violation <==> v == Violation)
      && store.rateLimits == AfterCheck(old(store.rateLimits), host, now, v)
  {
    var interval := 0;
    var config := First(store.rows, LiveOnHost(host));
    if config.Some? {
      interval := config.value.rateLimitInterval;
    }
    if interval <= 0 {
      return false;
    }
    if host !in store.rateLimits {
      store.rateLimits := store.rateLimits[host := now];
      return false;
    }
    var elapsed := now - store.rateLimits[host];
    if elapsed >= interval {
      store.rateLimits := store.rateLimits[host := now];
      return false;
    }
    return true;
  }

  /** The remembered time of a host lapses (the transient expires). */
  method ExpireRateLimit(store: HostStore, host: string)
    modifies store`rateLimits
    ensures store.rateLimits == old(store.rateLimits) - {host}
    ensures StoredTime(store.rateLimits, host).None?
  {
    store.rateLimits := store.rateLimits - {host};
  }

  /**
   * The remembered time is kept for `interval` seconds, so it can only lapse once the
   * cooldown is over; a call then finds nothing remembered and is let through and
   * recorded exactly as if the time were still there.
   */
  lemma ExpiryMatchesCooldown(limits: map<string, int>, host: string, interval: int, now: int)
    requires interval > 0 && host in limits && now - limits[host] >= interval
    ensures RateVerdict(interval, StoredTime(limits, host), now) == Cooled
    ensures RateVerdict(interval, StoredTime(limits - {host}, host), now) == FirstCall
    ensures AfterCheck(limits - {host}, host, now, FirstCall) == AfterCheck(limits, host, now, Cooled)
  {
    assert (limits - {host})[host := now] == limits[host := now];
  }

  /**
   * Blocking every row of the host blocks the host: a host with a live row is
   * rejected by the block check afterwards.
   */
  lemma BlockingHostBlocks(rows: seq<HostRecord>, host: string)
    requires First(rows, LiveOnHost(host)).Some?
    ensures IsBlocked(UpdateWhere(rows, OnHost(host), SetBlocked(true)), host)
  {
    FirstAfterUpdate(rows, OnHost(host), SetBlocked(true), LiveOnHost(host));
  }

  // ---------------------------------------------------------------------------
  // Aggregation
  // ---------------------------------------------------------------------------

  /** The size `log_request` records: a size of 0 stands for "not measured" and is replaced by the estimate of an empty call. */
  function RecordedSize(size: int): (r: int)
    ensures size != 0 ==> r == size
    ensures size == 0 ==> r == RequestLineSize
  {
    if size == 0 then RequestSize(EmptyArgs) else size
  }

  /** A source column is filled only while it is empty, and only with a non-empty value. */
  function Fill(stored: string, incoming: string): (r: string)
    ensures !Falsy(stored) ==> r == stored
    ensures Falsy(incoming) ==> r == stored
    ensures Falsy(stored) && !Falsy(incoming) ==> r == incoming
  {
    if Falsy(stored) && !Falsy(incoming) then incoming else stored
  }

  /** The UPDATE of an existing bucket row; `log` is the new URL history when `track` is on. */
  function Touch(track: bool, log: string, url: string, size: int, src: Source, now: int): HostRecord -> HostRecord
  {
    (x: HostRecord) => x.(
      requestCount := x.requestCount + 1,
      lastTimestamp := now,
      urlExample := url,
      requestSize := size,
      isDeleted := false,
      sourcePlugin := Fill(x.sourcePlugin, src.plugin),
      sourceTheme := Fill(x.sourceTheme, src.theme),
      sourceFile := Fill(x.sourceFile, src.file),
      urlsLog := if track then log else x.urlsLog)
  }

  /** The INSERT of a new bucket row. */
  function NewRow(id: int, host: string, requestMethod: string, url: string, size: int, src: Source,
                  track: bool, now: int): HostRecord
  {
    HostRecord(id, host, requestMethod, url, if track then url else "", None, size, None,
               src.file, src.plugin, src.theme, 1, now, now, false, false, 0, 0)
  }

  /** The URL history the UPDATE writes: the next log when tracking is on (and unused otherwise). */
  function TrackedLog(cfg: Config, stored: string, url: string): string
  {
    if cfg.trackAllUrls then NextLog(stored, url, cfg.maxUrlsLogged) else ""
  }

  /** The rows after `log_request`: the bucket's row, deleted or not, is updated; without one a row is added. */
  function Logged(rows: seq<HostRecord>, nextId: int, cfg: Config, host: string, url: string,
                  requestMethod: string, size: int, src: Source, now: int): seq<HostRecord>
  {
    match First(rows, InBucket(host, requestMethod))
    case Some(x) =>
      UpdateWhere(rows, HasId(x.id), Touch(cfg.trackAllUrls, TrackedLog(cfg, x.urlsLog, url), url, RecordedSize(size), src, now))
    case None =>
      rows + [NewRow(nextId, host, requestMethod, url, RecordedSize(size), src, cfg.trackAllUrls, now)]
  }

  /** The notification list after adding `n`: the ten newest, oldest first. */
  function LastTen(ns: seq<Notification>): (r: seq<Notification>)
    ensures |r| == if |ns| > 10 then 10 else |ns|
    ensures r == ns[|ns| - |r|..]
  {
    if |ns| > 10 then ns[|ns| - 10..] else ns
  }

  /** Trimming after each addition keeps the same entries as trimming the whole history once. */
  lemma LastTenAgain(ns: seq<Notification>, n: Notification)
    ensures LastTen(LastTen(ns) + [n]) == LastTen(ns + [n])
  {
    var all := ns + [n];
    var kept := LastTen(ns) + [n];
    if |ns| > 10 {
      assert kept == all[|all| - 11..];
      assert kept[|kept| - 10..] == all[|all| - 10..];
    } else {
      assert kept == all;
    }
  }

  /** The notification `send_notification` adds for a new bucket. */
  function NotificationFor(host: string, url: string, src: Source, now: int): Notification
  {
    Notification(now, host, url, Attribute(src.plugin, src.theme))
  }

  /** The notification list after `log_request`: one entry more, trimmed, for a new bucket when notifications are on. */
  function Notified(ns: seq<Notification>, rows: seq<HostRecord>, cfg: Config, host: string, url: string,
                    requestMethod: string, src: Source, now: int): seq<Notification>
  {
    if First(rows, InBucket(host, requestMethod)).None? && cfg.enableNotifications
    then LastTen(ns + [NotificationFor(host, url, src, now)])
    else ns
  }

  /** The next id after `log_request`: one more when a row was inserted. */
  function NextIdAfter(rows: seq<HostRecord>, nextId: int, host: string, requestMethod: string): int
  {
    if First(rows, InBucket(host, requestMethod)).None? then nextId + 1 else nextId
  }

  /** Appending a row that matches a lookup nothing matched before makes it the lookup's answer. */
  lemma {:induction false} FirstAppend(rows: seq<HostRecord>, x: HostRecord, q: HostRecord -> bool)
    requires First(rows, q).None? && q(x)
    ensures First(rows + [x], q) == Some(x)
  {
    if rows != [] {
      assert (rows + [x])[1..] == rows[1..] + [x];
      assert rows[0] in rows;
      assert forall y :: y in rows[1..] ==> y in rows;
      FirstAppend(rows[1..], x, q);
    }
  }

  /**
   * Find-or-create: after logging, the bucket's row is live and carries this call.
   * An existing row keeps its id, first time and block flag, counts one call more
   * and fills only its empty source columns; a new row has the next id, one call,
   * equal first and last times, and is neither blocked nor deleted. Rows of other
   * buckets are untouched.
   */
  lemma LoggedBucket(rows: seq<HostRecord>, nextId: int, cfg: Config, host: string, url: string,
                     requestMethod: string, size: int, src: Source, now: int)
    requires WellFormed(rows, nextId)
    ensures var after := Logged(rows, nextId, cfg, host, url, requestMethod, size, src, now);
      var found := First(rows, InBucket(host, requestMethod));
      var y := First(after, InBucket(host, requestMethod));
      y.Some? && !y.value.isDeleted && y.value.lastTimestamp == now && y.value.urlExample == url
      && y.value.requestSize == RecordedSize(size)
      && (found.Some? ==>
            |after| == |rows|
            && y.value.id == found.value.id && y.value.requestCount == found.value.requestCount + 1
            && y.value.firstTimestamp == found.value.firstTimestamp && y.value.isBlocked == found.value.isBlocked
            && y.value.rateLimitInterval == found.value.rateLimitInterval
            && y.value.sourcePlugin == Fill(found.value.sourcePlugin, src.plugin)
            && y.value.sourceTheme == Fill(found.value.sourceTheme, src.theme)
            && y.value.sourceFile == Fill(found.value.sourceFile, src.file)
            && y.value.urlsLog == (if cfg.trackAllUrls then NextLog(found.value.urlsLog, url, cfg.maxUrlsLogged)
                                   else found.value.urlsLog))
      && (found.None? ==>
            after == rows + [y.value]
            && y.value.id == nextId && y.value.requestCount == 1 && y.value.firstTimestamp == now
            && !y.value.isBlocked && y.value.rateLimitInterval == 0
            && y.value.urlsLog == (if cfg.trackAllUrls then url else ""))
      && (forall i :: 0 <= i < |rows| && !InBucket(host, requestMethod)(rows[i]) ==> after[i] == rows[i])
  {
    var found := First(rows, InBucket(host, requestMethod));
    var after := Logged(rows, nextId, cfg, host, url, requestMethod, size, src, now);
    match found
    case Some(x) =>
      var f := Touch(cfg.trackAllUrls, TrackedLog(cfg, x.urlsLog, url), url, RecordedSize(size), src, now);
      FirstAfterUpdate(rows, HasId(x.id), f, InBucket(host, requestMethod));
      forall i | 0 <= i < |rows| && !InBucket(host, requestMethod)(rows[i]) ensures after[i] == rows[i] {
        if rows[i].id == x.id {
          SameKeySameRow(rows, rows[i], x);
        }
      }
    case None =>
      var n := NewRow(nextId, host, requestMethod, url, RecordedSize(size), src, cfg.trackAllUrls, now);
      FirstAppend(rows, n, InBucket(host, requestMethod));
  }

  /** The number of calls the rows account for. */
  function TotalCalls(rows: seq<HostRecord>): int
  {
    if rows == [] then 0 else rows[0].requestCount + TotalCalls(rows[1..])
  }

  lemma {:induction false} TotalCallsAppend(a: seq<HostRecord>, b: seq<HostRecord>)
    ensures TotalCalls(a + b) == TotalCalls(a) + TotalCalls(b)
  {
    if a != [] {
      assert (a + b)[1..] == a[1..] + b;
      TotalCallsAppend(a[1..], b);
    } else {
      assert a + b == b;
    }
  }

  /** Touching the one row with id `id`, one call more, adds one call to the total. */
  lemma {:induction false} TotalAfterTouch(rows: seq<HostRecord>, x: HostRecord, f: HostRecord -> HostRecord)
    requires UniqueKeys(rows) && x in rows
    requires f(x).requestCount == x.requestCount + 1
    ensures TotalCalls(UpdateWhere(rows, HasId(x.id), f)) == TotalCalls(rows) + 1
  {
    var u := UpdateWhere(rows, HasId(x.id), f);
    assert u[1..] == UpdateWhere(rows[1..], HasId(x.id), f);
    if rows[0].id == x.id {
      SameKeySameRow(rows, rows[0], x);
      HeadDiffers(rows);
      UpdateWhereIdle(rows[1..], HasId(x.id), f);
    } else {
      UniqueTail(rows);
      TotalAfterTouch(rows[1..], x, f);
    }
  }

  /** Every logged call is counted exactly once: the total over all rows grows by one. */
  lemma LoggedCountsOneCall(rows: seq<HostRecord>, nextId: int, cfg: Config, host: string, url: string,
                            requestMethod: string, size: int, src: Source, now: int)
    requires WellFormed(rows, nextId)
    ensures TotalCalls(Logged(rows, nextId, cfg, host, url, requestMethod, size, src, now)) == TotalCalls(rows) + 1
  {
    match First(rows, InBucket(host, requestMethod))
    case Some(x) =>
      var f := Touch(cfg.trackAllUrls, TrackedLog(cfg, x.urlsLog, url), url, RecordedSize(size), src, now);
      TotalAfterTouch(rows, x, f);
    case None =>
      var n := NewRow(nextId, host, requestMethod, url, RecordedSize(size), src, cfg.trackAllUrls, now);
      TotalCallsAppend(rows, [n]);
      assert TotalCalls([n]) == 1;
  }

  /** `send_notification`'s list: append, then keep the last ten. */
  method SendNotification(store: HostStore, host: string, url: string, src: Source, now: int)
    modifies store`notifications
    ensures store.notifications == LastTen(old(store.notifications) + [NotificationFor(host, url, src, now)])
  {
    var ns := store.notifications + [NotificationFor(host, url, src, now)];
    if |ns| > 10 {
      ns := ns[|ns| - 10..];
    }
    store.notifications := ns;
  }

  /**
   * `log_request`: a zero size is replaced by the estimate of an empty call; the
   * URL history is rebuilt by appending the URL and shifting out the oldest; the
   * bucket's row is updated or a row is inserted, and a new bucket is announced.
   */
  method LogRequest(store: HostStore, cfg: Config, host: string, url: string, requestMethod: string,
                    size: int, src: Source, now: int)
    requires store.Valid()
    modifies store`rows, store`nextId, store`notifications
    ensures store.Valid()
    ensures store.rows == Logged(old(store.rows), old(store.nextId), cfg, host, url, requestMethod, size, src, now)
    ensures store.nextId == NextIdAfter(old(store.rows), old(store.nextId), host, requestMethod)
    ensures store.notifications
         == Notified(old(store.notifications), old(store.rows), cfg, host, url, requestMethod, src, now)
  {
    var recorded := size;
    if recorded == 0 {
      recorded := CalculateRequestSize(EmptyArgs);
    }
    var existing := First(store.rows, InBucket(host, requestMethod));
    match existing {
      case Some(x) =>
        UpdateBucket(store, cfg, x, url, recorded, src, now);
      case None =>
        InsertBucket(store, cfg, host, url, requestMethod, recorded, src, now);
    }
  }

  /** The UPDATE branch of `log_request`: the bucket's row `x` counts the call and, when tracking, its URL. */
  method UpdateBucket(store: HostStore, cfg: Config, x: HostRecord, url: string, recorded: int, src: Source, now: int)
    requires store.Valid() && x in store.rows
    modifies store`rows
    ensures store.Valid()
    ensures store.rows
         == UpdateWhere(old(store.rows), HasId(x.id), Touch(cfg.trackAllUrls, TrackedLog(cfg, x.urlsLog, url), url, recorded, src, now))
  {
    var log := "";
    if cfg.trackAllUrls {
      log := NextUrlsLog(x.urlsLog, url, cfg.maxUrlsLogged);
    }
    var f := Touch(cfg.trackAllUrls, log, url, recorded, src, now);
    UpdateWhereWellFormed(store.rows, HasId(x.id), f, store.nextId);
    store.rows := UpdateWhere(store.rows, HasId(x.id), f);
  }

  /** The INSERT branch of `log_request`: a row for the new bucket under the next id, announced when notifications are on. */
  method InsertBucket(store: HostStore, cfg: Config, host: string, url: string, requestMethod: string,
                      recorded: int, src: Source, now: int)
    requires store.Valid() && First(store.rows, InBucket(host, requestMethod)).None?
    modifies store`rows, store`nextId, store`notifications
    ensures store.Valid()
    ensures store.rows == old(store.rows) + [NewRow(old(store.nextId), host, requestMethod, url, recorded, src, cfg.trackAllUrls, now)]
    ensures store.nextId == old(store.nextId) + 1
    ensures store.notifications
         == if cfg.enableNotifications then LastTen(old(store.notifications) + [NotificationFor(host, url, src, now)])
            else old(store.notifications)
  {
    var log := if cfg.trackAllUrls then url else "";
    var row := HostRecord(store.nextId, host, requestMethod, url, log, None, recorded, None,
                          src.file, src.plugin, src.theme, 1, now, now, false, false, 0, 0);
    InsertWellFormed(store.rows, row, store.nextId);
    store.rows := store.rows + [row];
    store.nextId := store.nextId + 1;
    if cfg.enableNotifications {
      SendNotification(store, host, url, src, now);
    }
  }

  /**
   * The URL history of an existing row, rebuilt as `log_request` does: split the
   * stored log, append the URL when it is not listed, shift out the oldest entry
   * when the list grew past `maxUrls`, and join again.
   */
  method NextUrlsLog(stored: string, url: string, maxUrls: int) returns (log: string)
    ensures log == NextLog(stored, url, maxUrls)
  {
    log := if Falsy(stored) then "" else stored;
    var urls := Entries(log);
    if url !in urls {
      urls := urls + [url];
      if |urls| > maxUrls {
        urls := urls[1..];
      }
      log := Implode(urls);
    }
  }

  // ---------------------------------------------------------------------------
  // Responses
  // ---------------------------------------------------------------------------

  /** `mb_substr(s, 0, max)`: the first `max` characters; a negative `max` leaves off that many from the end. */
  function Prefix(s: string, max: int): (t: string)
    ensures |t| <= |s| && t == s[..|t|]
    ensures max >= 0 ==> |t| == if |s| < max then |s| else max
    ensures max < 0 ==> |t| == if |s| + max > 0 then |s| + max else 0
  {
    if max >= 0 then (if |s| < max then s else s[..max])
    else if |s| + max > 0 then s[..|s| + max]
    else []
  }

  /** The body as stored: its prefix, followed by a newline and "..." when something was cut off. */
  function StoredBody(body: string, max: int): (r: string)
    ensures 0 <= max && |body| <= max ==> r == body
    ensures 0 <= max < |body| ==> r == body[..max] + "\n..."
    ensures max >= 0 ==> |r| <= max + 4
  {
    var t := Prefix(body, max);
    if |body| > |t| then t + "\n..." else t
  }

  /** With a non-negative limit the stored body shows whether it was cut, and an uncut body is the whole body. */
  lemma StoredBodyTellsCut(body: string, max: int)
    requires max >= 0
    ensures |StoredBody(body, max)| > max <==> |body| > max
    ensures |StoredBody(body, max)| <= max ==> StoredBody(body, max) == body
    ensures |body| > max ==> StoredBody(body, max)[..max] == body[..max]
  {
  }

  /** The body column `update_response` writes: none when no body came or storage is off (the old one stays). */
  function BodyColumn(body: Option<string>, max: int): Option<string>
  {
    if body.None? || max == 0 then None else Some(StoredBody(body.value, max))
  }

  /** The response columns: the code always, the body only when there is one to write. */
  function Respond(code: int, stored: Option<string>): HostRecord -> HostRecord
  {
    (x: HostRecord) => x.(responseCode := Some(code), responseBody := if stored.None? then x.responseBody else stored)
  }

  /** The rows after `update_response`: the bucket's row, if any, gets the response columns. */
  function Responded(rows: seq<HostRecord>, host: string, requestMethod: string, code: int,
                     body: Option<string>, max: int): seq<HostRecord>
  {
    match First(rows, InBucket(host, requestMethod))
    case None => rows
    case Some(x) => UpdateWhere(rows, HasId(x.id), Respond(code, BodyColumn(body, max)))
  }

  /**
   * After a response the bucket's row holds the code; it holds the truncated body
   * when a body came and storage is on, and its old body otherwise; nothing else
   * in the table changes. Without a bucket row nothing changes at all.
   */
  lemma RespondedBucket(rows: seq<HostRecord>, nextId: int, host: string, requestMethod: string, code: int,
                        body: Option<string>, max: int)
    requires WellFormed(rows, nextId)
    ensures var found := First(rows, InBucket(host, requestMethod));
      var after := Responded(rows, host, requestMethod, code, body, max);
      (found.None? ==> after == rows)
      && (found.Some? ==>
            |after| == |rows|
            && First(after, InBucket(host, requestMethod))
               == Some(found.value.(responseCode := Some(code),
                                    responseBody := if body.None? || max == 0 then found.value.responseBody
                                                    else Some(StoredBody(body.value, max))))
            && forall i :: 0 <= i < |rows| && rows[i] != found.value ==> after[i] == rows[i])
  {
    var found := First(rows, InBucket(host, requestMethod));
    if found.Some? {
      var x := found.value;
      FirstAfterUpdate(rows, HasId(x.id), Respond(code, BodyColumn(body, max)), InBucket(host, requestMethod));
      var after := Responded(rows, host, requestMethod, code, body, max);
      forall i | 0 <= i < |rows| && rows[i] != x ensures after[i] == rows[i] {
        if rows[i].id == x.id {
          SameKeySameRow(rows, rows[i], x);
        }
      }
    }
  }

  /** `update_response`: the bucket's row (by host and method, deleted or not) gets the response. */
  method UpdateResponse(store: HostStore, host: string, requestMethod: string, code: int,
                        body: Option<string>, max: int)
    requires store.Valid()
    modifies store`rows
    ensures store.Valid()
    ensures store.rows == Responded(old(store.rows), host, requestMethod, code, body, max)
  {
    var existing := First(store.rows, InBucket(host, requestMethod));
    if existing.Some? {
      var stored := body;
      if stored.Some? {
        if max == 0 {
          stored := None;
        } else {
          var truncated := Prefix(stored.value, max);
          if |stored.value| > |truncated| {
            truncated := truncated + "\n...";
          }
          stored := Some(truncated);
        }
      }
      assert stored == BodyColumn(body, max);
      var f := Respond(code, stored);
      UpdateWhereWellFormed(store.rows, HasId(existing.value.id), f, store.nextId);
      store.rows := UpdateWhere(store.rows, HasId(existing.value.id), f);
    }
  }

  // ---------------------------------------------------------------------------
  // The interceptor
  // ---------------------------------------------------------------------------

  /** What happens to an outbound call: it goes ahead, or it fails with a status and an error code. */
  datatype Decision = Proceed | Reject(status: int, code: string)

  /** 403 Forbidden, RFC 9110 section 15.5.4. */
  const Forbidden: Decision := Reject(403, "erm_blocked")
  /** 429 Too Many Requests, RFC 6585 section 4. */
  const TooManyRequests: Decision := Reject(429, "erm_rate_limited")

  /** Calls that are never looked at: no host, or the site itself, or the local machine. */
  predicate Skipped(host: string, siteHost: string)
  {
    Falsy(host) || host == siteHost || host == "localhost" || host == "127.0.0.1"
  }

  /** The method a call is logged under: GET when none is set. */
  function MethodOf(args: RequestArgs): string
  {
    match args.requestMethod
    case None => "GET"
    case Some(m) => m
  }

  /** The UPDATE after a violation: every row of the host, whatever its method, is blocked. */
  method BlockHost(store: HostStore, host: string)
    requires store.Valid() && First(store.rows, LiveOnHost(host)).Some?
    modifies store`rows
    ensures store.Valid()
    ensures store.rows == UpdateWhere(old(store.rows), OnHost(host), SetBlocked(true))
    ensures IsBlocked(store.rows, host)
  {
    BlockingHostBlocks(store.rows, host);
    ColumnUpdatesKeepKeys(true, 0, 0);
    UpdateWhereWellFormed(store.rows, OnHost(host), SetBlocked(true), store.nextId);
    store.rows := UpdateWhere(store.rows, OnHost(host), SetBlocked(true));
  }

  /**
   * The checks of `intercept_request` that can refuse a call: a blocked host gets
   * 403 and nothing changes; a call that comes too soon blocks every row of the
   * host and gets 429; otherwise the call may go on (None), the rate check having
   * recorded its time when it applies.
   */
  method Screen(store: HostStore, host: string, now: int) returns (refused: Option<Decision>)
    requires store.Valid()
    modifies store`rows, store`rateLimits
    ensures store.Valid()
    ensures IsBlocked(old(store.rows), host) ==>
      refused == Some(Forbidden) && store.rows == old(store.rows) && store.rateLimits == old(store.rateLimits)
    ensures var v := RateVerdict(RateInterval(old(store.rows), host), StoredTime(old(store.rateLimits), host), now);
      !IsBlocked(old(store.rows), host) && v == Violation ==>
        refused == Some(TooManyRequests)
        && store.rows == UpdateWhere(old(store.rows), OnHost(host), SetBlocked(true))
        && IsBlocked(store.rows, host) && store.rateLimits == old(store.rateLimits)
    ensures var v := RateVerdict(RateInterval(old(store.rows), host), StoredTime(old(store.rateLimits), host), now);
      !IsBlocked(old(store.rows), host) && v != Violation ==>
        refused == None && store.rows == old(store.rows)
        && store.rateLimits == AfterCheck(old(store.rateLimits), host, now, v)
  {
    if IsBlocked(store.rows, host) {
      return Some(Forbidden);
    }
    var violation := CheckRateLimit(store, host, now);
    if violation {
      BlockHost(store, host);
      return Some(TooManyRequests);
    }
    return None;
  }

  /**
   * `intercept_request`: skipped calls proceed untouched; a blocked host is
   * refused with 403 before any rate check; a call that comes too soon blocks
   * every row of its host and is refused with 429; any other call is logged and
   * proceeds. Refused calls are never logged.
   */
  method InterceptRequest(store: HostStore, cfg: Config, siteHost: string, host: string, url: string,
                          args: RequestArgs, src: Source, now: int) returns (d: Decision)
    requires store.Valid()
    modifies store`rows, store`nextId, store`rateLimits, store`notifications
    ensures store.Valid()
    ensures Skipped(host, siteHost) ==> d == Proceed && unchanged(store)
    ensures !Skipped(host, siteHost) && IsBlocked(old(store.rows), host) ==> d == Forbidden && unchanged(store)
    ensures var v := RateVerdict(RateInterval(old(store.rows), host), StoredTime(old(store.rateLimits), host), now);
      !Skipped(host, siteHost) && !IsBlocked(old(store.rows), host) && v == Violation ==>
        d == TooManyRequests
        && store.rows == UpdateWhere(old(store.rows), OnHost(host), SetBlocked(true))
        && IsBlocked(store.rows, host)
        && store.rateLimits == old(store.rateLimits) && store.nextId == old(store.nextId)
        && store.notifications == old(store.notifications)
    ensures var v := RateVerdict(RateInterval(old(store.rows), host), StoredTime(old(store.rateLimits), host), now);
      !Skipped(host, siteHost) && !IsBlocked(old(store.rows), host) && v != Violation ==>
        d == Proceed
        && store.rateLimits == AfterCheck(old(store.rateLimits), host, now, v)
        && store.rows == Logged(old(store.rows), old(store.nextId), cfg, host, url, MethodOf(args),
                                RequestSize(args), src, now)
        && store.nextId == NextIdAfter(old(store.rows), old(store.nextId), host, MethodOf(args))
        && store.notifications
           == Notified(old(store.notifications), old(store.rows), cfg, host, url, MethodOf(args), src, now)
  {
    if Skipped(host, siteHost) {
      return Proceed;
    }
    var refused := Screen(store, host, now);
    if refused.Some? {
      return refused.value;
    }
    var requestMethod := MethodOf(args);
    var size := CalculateRequestSize(args);
    LogRequest(store, cfg, host, url, requestMethod, size, src, now);
    return Proceed;
  }

  // ---------------------------------------------------------------------------
  // Daily retention sweep
  // ---------------------------------------------------------------------------

  /** The audit rows of an UPDATE followed by a selection depend only on the rows the selection is meant to pick. */
  lemma {:induction false} AuditsAfterUpdate(rows: seq<HostRecord>, p: HostRecord -> bool, f: HostRecord -> HostRecord,
                                             q: HostRecord -> bool, keep: HostRecord -> bool,
                                             audit: HostRecord -> DeletedRecord)
    requires forall x :: x in rows ==> (q(if p(x) then f(x) else x) <==> keep(x))
    requires forall x :: x in rows && keep(x) ==> audit(if p(x) then f(x) else x) == audit(x)
    ensures Map(Where(UpdateWhere(rows, p, f), q), audit) == Map(Where(rows, keep), audit)
  {
    if rows != [] {
      var x := rows[0];
      var y := if p(x) then f(x) else x;
      var u := UpdateWhere(rows, p, f);
      assert u[0] == y && u[1..] == UpdateWhere(rows[1..], p, f);
      assert x in rows;
      assert forall z :: z in rows[1..] ==> z in rows;
      AuditsAfterUpdate(rows[1..], p, f, q, keep, audit);
      var wu := Where(UpdateWhere(rows[1..], p, f), q);
      var wr := Where(rows[1..], keep);
      if keep(x) {
        assert Where(u, q) == [y] + wu;
        assert Where(rows, keep) == [x] + wr;
        assert ([y] + wu)[1..] == wu && ([x] + wr)[1..] == wr;
      } else {
        assert Where(u, q) == wu;
        assert Where(rows, keep) == wr;
      }
    }
  }

  /**
   * The daily cleanup: with automatic cleaning on and a positive retention, both
   * sweep phases run with the same cutoff, so every row not seen for `retention`
   * days goes, live or not, each with one audit row by user 0; every other row stays
   * as it was. Otherwise nothing happens.
   */
  method DailyCleanup(store: HostStore, retention: int, autoClean: bool, now: int)
    requires store.Valid()
    modifies store`rows, store`deleted
    ensures store.Valid()
    ensures !(autoClean && retention > 0) ==> store.rows == old(store.rows) && store.deleted == old(store.deleted)
    ensures autoClean && retention > 0 ==>
      var cutoff := Cutoff(now, retention);
      store.rows == Where(old(store.rows), Not(IsStale(cutoff)))
      && store.deleted == old(store.deleted) + Map(Where(old(store.rows), IsStale(cutoff)), Audit(now, 0))
  {
    if autoClean && retention > 0 {
      var cutoff := Cutoff(now, retention);
      ghost var rows0 := store.rows;
      ghost var deleted0 := store.deleted;
      var softOk := store.CleanupOldLogs(retention, now);
      assert softOk;
      ghost var rows1 := store.rows;
      assert rows1 == SoftSweep(rows0, cutoff);
      assert store.deleted == deleted0;
      var hardOk := store.PermanentlyDeleteOldLogs(retention, now);
      assert hardOk;
      assert store.rows == HardSweep(rows1, cutoff);
      assert store.deleted == deleted0 + Map(Where(rows1, StaleDeleted(cutoff)), Audit(now, 0));
      DailySweepRemovesStale(rows0, cutoff);
      AuditsAfterUpdate(rows0, StaleLive(cutoff), SetDeleted(true), StaleDeleted(cutoff), IsStale(cutoff), Audit(now, 0));
    }
  }
}
