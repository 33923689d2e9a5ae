/**
 * The rows of the plugin's two tables and the values passed between its parts.
 * Time is a count of seconds; NULL text columns are the empty string, which PHP's
 * `empty()` treats alike.
 */
module Records {
  import opened Wrappers
  import opened PhpStrings

  /** Seconds in the `INTERVAL n DAY` of the retention sweep. */
  const Day: int := 86400

  /** `DATE_SUB(now, INTERVAL days DAY)`. */
  function Cutoff(now: int, days: int): int
  {
    now - days * Day
  }

  /** One row of the requests table: the aggregate for one (host, method) bucket. */
  datatype HostRecord = HostRecord(
    id: int,
    host: string,
    requestMethod: string,
    urlExample: string,
    urlsLog: string,
    responseCode: Option<int>,
    requestSize: int,
    responseBody: Option<string>,
    sourceFile: string,
    sourcePlugin: string,
    sourceTheme: string,
    requestCount: int,
    firstTimestamp: int,
    lastTimestamp: int,
    isBlocked: bool,
    isDeleted: bool,
    rateLimitInterval: int,
    rateLimitCalls: int)

  /** One row of the deleted-requests audit table; rows are only ever appended. */
  datatype DeletedRecord = DeletedRecord(
    host: string,
    urlExample: string,
    wasBlocked: bool,
    deletedAt: int,
    deletedBy: int)

  /** The audit row written when `x` is deleted at `now` by user `user`. */
  function AuditOf(x: HostRecord, now: int, user: int): (d: DeletedRecord)
    ensures d.host == x.host && d.urlExample == x.urlExample && d.wasBlocked == x.isBlocked
    ensures d.deletedAt == now && d.deletedBy == user
  {
    DeletedRecord(x.host, x.urlExample, x.isBlocked, now, user)
  }

  /** Who made an outbound call, as far as it is known: "" where nothing was found. */
  datatype Source = Source(plugin: string, theme: string, file: string)

  /** The component a request is credited to, for notifications and the detail view. */
  datatype Attribution = FromPlugin(name: string) | FromTheme(name: string) | FromCore

  /** The plugin when it is known, else the theme when it is known, else WordPress core. */
  function Attribute(plugin: string, theme: string): (a: Attribution)
    ensures !Falsy(plugin) ==> a == FromPlugin(plugin)
    ensures Falsy(plugin) && !Falsy(theme) ==> a == FromTheme(theme)
    ensures Falsy(plugin) && Falsy(theme) ==> a == FromCore
  {
    if !Falsy(plugin) then FromPlugin(plugin)
    else if !Falsy(theme) then FromTheme(theme)
    else FromCore
  }

  /** One entry of the "new external request" notification list. */
  datatype Notification = Notification(timestamp: int, host: string, url: string, source: Attribution)

  /** The numbers shown above the dashboard: live rows, and how many are blocked or allowed. */
  datatype StatusCounts = StatusCounts(total: nat, blocked: nat, allowed: nat)

  /** The stored options the core reads (`erm_pro_*`), as integers and flags after `(int)` casts. */
  datatype Config = Config(
    trackAllUrls: bool,
    maxUrlsLogged: int,
    enableNotifications: bool,
    maxResponseBodyLength: int,
    retentionDays: int,
    autoClean: bool)
}
