/**
 * The settings sanitisers: each clamps or filters one option before it is stored,
 * so every value the core reads back lies in a known range. The `(int)` cast of the
 * submitted text happens before these functions; they take the integer.
 */
module Settings {
  import opened PhpStrings
  import opened Wrappers

  const MaxResponseBodyCap: int := 1024 * 1024

  /** Retention in days: never negative (0 turns the sweep off). */
  function SanitizeRetentionDays(value: int): (r: int)
    ensures r >= 0
    ensures value >= 0 ==> r == value
    ensures value < 0 ==> r == 0
  {
    if value < 0 then 0 else value
  }

  /** A checkbox is stored as 1 when the submitted value is truthy and 0 otherwise. */
  function SanitizeCheckbox(value: string): (r: int)
    ensures r == 0 || r == 1
    ensures r == 1 <==> !Falsy(value)
  {
    if Falsy(value) then 0 else 1
  }

  /** Rows per page: clamped into [5, 200]. */
  function SanitizePerPage(value: int): (r: int)
    ensures 5 <= r <= 200
    ensures 5 <= value <= 200 ==> r == value
    ensures value < 5 ==> r == 5
    ensures value > 200 ==> r == 200
  {
    var capped := if value < 200 then value else 200;
    if capped > 5 then capped else 5
  }

  /** Length of a row's URL history: clamped into [1, 100]. */
  function SanitizeMaxUrls(value: int): (r: int)
    ensures 1 <= r <= 100
    ensures 1 <= value <= 100 ==> r == value
    ensures value < 1 ==> r == 1
    ensures value > 100 ==> r == 100
  {
    var capped := if value < 100 then value else 100;
    if capped > 1 then capped else 1
  }

  /** Stored response body length: clamped into [0, 1 MiB]; 0 turns body storage off. */
  function SanitizeMaxResponseBodyLength(value: int): (r: int)
    ensures 0 <= r <= MaxResponseBodyCap
    ensures 0 <= value <= MaxResponseBodyCap ==> r == value
    ensures value < 0 ==> r == 0
    ensures value > MaxResponseBodyCap ==> r == MaxResponseBodyCap
  {
    var capped := if value < MaxResponseBodyCap then value else MaxResponseBodyCap;
    if capped > 0 then capped else 0
  }

  /** Each integer clamp is idempotent: sanitising a stored value again leaves it alone. */
  lemma ClampsIdempotent(value: int)
    ensures SanitizeRetentionDays(SanitizeRetentionDays(value)) == SanitizeRetentionDays(value)
    ensures SanitizePerPage(SanitizePerPage(value)) == SanitizePerPage(value)
    ensures SanitizeMaxUrls(SanitizeMaxUrls(value)) == SanitizeMaxUrls(value)
    ensures SanitizeMaxResponseBodyLength(SanitizeMaxResponseBodyLength(value))
         == SanitizeMaxResponseBodyLength(value)
  {
  }

  /** The dashboard columns a user may choose. */
  const AllowedColumns: set<string> :=
    {"host", "source", "method", "count", "size", "status", "first_request", "last_request", "actions"}

  /** The columns shown when the submitted value is not a list. */
  const DefaultColumns: seq<string> := ["host", "count", "status", "last_request"]

  /** `sub` is `xs` with some elements left out and the rest kept in order. */
  ghost predicate Subsequence(sub: seq<string>, xs: seq<string>)
    decreases |xs|
  {
    sub == [] || (xs != [] && if sub[0] == xs[0] then Subsequence(sub[1..], xs[1..]) else Subsequence(sub, xs[1..]))
  }

  /** The elements of `xs` that lie in `allowed`, in their order (`array_intersect`). */
  function KeepAllowed(xs: seq<string>, allowed: set<string>): (r: seq<string>)
    ensures Subsequence(r, xs)
    ensures forall c :: c in r ==> c in allowed
    ensures forall c :: c in allowed ==> multiset(r)[c] == multiset(xs)[c]
  {
    if xs == [] then []
    else
      var rest := KeepAllowed(xs[1..], allowed);
      assert xs == [xs[0]] + xs[1..];
      assert multiset(xs) == multiset{xs[0]} + multiset(xs[1..]);
      if xs[0] in allowed then
        assert ([xs[0]] + rest)[1..] == rest;
        assert multiset([xs[0]] + rest) == multiset{xs[0]} + multiset(rest);
        [xs[0]] + rest
      else
        assert rest == [] || rest[0] != xs[0];
        rest
  }

  /**
   * The columns option: anything that is not a list (None) gives the default four;
   * a list keeps exactly its allowed entries, in order, duplicates included.
   */
  function SanitizeColumns(value: Option<seq<string>>): (r: seq<string>)
    ensures value.None? ==> r == DefaultColumns
    ensures value.Some? ==> Subsequence(r, value.value)
    ensures forall c :: c in r ==> c in AllowedColumns
    ensures value.Some? ==> forall c :: c in AllowedColumns ==> multiset(r)[c] == multiset(value.value)[c]
  {
    match value
    case None => DefaultColumns
    case Some(xs) => KeepAllowed(xs, AllowedColumns)
  }
}
