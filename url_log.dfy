/**
 * The per-row URL history (`urls_log`): a text column holding URLs joined by
 * newlines. It is read back by splitting on newlines, trimming each piece and
 * dropping the empty ones, both when a request is logged and in the detail view.
 */
module UrlLog {
  import opened Wrappers
  import opened PhpStrings

  /** A URL that comes back unchanged from a stored log: no newline, nothing to trim, not empty. */
  predicate IsEntry(u: string) {
    '\n' !in u && Trim(u) == u && !Falsy(u)
  }

  /** What one piece contributes: its trimmed form, unless that is PHP-empty. */
  function Kept(p: string): (k: seq<string>)
    ensures '\n' !in p ==> forall e :: e in k ==> IsEntry(e)
  {
    TrimIdempotent(p);
    if Falsy(Trim(p)) then [] else [Trim(p)]
  }

  /** `array_filter(array_map('trim', parts))`, order kept. */
  function TrimAndFilter(parts: seq<string>): (es: seq<string>)
    ensures |es| <= |parts|
    ensures (forall p :: p in parts ==> '\n' !in p) ==> forall e :: e in es ==> IsEntry(e)
  {
    if parts == [] then []
    else
      assert parts[0] in parts;
      assert forall p :: p in parts[1..] ==> p in parts;
      Kept(parts[0]) + TrimAndFilter(parts[1..])
  }

  /** Pieces that are already entries pass through trimming and filtering untouched. */
  lemma {:induction false} TrimAndFilterEntries(es: seq<string>)
    requires forall e :: e in es ==> IsEntry(e)
    ensures TrimAndFilter(es) == es
  {
    if es != [] {
      var head, tail := es[0], es[1..];
      assert Kept(head) == [head] by {
        assert head in es;
      }
      assert forall e :: e in tail ==> IsEntry(e) by {
        assert forall e :: e in tail ==> e in es;
      }
      TrimAndFilterEntries(tail);
      HeadAndTail(es);
    }
  }

  /** A non-empty list is its head followed by its tail. */
  lemma HeadAndTail<T>(xs: seq<T>)
    requires xs != []
    ensures xs == [xs[0]] + xs[1..]
  {
  }

  /** A single piece contributes its trimmed form, unless that is PHP-empty. */
  lemma TrimAndFilterOne(p: string)
    ensures TrimAndFilter([p]) == if Falsy(Trim(p)) then [] else [Trim(p)]
  {
    assert [p][1..] == [];
  }

  /** Trimming and filtering goes piece by piece: the pieces of `a` come out before those of `b`. */
  lemma {:induction false} TrimAndFilterConcat(a: seq<string>, b: seq<string>)
    ensures TrimAndFilter(a + b) == TrimAndFilter(a) + TrimAndFilter(b)
  {
    if a == [] {
      assert a + b == b;
    } else {
      assert (a + b)[0] == a[0] && (a + b)[1..] == a[1..] + b;
      TrimAndFilterConcat(a[1..], b);
      var k, x, y := Kept(a[0]), TrimAndFilter(a[1..]), TrimAndFilter(b);
      assert k + (x + y) == (k + x) + y;
    }
  }

  /** The URLs a stored log holds, as the plugin reads it back. */
  function Entries(log: string): (es: seq<string>)
    ensures forall e :: e in es ==> IsEntry(e)
  {
    TrimAndFilter(Explode(log))
  }

  /** A log that PHP treats as empty ("" or "0") holds no URL. */
  lemma FalsyLogIsEmpty(log: string)
    requires Falsy(log)
    ensures Entries(log) == []
  {
    assert '\n' !in log by { assert log == "" || log == "0"; }
    ExplodeSingle(log);
    TrimAndFilterOne(log);
    TrimOfFalsy(log);
  }

  /** "" and "0" have nothing to trim. */
  lemma TrimOfFalsy(s: string)
    requires Falsy(s)
    ensures Trim(s) == s
  {
  }

  /** Writing entries out and reading them back gives the same entries. */
  lemma EntriesOfImplode(es: seq<string>)
    requires forall e :: e in es ==> IsEntry(e)
    ensures Entries(Implode(es)) == es
  {
    if es == [] {
      FalsyLogIsEmpty("");
    } else {
      ExplodeImplode(es);
      TrimAndFilterEntries(es);
    }
  }

  /** The log a new row starts with when tracking is on is the URL alone. */
  lemma EntriesOfSingle(url: string)
    requires IsEntry(url)
    ensures Entries(url) == [url]
  {
    ExplodeSingle(url);
    TrimAndFilterEntries([url]);
  }

  /** One append to a bounded list: when the list grew past `maxUrls`, its oldest entry goes. */
  function DropOldest(es: seq<string>, maxUrls: int): seq<string>
  {
    if |es| > maxUrls && es != [] then es[1..] else es
  }

  /**
   * What logging `url` on an existing row writes into `urls_log` when tracking is
   * on: the stored log when it already lists the URL, else the listed URLs plus this
   * one with the oldest dropped past `maxUrls`, joined again.
   */
  function NextLog(stored: string, url: string, maxUrls: int): string
  {
    var log := if Falsy(stored) then "" else stored;
    var es := Entries(log);
    if url in es then log else Implode(DropOldest(es + [url], maxUrls))
  }

  /** A URL already in the history leaves the stored log exactly as it was. */
  lemma NextLogKeepsListedUrl(stored: string, url: string, maxUrls: int)
    requires url in Entries(stored)
    ensures NextLog(stored, url, maxUrls) == stored
  {
    if Falsy(stored) {
      FalsyLogIsEmpty(stored);
    }
  }

  /**
   * Logging a newline-free URL the history does not list, as read back: the listed
   * URLs and then the URL's trimmed form, unless that is PHP-empty, after the oldest
   * piece is dropped once the list grew past `maxUrls`.
   */
  lemma NextLogAppendsUrl(stored: string, url: string, maxUrls: int)
    requires '\n' !in url && url !in Entries(stored)
    ensures Entries(NextLog(stored, url, maxUrls)) == TrimAndFilter(DropOldest(Entries(stored) + [url], maxUrls))
  {
    if Falsy(stored) {
      FalsyLogIsEmpty(stored);
    }
    var xs := DropOldest(Entries(stored) + [url], maxUrls);
    if xs == [] {
      FalsyLogIsEmpty("");
    } else {
      assert forall e :: e in xs ==> e in Entries(stored) + [url];
      ExplodeImplode(xs);
    }
  }

  /**
   * A new URL is appended after the listed ones, and the oldest one is dropped when
   * the list would grow past `maxUrls`.
   */
  lemma NextLogAppendsNewUrl(stored: string, url: string, maxUrls: int)
    requires IsEntry(url) && url !in Entries(stored)
    ensures Entries(NextLog(stored, url, maxUrls)) == DropOldest(Entries(stored) + [url], maxUrls)
  {
    if Falsy(stored) {
      FalsyLogIsEmpty(stored);
      FalsyLogIsEmpty("");
    }
    var es := DropOldest(Entries(stored) + [url], maxUrls);
    assert forall e :: e in es ==> e in Entries(stored) + [url];
    EntriesOfImplode(es);
  }

  /** Appending a URL the list lacks keeps the list free of repeats. */
  lemma AppendKeepsDistinct(es: seq<string>, url: string)
    requires Distinct(es) && url !in es
    ensures Distinct(es + [url])
  {
    var grown := es + [url];
    forall i, j | 0 <= i < j < |grown| ensures grown[i] != grown[j] {
      if j == |es| {
        assert grown[i] == es[i] && es[i] in es;
      }
    }
  }

  /** Dropping the oldest entry keeps the list free of repeats. */
  lemma DropOldestKeepsDistinct(es: seq<string>, maxUrls: int)
    requires Distinct(es)
    ensures Distinct(DropOldest(es, maxUrls))
  {
    var after := DropOldest(es, maxUrls);
    if after != es {
      forall i, j | 0 <= i < j < |after| ensures after[i] != after[j] {
        assert after[i] == es[i + 1] && after[j] == es[j + 1];
      }
    }
  }

  /** The history never grows past the larger of `maxUrls` and its previous length. */
  lemma NextLogBounded(stored: string, url: string, maxUrls: int)
    requires '\n' !in url
    ensures |Entries(NextLog(stored, url, maxUrls))|
         <= if maxUrls > |Entries(stored)| then maxUrls else |Entries(stored)|
  {
    if url in Entries(stored) {
      NextLogKeepsListedUrl(stored, url, maxUrls);
    } else {
      NextLogAppendsUrl(stored, url, maxUrls);
    }
  }

  /**
   * The history never repeats a URL unless it already did, provided the URL is listed
   * already or its trimmed form is not: the lookup compares the URL as given with the
   * trimmed entries, so a URL with surrounding blanks whose trimmed form is listed is
   * appended again (`NextLogRepeatsPaddedUrl`).
   */
  lemma NextLogDistinct(stored: string, url: string, maxUrls: int)
    requires '\n' !in url && Distinct(Entries(stored))
    requires url in Entries(stored) || Trim(url) !in Entries(stored)
    ensures Distinct(Entries(NextLog(stored, url, maxUrls)))
  {
    var es := Entries(stored);
    if url in es {
      NextLogKeepsListedUrl(stored, url, maxUrls);
    } else {
      NextLogAppendsUrl(stored, url, maxUrls);
      DropOldestAppended(es, url, maxUrls);
      TrimAndFilterOne(url);
      var added := TrimAndFilter([url]);
      DistinctAfterAppend(es, added);
      if |es| + 1 <= maxUrls {
        TrimAndFilterConcat(es, [url]);
        TrimAndFilterEntries(es);
      } else if es != [] {
        TrimAndFilterConcat(es[1..], [url]);
        assert forall e :: e in es[1..] ==> IsEntry(e) by {
          assert forall e :: e in es[1..] ==> e in es;
        }
        TrimAndFilterEntries(es[1..]);
      }
    }
  }

  /** The three shapes of a list after one append and the drop that may follow it. */
  lemma DropOldestAppended(es: seq<string>, url: string, maxUrls: int)
    ensures DropOldest(es + [url], maxUrls)
         == if |es| + 1 <= maxUrls then es + [url] else if es == [] then [] else es[1..] + [url]
  {
    if |es| + 1 > maxUrls && es != [] {
      assert (es + [url])[1..] == es[1..] + [url];
    }
  }

  /** Appending entries the list lacks keeps it free of repeats, with or without its head. */
  lemma DistinctAfterAppend(es: seq<string>, added: seq<string>)
    requires Distinct(es) && Distinct(added)
    requires forall e :: e in added ==> e !in es
    ensures Distinct(es + added)
    ensures es != [] ==> Distinct(es[1..] + added)
  {
    var all := es + added;
    forall i, j | 0 <= i < j < |all| ensures all[i] != all[j] {
      if j < |es| {
        assert all[i] == es[i] && all[j] == es[j];
      } else if i < |es| {
        assert all[j] == added[j - |es|] && all[j] in added;
        assert all[i] == es[i] && es[i] in es;
      } else {
        assert all[i] == added[i - |es|] && all[j] == added[j - |es|];
      }
    }
    if es != [] {
      assert es[1..] + added == all[1..];
      forall i, j | 0 <= i < j < |all[1..]| ensures all[1..][i] != all[1..][j] {
        assert all[i + 1] != all[j + 1];
      }
    }
  }

  /**
   * A URL whose trimmed form is the one listed entry `u`, but which differs from it, is
   * appended again: the history then reads `u` twice. (`u` is an entry: newline-free,
   * trimmed and not PHP-empty.)
   */
  lemma PaddedUrlRepeats(u: string, padded: string, maxUrls: int)
    requires '\n' !in u && Trim(u) == u && !Falsy(u)
    requires '\n' !in padded && Trim(padded) == u && padded != u && maxUrls >= 2
    ensures Entries(NextLog(u, padded, maxUrls)) == [u, u]
  {
    EntriesOfSingle(u);
    NextLogAppendsUrl(u, padded, maxUrls);
    DropOldestAppended([u], padded, maxUrls);
    TrimAndFilterConcat([u], [padded]);
    TrimAndFilterOne(u);
    TrimAndFilterOne(padded);
    Pair(u, u);
  }

  /** Two one-element lists joined are the two-element list. */
  lemma Pair<T>(x: T, y: T)
    ensures [x] + [y] == [x, y]
  {
  }

  /** Three one-element lists joined are the three-element list. */
  lemma Triple<T>(x: T, y: T, z: T)
    ensures [x] + ([y] + [z]) == [x, y, z]
  {
  }

  /** For instance, after "a " is logged on a row whose history is "a", the history reads "a" twice. */
  lemma NextLogRepeatsPaddedUrl()
    ensures Entries(NextLog("a", "a ", 10)) == ["a", "a"]
  {
    TrimsOfA();
    assert '\n' !in "a" && !Falsy("a") && '\n' !in "a " && "a " != "a";
    PaddedUrlRepeats("a", "a ", 10);
  }

  /**
   * A URL holding a newline is stored as given, but the next read splits it
   * into several entries. After `v + "\n" + w` is logged on a row whose
   * history is `u`, with room for one URL, the history lists two.
   */
  lemma NewlineUrlOverflows(u: string, v: string, w: string)
    requires IsEntry(u) && IsEntry(v) && IsEntry(w)
    ensures Entries(NextLog(u, v + "\n" + w, 1)) == [v, w]
  {
    var url := v + "\n" + w;
    assert url[|v|] == '\n';
    NextLogOfSingle(u, url, 1);
    EntriesOfJoin(v, w);
    EntriesOfSingle(w);
    Pair(v, w);
  }

  /**
   * The same split defeats the repeat check: `v + "\n" + u` is not listed as
   * a whole, so it is appended, and the history then reads `u` twice.
   */
  lemma NewlineUrlRepeats(u: string, v: string, maxUrls: int)
    requires IsEntry(u) && IsEntry(v) && maxUrls >= 2
    ensures Entries(NextLog(u, v + "\n" + u, maxUrls)) == [u, v, u]
  {
    var url := v + "\n" + u;
    assert url[|v|] == '\n';
    NextLogOfSingle(u, url, maxUrls);
    EntriesOfJoin(u, url);
    EntriesOfJoin(v, u);
    EntriesOfSingle(u);
    Triple(u, v, u);
  }

  /** The stored log after a URL with a newline is logged on a row whose history is the one entry `u`. */
  lemma NextLogOfSingle(u: string, url: string, maxUrls: int)
    requires IsEntry(u) && '\n' in url
    ensures NextLog(u, url, maxUrls) == if maxUrls >= 2 then u + "\n" + url else url
  {
    EntriesOfSingle(u);
    assert url !in [u];
    DropOldestAppended([u], url, maxUrls);
    Pair(u, url);
    assert Implode([u, url]) == u + "\n" + Implode([url]);
  }

  /** Reading a log whose first line is the entry `a` gives `a`, then the entries of the rest. */
  lemma EntriesOfJoin(a: string, b: string)
    requires IsEntry(a)
    ensures Entries(a + "\n" + b) == [a] + Entries(b)
  {
    ExplodeCons(a, b);
    TrimAndFilterConcat([a], Explode(b));
    TrimAndFilterOne(a);
  }

  /** "a" trims to itself, and so does "a " to "a". */
  lemma TrimsOfA()
    ensures Trim("a") == "a" && Trim("a ") == "a"
  {
    TrimLeftOfA();
    TrimRightOfA();
  }

  lemma TrimLeftOfA()
    ensures TrimLeft("a") == "a" && TrimLeft("a ") == "a "
  {
  }

  lemma TrimRightOfA()
    ensures TrimRight("a") == "a" && TrimRight("a ") == "a"
  {
  }

  /** With room for at least one URL, the logged URL is in the history afterwards, as its newest entry when new. */
  lemma NextLogListsUrl(stored: string, url: string, maxUrls: int)
    requires IsEntry(url) && maxUrls >= 1
    ensures url in Entries(NextLog(stored, url, maxUrls))
  {
    if url in Entries(stored) {
      NextLogKeepsListedUrl(stored, url, maxUrls);
    } else {
      NextLogAppendsNewUrl(stored, url, maxUrls);
      DropOldestKeepsNewest(Entries(stored), url, maxUrls);
    }
  }

  /** With room for one entry, the entry just appended survives the drop, as the newest. */
  lemma DropOldestKeepsNewest(es: seq<string>, url: string, maxUrls: int)
    requires maxUrls >= 1
    ensures var after := DropOldest(es + [url], maxUrls);
      after != [] && after[|after| - 1] == url
  {
    var grown := es + [url];
    assert grown[|grown| - 1] == url;
  }
}
