/**
 * The few PHP string primitives the plugin's bookkeeping relies on: `empty()` on a
 * string, `trim()`, and `explode`/`implode` on the newline separator. Strings are
 * sequences of characters; a character stands for one byte.
 */
module PhpStrings {

  /** PHP's `empty()` on a string value: true for "" and for "0". */
  predicate Falsy(s: string) {
    s == "" || s == "0"
  }

  /** The characters PHP's `trim()` strips by default: space, tab, LF, CR, NUL and vertical tab. */
  predicate IsTrimChar(c: char) {
    c == ' ' || c == '\t' || c == '\n' || c == '\r' || c as int == 0 || c as int == 11
  }

  /** `ltrim()`: the suffix left after dropping leading trim characters. */
  function TrimLeft(s: string): (r: string)
    ensures |r| <= |s| && r == s[|s| - |r|..]
    ensures r != [] ==> !IsTrimChar(r[0])
    ensures forall i :: 0 <= i < |s| - |r| ==> IsTrimChar(s[i])
  {
    if s != [] && IsTrimChar(s[0]) then
      var r := TrimLeft(s[1..]);
      assert forall i :: 1 <= i < |s| - |r| ==> s[i] == s[1..][i - 1];
      r
    else s
  }

  /** `rtrim()`: the prefix left after dropping trailing trim characters. */
  function TrimRight(s: string): (r: string)
    ensures |r| <= |s| && r == s[..|r|]
    ensures r != [] ==> !IsTrimChar(r[|r| - 1])
    ensures forall i :: |r| <= i < |s| ==> IsTrimChar(s[i])
  {
    if s != [] && IsTrimChar(s[|s| - 1]) then
      var r := TrimRight(s[..|s| - 1]);
      assert forall i :: |r| <= i < |s| - 1 ==> s[i] == s[..|s| - 1][i];
      r
    else s
  }

  /**
   * `trim()`: neither end of the result is a trim character, and the result holds no
   * character the input lacks; `TrimMiddle` places it in the input.
   */
  function Trim(s: string): (r: string)
    ensures |r| <= |s|
    ensures r != [] ==> !IsTrimChar(r[0]) && !IsTrimChar(r[|r| - 1])
    ensures forall c :: c in r ==> c in s
  {
    var left := TrimLeft(s);
    var r := TrimRight(left);
    forall c | c in r ensures c in s {
      var i :| 0 <= i < |r| && r[i] == c;
      assert r[i] == left[i] == s[|s| - |left| + i];
    }
    r
  }

  /**
   * The trimmed string is the contiguous middle of the input: it starts where `ltrim`
   * stops, and everything dropped before or after it is a trim character.
   */
  lemma TrimMiddle(s: string)
    ensures var r, k := Trim(s), |s| - |TrimLeft(s)|;
      k + |r| <= |s| && (forall i :: 0 <= i < |r| ==> r[i] == s[k + i]) &&
      (forall i :: 0 <= i < k ==> IsTrimChar(s[i])) &&
      (forall i :: k + |r| <= i < |s| ==> IsTrimChar(s[i]))
  {
    var left := TrimLeft(s);
    SliceOfSuffix(s, left, TrimRight(left), |s| - |left|);
  }

  /**
   * A prefix `r` of the suffix `left` of `s` starting at `k`, with only trim characters
   * after `r` in `left`, is the slice of `s` at `k`, followed by trim characters only.
   */
  lemma SliceOfSuffix(s: string, left: string, r: string, k: int)
    requires 0 <= k <= |s| && left == s[k..]
    requires |r| <= |left| && r == left[..|r|]
    requires forall i :: |r| <= i < |left| ==> IsTrimChar(left[i])
    ensures k + |r| <= |s| && forall i :: 0 <= i < |r| ==> r[i] == s[k + i]
    ensures forall i :: k + |r| <= i < |s| ==> IsTrimChar(s[i])
    ensures forall c :: c in r ==> c in s
  {
    forall i | k + |r| <= i < |s| ensures IsTrimChar(s[i]) {
      assert s[i] == left[i - k];
    }
    forall c | c in r ensures c in s {
      var i :| 0 <= i < |r| && r[i] == c;
      assert r[i] == s[k + i];
    }
  }

  /** Trimming twice is trimming once. */
  lemma TrimIdempotent(s: string)
    ensures Trim(Trim(s)) == Trim(s)
  {
    var t := Trim(s);
    assert TrimLeft(t) == t;
    assert TrimRight(t) == t;
  }

  /** `implode("\n", parts)`: the parts joined with one newline between neighbours. */
  function Implode(parts: seq<string>): string
  {
    if |parts| == 0 then ""
    else if |parts| == 1 then parts[0]
    else parts[0] + "\n" + Implode(parts[1..])
  }

  /**
   * `explode("\n", s)`: the pieces between newlines. There is always at least one
   * piece, no piece holds a newline, and joining the pieces gives back `s`.
   */
  function Explode(s: string): (parts: seq<string>)
    ensures |parts| >= 1
    ensures forall p :: p in parts ==> '\n' !in p
    ensures Implode(parts) == s
  {
    if s == [] then [""]
    else
      var rest := Explode(s[1..]);
      if s[0] == '\n' then
        assert ([""] + rest)[1..] == rest;
        [""] + rest
      else
        var parts := [[s[0]] + rest[0]] + rest[1..];
        assert parts[1..] == rest[1..];
        assert s == [s[0]] + s[1..];
        parts
  }

  /** Splitting a single newline-free piece gives just that piece. */
  lemma {:induction false} ExplodeSingle(a: string)
    requires '\n' !in a
    ensures Explode(a) == [a]
  {
    if a != [] {
      assert '\n' !in a[1..];
      ExplodeSingle(a[1..]);
    }
  }

  /** Splitting at the first newline: the piece before it, then the pieces of the rest. */
  lemma {:induction false} ExplodeCons(a: string, b: string)
    requires '\n' !in a
    ensures Explode(a + "\n" + b) == [a] + Explode(b)
  {
    if a == [] {
      assert a + "\n" + b == "\n" + b;
      assert ("\n" + b)[1..] == b;
    } else {
      var s := a + "\n" + b;
      assert '\n' !in a[1..];
      assert s[0] == a[0] && s[1..] == a[1..] + "\n" + b;
      ExplodeCons(a[1..], b);
      var rest := Explode(s[1..]);
      assert rest[0] == a[1..] && rest[1..] == Explode(b);
      assert [a[0]] + a[1..] == a;
    }
  }

  /** Joining newline-free pieces and splitting again gives the pieces back. */
  lemma {:induction false} ExplodeImplode(parts: seq<string>)
    requires |parts| >= 1
    requires forall p :: p in parts ==> '\n' !in p
    ensures Explode(Implode(parts)) == parts
  {
    if |parts| == 1 {
      ExplodeSingle(parts[0]);
    } else {
      assert parts[0] in parts;
      assert forall p :: p in parts[1..] ==> p in parts;
      ExplodeImplode(parts[1..]);
      ExplodeCons(parts[0], Implode(parts[1..]));
      assert [parts[0]] + parts[1..] == parts;
    }
  }
}
