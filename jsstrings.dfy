/**
  The JavaScript string and path built-ins the controller uses to derive names
  and paths: `String.prototype.indexOf`, `String.prototype.replace` with a
  string pattern (which replaces only the first occurrence),
  `split('/').pop()` and Node's `path.join`.
 */
module JsStrings {
  import opened Options

  /** `pat` occurs in `s` starting at index `i`. */
  predicate OccursAt(s: string, pat: string, i: int)
  {
    0 <= i && i + |pat| <= |s| && s[i..i + |pat|] == pat
  }

  /** `s.indexOf(pat, from)`: the first index at or after `from` where `pat` occurs. */
  function IndexOf(s: string, pat: string, from: nat): (r: Option<nat>)
    ensures r.Some? ==> from <= r.value && OccursAt(s, pat, r.value)
    ensures r.Some? ==> forall j :: from <= j < r.value ==> !OccursAt(s, pat, j)
    ensures r.None? ==> forall j :: from <= j ==> !OccursAt(s, pat, j)
    decreases |s| - from
  {
    if from + |pat| > |s| then None
    else if s[from..from + |pat|] == pat then Some(from)
    else IndexOf(s, pat, from + 1)
  }

  /**
    `s.replace(pat, '')` with a string `pat`: only the FIRST occurrence of
    `pat` is removed; a string without `pat` is returned as it is. (The empty
    replacement has no `$` patterns to expand.)
   */
  function RemoveFirst(s: string, pat: string): (r: string)
    ensures r == s || |r| + |pat| == |s|
    ensures forall c :: c in r ==> c in s
    ensures (forall j :: !OccursAt(s, pat, j)) ==> r == s
    ensures forall i ::
      OccursAt(s, pat, i) && (forall j :: 0 <= j < i ==> !OccursAt(s, pat, j)) ==>
        r == s[..i] + s[i + |pat|..]
  {
    match IndexOf(s, pat, 0)
    case None => s
    case Some(i) => s[..i] + s[i + |pat|..]
  }

  /**
    `s.split('/').pop()`: the text after the last `/`, or all of `s` when it
    has no `/` (an empty string splits into one empty piece).
   */
  function LastSegment(s: string): (r: string)
    ensures '/' !in r
    ensures |r| <= |s| && r == s[|s| - |r|..]
    ensures |r| < |s| ==> s[|s| - |r| - 1] == '/'
  {
    if s == [] then []
    else if s[|s| - 1] == '/' then []
    else LastSegment(s[..|s| - 1]) + [s[|s| - 1]]
  }

  /** Node's `path.join(dir, name)` for one path segment `name`. */
  function Join(dir: string, name: string): string
  {
    dir + "/" + name
  }

  /** A string without `/` is its own last segment. */
  lemma LastSegmentOfPlainName(s: string)
    requires '/' !in s
    ensures LastSegment(s) == s
  {
  }

  /** The last segment of `a/b`, for a `b` without `/`, is `b`. */
  lemma {:induction false} LastSegmentAfterSlash(a: string, b: string)
    requires '/' !in b
    ensures LastSegment(a + "/" + b) == b
  {
    var s := a + "/" + b;
    if b != [] {
      var b' := b[..|b| - 1];
      assert s[..|s| - 1] == a + "/" + b';
      LastSegmentAfterSlash(a, b');
      assert b == b' + [b[|b| - 1]];
    }
  }

  /**
    Removing `pat` from `u + pat + t`, where `pat` first occurs right after
    `u`, removes that occurrence only: later occurrences inside `t` survive.
   */
  lemma RemoveFirstRemovesOnlyFirst(u: string, pat: string, t: string)
    requires forall j :: 0 <= j < |u| ==> !OccursAt(u + pat + t, pat, j)
    ensures RemoveFirst(u + pat + t, pat) == u + t
  {
    var s := u + pat + t;
    assert s[|u|..|u| + |pat|] == pat;
    assert OccursAt(s, pat, |u|);
    assert s[..|u|] == u && s[|u| + |pat|..] == t;
  }
}
