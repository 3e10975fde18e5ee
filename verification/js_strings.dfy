/**
 * The few `String.prototype` operations the application relies on, over
 * strings of code points: `startsWith`, `indexOf`, `replace` with a string
 * pattern, and `trim`.
 */
module JsStrings {
  import opened Wrappers

  /** ECMAScript WhiteSpace or LineTerminator: exactly the code points `trim` strips. */
  predicate IsJsSpace(c: char) {
    || c == '\t' || c == '\n' || c == '\U{000B}' || c == '\U{000C}' || c == '\r' || c == ' '
    || c == '\U{00A0}' || c == '\U{1680}' || ('\U{2000}' <= c <= '\U{200A}')
    || c == '\U{2028}' || c == '\U{2029}' || c == '\U{202F}' || c == '\U{205F}'
    || c == '\U{3000}' || c == '\U{FEFF}'
  }

  predicate AllSpace(s: string) {
    forall k :: 0 <= k < |s| ==> IsJsSpace(s[k])
  }

  /** `s.startsWith(p)` */
  predicate StartsWith(s: string, p: string) {
    |p| <= |s| && s[..|p|] == p
  }

  /** `p` occurs in `s` beginning at index `k`. */
  predicate OccursAt(s: string, p: string, k: int) {
    0 <= k && k + |p| <= |s| && s[k..k + |p|] == p
  }

  /** `k` is the leftmost occurrence of `p` in `s`. */
  predicate FirstOccurrence(s: string, p: string, k: int) {
    OccursAt(s, p, k) && forall j :: 0 <= j < k ==> !OccursAt(s, p, j)
  }

  /** `s.indexOf(p, k)`, with `None` standing for JavaScript's `-1`. */
  function IndexOfFrom(s: string, p: string, k: nat): (r: Option<nat>)
    requires k <= |s|
    ensures r.Some? ==> k <= r.value && OccursAt(s, p, r.value)
    ensures r.Some? ==> forall j :: k <= j < r.value ==> !OccursAt(s, p, j)
    ensures r.None? ==> forall j :: k <= j ==> !OccursAt(s, p, j)
    decreases |s| - k
  {
    if OccursAt(s, p, k) then Some(k)
    else if k == |s| then None
    else IndexOfFrom(s, p, k + 1)
  }

  /** `s.indexOf(p)` */
  function IndexOf(s: string, p: string): (r: Option<nat>)
    ensures r.Some? <==> exists k :: OccursAt(s, p, k)
    ensures r.Some? ==> FirstOccurrence(s, p, r.value)
  {
    IndexOfFrom(s, p, 0)
  }

  /**
   * `s.replace(p, '')`: a string pattern makes `replace` act on the leftmost
   * occurrence only, wherever it sits; without an occurrence `s` comes back as is.
   */
  function RemoveFirst(s: string, p: string): (r: string)
    ensures (forall k :: !OccursAt(s, p, k)) ==> r == s
    ensures forall k :: FirstOccurrence(s, p, k) ==> r == s[..k] + s[k + |p|..]
    ensures (exists k :: OccursAt(s, p, k)) ==> |r| == |s| - |p|
  {
    match IndexOf(s, p)
    case None => s
    case Some(k) => s[..k] + s[k + |p|..]
  }

  /** Every code point of `s[lo..hi]` is whitespace. */
  predicate SpacesIn(s: string, lo: nat, hi: nat)
    requires lo <= hi <= |s|
  {
    forall k :: lo <= k < hi ==> IsJsSpace(s[k])
  }

  /** Where the run of whitespace that starts at `a` ends. */
  function SkipSpaces(s: string, a: nat): (e: nat)
    requires a <= |s|
    ensures a <= e <= |s| && SpacesIn(s, a, e)
    ensures e < |s| ==> !IsJsSpace(s[e])
    decreases |s| - a
  {
    if a < |s| && IsJsSpace(s[a]) then SkipSpaces(s, a + 1) else a
  }

  /** Where the run of whitespace that ends at `e` starts, looking back no further than `lo`. */
  function SkipSpacesBack(s: string, lo: nat, e: nat): (b: nat)
    requires lo <= e <= |s|
    ensures lo <= b <= e && SpacesIn(s, b, e)
    ensures b > lo ==> !IsJsSpace(s[b - 1])
    decreases e
  {
    if e > lo && IsJsSpace(s[e - 1]) then SkipSpacesBack(s, lo, e - 1) else e
  }

  /** `s.trim()` */
  function Trim(s: string): (r: string)
    ensures exists a, b :: 0 <= a <= b <= |s| && r == s[a..b] && SpacesIn(s, 0, a) && SpacesIn(s, b, |s|)
    ensures |r| > 0 ==> !IsJsSpace(r[0]) && !IsJsSpace(r[|r| - 1])
    ensures r == [] <==> AllSpace(s)
  {
    var a := SkipSpaces(s, 0);
    var b := SkipSpacesBack(s, a, |s|);
    s[a..b]
  }

  /** Trimming twice strips nothing more than trimming once. */
  lemma TrimIdempotent(s: string)
    ensures Trim(Trim(s)) == Trim(s)
  {
    var t := Trim(s);
    if |t| > 0 {
      assert SkipSpaces(t, 0) == 0;
      assert SkipSpacesBack(t, 0, |t|) == |t|;
    }
  }
}
