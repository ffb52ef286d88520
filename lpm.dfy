/**
 * What the two trie searches compute, stated on the abstraction of one trie
 * half: a map from bit paths (relative to the root) to terminal markers.
 * A search walks an address's bit path from the root; depth d stands for the
 * node reached by the first d bits, so the root itself is depth 0 and is never
 * consulted.
 */
module Lpm {
  import opened Wrappers

  /**
   * The deepest depth d in 1..n whose path bits[..d] carries a marker, or 0
   * when there is none: the longest matching prefix.
   */
  function LongestDepth<E>(marks: map<seq<bool>, E>, bits: seq<bool>, n: nat): (d: nat)
    requires n <= |bits|
    ensures d <= n
    ensures d > 0 ==> bits[..d] in marks
    ensures forall k :: d < k <= n ==> bits[..k] !in marks
  {
    if n == 0 then 0
    else if bits[..n] in marks then n
    else LongestDepth(marks, bits, n - 1)
  }

  /**
   * Scanning down from depth i, the shallowest depth d in i+1..n whose path
   * carries a marker, or 0 when there is none: the first match.
   */
  function FirstDepthFrom<E>(marks: map<seq<bool>, E>, bits: seq<bool>, i: nat, n: nat): (d: nat)
    requires i <= n <= |bits|
    ensures d == 0 || i < d <= n
    ensures d > 0 ==> bits[..d] in marks
    ensures forall k :: i < k <= n && (d == 0 || k < d) ==> bits[..k] !in marks
    decreases n - i
  {
    if i == n then 0
    else if bits[..i + 1] in marks then i + 1
    else FirstDepthFrom(marks, bits, i + 1, n)
  }

  /**
   * Depths i+1..n without a marker do not move the longest match: SearchBest
   * may stop at depth i once the path leaves the tree.
   */
  lemma LongestDepthUnmarked<E>(marks: map<seq<bool>, E>, bits: seq<bool>, i: nat, n: nat)
    requires i <= n <= |bits|
    requires forall k :: i < k <= n ==> bits[..k] !in marks
    ensures LongestDepth(marks, bits, n) == LongestDepth(marks, bits, i)
  {
  }

  /** The marker at depth d of the path, none for depth 0. */
  function MarkAt<E>(marks: map<seq<bool>, E>, bits: seq<bool>, d: nat): Option<E>
    requires d <= |bits|
    requires d > 0 ==> bits[..d] in marks
  {
    if d == 0 then None else Some(marks[bits[..d]])
  }

  /** Longest-prefix match over the whole path. */
  function Longest<E>(marks: map<seq<bool>, E>, bits: seq<bool>): Option<E> {
    MarkAt(marks, bits, LongestDepth(marks, bits, |bits|))
  }

  /** First (shallowest) match over the whole path. */
  function First<E>(marks: map<seq<bool>, E>, bits: seq<bool>): Option<E> {
    MarkAt(marks, bits, FirstDepthFrom(marks, bits, 0, |bits|))
  }

  /**
   * The first match exists exactly when the longest one does, and it is never
   * deeper: an existence test may use either search.
   */
  lemma FirstAgreesWithLongest<E>(marks: map<seq<bool>, E>, bits: seq<bool>)
    ensures First(marks, bits).Some? <==> Longest(marks, bits).Some?
    ensures FirstDepthFrom(marks, bits, 0, |bits|) <= LongestDepth(marks, bits, |bits|)
  {
  }

  /** A marker at depth q on the path bounds the first match from above and the longest from below. */
  lemma MarkedDepthBounds<E>(marks: map<seq<bool>, E>, bits: seq<bool>, q: nat)
    requires 0 < q <= |bits| && bits[..q] in marks
    ensures 0 < FirstDepthFrom(marks, bits, 0, |bits|) <= q <= LongestDepth(marks, bits, |bits|)
  {
  }

  /**
   * Nested prefixes on one path make the searches diverge: with markers at
   * depths k1 < k2, the first match is no deeper than k1 and the longest match
   * no shallower than k2.
   */
  lemma NestedMatchesDiverge<E>(marks: map<seq<bool>, E>, bits: seq<bool>, k1: nat, k2: nat)
    requires 0 < k1 < k2 <= |bits|
    requires bits[..k1] in marks && bits[..k2] in marks
    ensures 0 < FirstDepthFrom(marks, bits, 0, |bits|) <= k1
    ensures k2 <= LongestDepth(marks, bits, |bits|)
    ensures First(marks, bits) != None && Longest(marks, bits) != None
  {
  }

  /**
   * Only the depths a search walks matter: two maps that agree on which of
   * bits[..1] .. bits[..n] carry a marker give the same longest and first depth.
   */
  lemma DepthsOnlySeePath<E>(m1: map<seq<bool>, E>, m2: map<seq<bool>, E>, bits: seq<bool>, n: nat)
    requires n <= |bits|
    requires forall k :: 0 < k <= n ==> (bits[..k] in m1 <==> bits[..k] in m2)
    ensures LongestDepth(m1, bits, n) == LongestDepth(m2, bits, n)
    ensures FirstDepthFrom(m1, bits, 0, n) == FirstDepthFrom(m2, bits, 0, n)
  {
  }

  /**
   * The root's own marker (a /0 entry) is never returned by either search:
   * adding or removing it changes neither result.
   */
  lemma RootMarkerIgnored<E>(marks: map<seq<bool>, E>, bits: seq<bool>, e: E)
    ensures Longest(marks[[] := e], bits) == Longest(marks - {[]}, bits)
    ensures First(marks[[] := e], bits) == First(marks - {[]}, bits)
  {
    var m1, m2 := marks[[] := e], marks - {[]};
    forall k | 0 < k <= |bits| ensures bits[..k] in m1 <==> bits[..k] in m2 {
      assert bits[..k] != [];
    }
    DepthsOnlySeePath(m1, m2, bits, |bits|);
    var d := LongestDepth(m1, bits, |bits|);
    if d > 0 { assert bits[..d] != []; }
    var f := FirstDepthFrom(m1, bits, 0, |bits|);
    if f > 0 { assert bits[..f] != []; }
  }

  /**
   * Round trip: after a marker e is placed at path p (|p| >= 1), every address
   * whose path starts with p finds e as its longest match, unless a marker
   * deeper on its own path overrides it.
   */
  lemma InsertedFoundByLongest<E>(marks: map<seq<bool>, E>, p: seq<bool>, e: E, bits: seq<bool>)
    requires 0 < |p| <= |bits| && bits[..|p|] == p
    requires forall k :: |p| < k <= |bits| ==> bits[..k] !in marks
    ensures Longest(marks[p := e], bits) == Some(e)
  {
    assert bits[..|p|] in marks[p := e];
  }

  /**
   * The first match after a marker e is placed at path p is e for every
   * address through p that has no marker strictly above p on its path.
   */
  lemma InsertedFoundByFirst<E>(marks: map<seq<bool>, E>, p: seq<bool>, e: E, bits: seq<bool>)
    requires 0 < |p| <= |bits| && bits[..|p|] == p
    requires forall k :: 0 < k < |p| ==> bits[..k] !in marks
    ensures First(marks[p := e], bits) == Some(e)
  {
    assert bits[..|p|] in marks[p := e];
  }
}
