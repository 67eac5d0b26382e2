/**
 * In-memory tables: a table is a sequence of rows in insertion order. A
 * `WHERE … LIMIT 1` lookup is the first row a predicate accepts, a
 * `count()` is the number of rows it accepts, and an `UPDATE … WHERE id =`
 * on a primary key replaces the one row at that index.
 */
module Tables {
  import opened Wrappers

  /** Index of the first row `p` accepts (`LIMIT 1` in table order), or `None`. */
  function FirstIndex<T>(s: seq<T>, p: T -> bool): (r: Option<nat>)
    ensures r.Some? ==> r.value < |s| && p(s[r.value])
    ensures r.Some? ==> forall k :: 0 <= k < r.value ==> !p(s[k])
    ensures r.None? <==> forall k :: 0 <= k < |s| ==> !p(s[k])
  {
    if s == [] then None
    else if p(s[0]) then Some(0)
    else
      match FirstIndex(s[1..], p)
      case Some(i) => assert s[1..][i] == s[i + 1]; Some(i + 1)
      case None => None
  }

  /** The rows `p` accepts, in table order (`WHERE`). */
  function Where<T>(s: seq<T>, p: T -> bool): (r: seq<T>)
    ensures |r| <= |s|
    ensures forall k :: 0 <= k < |r| ==> r[k] in s && p(r[k])
    ensures forall k :: 0 <= k < |s| && p(s[k]) ==> s[k] in r
  {
    if s == [] then []
    else (if p(s[0]) then [s[0]] else []) + Where(s[1..], p)
  }

  /** Number of rows `p` accepts. */
  function CountWhere<T>(s: seq<T>, p: T -> bool): (n: nat)
    ensures n <= |s|
    ensures n == 0 <==> forall k :: 0 <= k < |s| ==> !p(s[k])
  {
    if s == [] then 0
    else
      var init := s[..|s| - 1];
      assert forall k :: 0 <= k < |init| ==> init[k] == s[k];
      CountWhere(init, p) + (if p(s[|s| - 1]) then 1 else 0)
  }

  /** An inserted row adds one to the count exactly when `p` accepts it. */
  lemma CountAppend<T>(s: seq<T>, x: T, p: T -> bool)
    ensures CountWhere(s + [x], p) == CountWhere(s, p) + (if p(x) then 1 else 0)
  {
    assert (s + [x])[..|s|] == s;
  }

  /** Replacing one row changes the count by what the old and the new row contribute. */
  lemma {:induction false} CountUpdate<T>(s: seq<T>, i: nat, x: T, p: T -> bool)
    requires i < |s|
    ensures CountWhere(s[i := x], p) + (if p(s[i]) then 1 else 0)
         == CountWhere(s, p) + (if p(x) then 1 else 0)
  {
    var t := s[i := x];
    if i == |s| - 1 {
      assert t[..|t| - 1] == s[..|s| - 1];
    } else {
      CountUpdate(s[..|s| - 1], i, x, p);
      assert t[..|t| - 1] == s[..|s| - 1][i := x];
    }
  }

  /** Counts of two predicates that agree on every row are equal. */
  lemma {:induction false} CountSame<T>(s: seq<T>, p: T -> bool, q: T -> bool)
    requires forall k :: 0 <= k < |s| ==> p(s[k]) == q(s[k])
    ensures CountWhere(s, p) == CountWhere(s, q)
  {
    if s != [] {
      var init := s[..|s| - 1];
      assert forall k :: 0 <= k < |init| ==> init[k] == s[k];
      CountSame(init, p, q);
    }
  }
}
