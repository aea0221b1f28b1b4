/**
 * Python's `sorted` with a two-part key. The sort is stable, so among equal keys the input order
 * is kept; the model makes that tie-break explicit by ranking positions on (primary, secondary,
 * position), which is a strict total order on positions.
 */
module Ordering {

  /** The sort key of one position: compared on `primary`, then on `secondary`. */
  datatype Rank = Rank(primary: int, secondary: int)

  /** Position `x` sorts strictly before position `y`: smaller key, or equal key and earlier input position. */
  predicate Before(ranks: seq<Rank>, x: nat, y: nat)
    requires x < |ranks| && y < |ranks|
  {
    ranks[x].primary < ranks[y].primary
    || (ranks[x].primary == ranks[y].primary
        && (ranks[x].secondary < ranks[y].secondary
            || (ranks[x].secondary == ranks[y].secondary && x < y)))
  }

  /** `s` lists positions of `ranks`, each strictly before the next (so without repeats). */
  ghost predicate SortedBy(ranks: seq<Rank>, s: seq<nat>)
  {
    && (forall j :: 0 <= j < |s| ==> s[j] < |ranks|)
    && (forall a, b :: 0 <= a < b < |s| ==> Before(ranks, s[a], s[b]))
  }

  /** Inserts position `p` into a sorted list of positions, keeping it sorted. */
  function Insert(ranks: seq<Rank>, s: seq<nat>, p: nat): (r: seq<nat>)
    requires p < |ranks| && SortedBy(ranks, s) && p !in s
    ensures |r| == |s| + 1
    ensures forall x :: x in r <==> x in s || x == p
    ensures SortedBy(ranks, r)
  {
    if s == [] then [p]
    else if Before(ranks, p, s[0]) then [p] + s
    else
      var rest := Insert(ranks, s[1..], p);
      assert forall x :: x in rest ==> Before(ranks, s[0], x) by {
        forall x | x in rest ensures Before(ranks, s[0], x) {
          if x != p {
            var b :| 0 <= b < |s[1..]| && s[1..][b] == x;
            assert s[b + 1] == x;
          }
        }
      }
      [s[0]] + rest
  }

  /**
   * The first `n` positions in sorted order. With `n == |ranks|` this is the order in which a
   * stable sort by (primary, secondary) lists the positions.
   */
  function StableOrder(ranks: seq<Rank>, n: nat): (r: seq<nat>)
    requires n <= |ranks|
    ensures |r| == n
    ensures forall x: nat :: x in r <==> x < n
    ensures SortedBy(ranks, r)
  {
    if n == 0 then [] else Insert(ranks, StableOrder(ranks, n - 1), n - 1)
  }

  /** The elements of `xs` listed in the order of the positions `order`. */
  function Permute<T>(xs: seq<T>, order: seq<nat>): (r: seq<T>)
    requires forall j :: 0 <= j < |order| ==> order[j] < |xs|
    ensures |r| == |order|
  {
    seq(|order|, j requires 0 <= j < |order| => xs[order[j]])
  }

  lemma PermuteAppend<T>(xs: seq<T>, s: seq<nat>, t: seq<nat>)
    requires forall j :: 0 <= j < |s| ==> s[j] < |xs|
    requires forall j :: 0 <= j < |t| ==> t[j] < |xs|
    ensures Permute(xs, s + t) == Permute(xs, s) + Permute(xs, t)
  {
  }

  /** Insertion places `p` somewhere in `s` and leaves the rest of `s` in order around it. */
  lemma {:induction false} InsertSplit(ranks: seq<Rank>, s: seq<nat>, p: nat) returns (i: nat)
    requires p < |ranks| && SortedBy(ranks, s) && p !in s
    ensures i <= |s| && Insert(ranks, s, p) == s[..i] + [p] + s[i..]
  {
    if s == [] || Before(ranks, p, s[0]) {
      i := 0;
    } else {
      var k := InsertSplit(ranks, s[1..], p);
      i := k + 1;
      assert s[..i] == [s[0]] + s[1..][..k];
      assert s[i..] == s[1..][k..];
    }
  }

  /** Inserting a position adds exactly the element at that position to the listed elements. */
  lemma InsertMultiset<T>(ranks: seq<Rank>, xs: seq<T>, s: seq<nat>, p: nat)
    requires |xs| == |ranks| && p < |ranks| && SortedBy(ranks, s) && p !in s
    ensures multiset(Permute(xs, Insert(ranks, s, p))) == multiset(Permute(xs, s)) + multiset{xs[p]}
  {
    var i := InsertSplit(ranks, s, p);
    var front, back := s[..i], s[i..];
    assert s == front + back;
    PermuteAppend(xs, front, back);
    PermuteAppend(xs, front + [p], back);
    PermuteAppend(xs, front, [p]);
    assert Permute(xs, [p]) == [xs[p]];
  }

  lemma PrefixMultiset<T>(xs: seq<T>, n: nat)
    requires 0 < n <= |xs|
    ensures multiset(xs[..n]) == multiset(xs[..n - 1]) + multiset{xs[n - 1]}
  {
    assert xs[..n] == xs[..n - 1] + [xs[n - 1]];
  }

  /** Listing the first `n` elements in sorted order rearranges them: the same elements, as often. */
  lemma {:induction false} StableOrderMultiset<T>(ranks: seq<Rank>, xs: seq<T>, n: nat)
    requires |xs| == |ranks| && n <= |ranks|
    ensures multiset(Permute(xs, StableOrder(ranks, n))) == multiset(xs[..n])
  {
    if n > 0 {
      var prev := StableOrder(ranks, n - 1);
      assert n - 1 !in prev;
      StableOrderMultiset(ranks, xs, n - 1);
      InsertMultiset(ranks, xs, prev, n - 1);
      PrefixMultiset(xs, n);
    }
  }

  /** Sorting a whole list rearranges it: the same elements, each as often. */
  lemma OrderedPermutes<T>(ranks: seq<Rank>, xs: seq<T>)
    requires |xs| == |ranks|
    ensures multiset(Permute(xs, StableOrder(ranks, |xs|))) == multiset(xs)
    ensures forall x :: x in Permute(xs, StableOrder(ranks, |xs|)) <==> x in xs
  {
    StableOrderMultiset(ranks, xs, |xs|);
    assert xs[..|xs|] == xs;
    var r := Permute(xs, StableOrder(ranks, |xs|));
    assert forall x :: x in r <==> x in multiset(r);
  }

  /**
   * Determinism of the ordering: two sorted lists of the same positions are the same list. In
   * particular any stable sort by (primary, secondary) yields exactly `StableOrder`.
   */
  lemma {:induction false} SortedUnique(ranks: seq<Rank>, s: seq<nat>, t: seq<nat>)
    requires SortedBy(ranks, s) && SortedBy(ranks, t)
    requires forall x :: x in s <==> x in t
    ensures s == t
  {
    assert s != [] ==> s[0] in t;
    assert t != [] ==> t[0] in s;
    if s != [] {
      var k :| 0 <= k < |t| && t[k] == s[0];
      var m :| 0 <= m < |s| && s[m] == t[0];
      assert k == 0;
      forall x ensures x in s[1..] <==> x in t[1..] {
        if x in s[1..] {
          var a :| 0 <= a < |s[1..]| && s[1..][a] == x;
          assert s[a + 1] == x;
          assert x != s[0];
          assert x in t;
        }
        if x in t[1..] {
          var a :| 0 <= a < |t[1..]| && t[1..][a] == x;
          assert t[a + 1] == x;
          assert x != t[0];
          assert x in s;
        }
      }
      SortedUnique(ranks, s[1..], t[1..]);
      assert s == [s[0]] + s[1..];
      assert t == [t[0]] + t[1..];
    }
  }
}
