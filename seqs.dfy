/** Sequence facts shared by the graph model: duplicate-freedom, order-preserving
    removal (what a `vector::erase` loop leaves behind) and counting. */
module Seqs {

  /** No element occurs twice. */
  predicate NoDup<X(==)>(s: seq<X>) {
    forall i, j :: 0 <= i < j < |s| ==> s[i] != s[j]
  }

  /** The set of elements of a sequence. */
  function Elems<X>(s: seq<X>): set<X> {
    set x | x in s
  }

  /** The elements of `s` that are not in `drop`, in their original order. */
  function Without<X(==, !new)>(s: seq<X>, drop: set<X>): (r: seq<X>)
    ensures forall x :: x in r <==> x in s && x !in drop
    ensures |r| <= |s|
    ensures |r| == |s| <==> (forall x :: x in s ==> x !in drop)
    ensures NoDup(s) ==> NoDup(r)
    decreases |s|
  {
    if s == [] then []
    else
      var init, x := Without(s[..|s| - 1], drop), s[|s| - 1];
      assert s == s[..|s| - 1] + [x];
      if x in drop then init else init + [x]
  }

  lemma WithoutSnoc<X(!new)>(s: seq<X>, x: X, drop: set<X>)
    ensures Without(s + [x], drop) == Without(s, drop) + (if x in drop then [] else [x])
  {
    assert (s + [x])[..|s|] == s;
  }

  /** Two drop sets that agree on the elements of `s` remove the same elements. */
  lemma {:induction false} WithoutAgree<X(!new)>(s: seq<X>, d1: set<X>, d2: set<X>)
    requires forall x :: x in s ==> (x in d1 <==> x in d2)
    ensures Without(s, d1) == Without(s, d2)
    decreases |s|
  {
    if s != [] {
      WithoutAgree(s[..|s| - 1], d1, d2);
    }
  }

  /** Nothing to remove leaves the sequence as it was. */
  lemma {:induction false} WithoutNothing<X(!new)>(s: seq<X>, drop: set<X>)
    requires forall x :: x in s ==> x !in drop
    ensures Without(s, drop) == s
    decreases |s|
  {
    if s != [] {
      WithoutNothing(s[..|s| - 1], drop);
      assert s == s[..|s| - 1] + [s[|s| - 1]];
    }
  }

  /** Removing in two rounds is removing the union at once. */
  lemma {:induction false} WithoutWithout<X(!new)>(s: seq<X>, d1: set<X>, d2: set<X>)
    ensures Without(Without(s, d1), d2) == Without(s, d1 + d2)
    decreases |s|
  {
    if s != [] {
      var n := |s| - 1;
      WithoutWithout(s[..n], d1, d2);
      if s[n] !in d1 {
        WithoutSnoc(Without(s[..n], d1), s[n], d2);
      }
    }
  }

  /** Erasing the element at position i of a duplicate-free sequence is removing that element. */
  lemma {:induction false} WithoutAt<X(!new)>(s: seq<X>, i: nat)
    requires NoDup(s) && i < |s|
    ensures Without(s, {s[i]}) == s[..i] + s[i + 1..]
    decreases |s|
  {
    var n := |s| - 1;
    if i == n {
      assert s[..n] + [s[n]] + [] == s;
      NoDupMiddle(s[..n], s[n], []);
      WithoutDropLast(s, {s[i]});
      WithoutNothing(s[..n], {s[i]});
      assert s[..i] + s[i + 1..] == s[..n];
    } else {
      assert s[n] != s[i];
      WithoutKeepLast(s, {s[i]});
      NoDupPrefix(s, n);
      assert s[..n][i] == s[i];
      WithoutAt(s[..n], i);
      EraseBeforeLast(s, i);
    }
  }

  /** Without, unfolded at a last element that is dropped. */
  lemma WithoutDropLast<X(!new)>(s: seq<X>, drop: set<X>)
    requires s != [] && s[|s| - 1] in drop
    ensures Without(s, drop) == Without(s[..|s| - 1], drop)
  {
  }

  /** Without, unfolded at a last element that is kept. */
  lemma WithoutKeepLast<X(!new)>(s: seq<X>, drop: set<X>)
    requires s != [] && s[|s| - 1] !in drop
    ensures Without(s, drop) == Without(s[..|s| - 1], drop) + [s[|s| - 1]]
  {
  }

  /** A prefix of a duplicate-free sequence is duplicate-free. */
  lemma NoDupPrefix<X>(s: seq<X>, n: nat)
    requires NoDup(s) && n <= |s|
    ensures NoDup(s[..n])
  {
    forall i, j | 0 <= i < j < n ensures s[..n][i] != s[..n][j] {
      assert s[..n][i] == s[i] && s[..n][j] == s[j];
    }
  }

  /** Erasing position i < |s| - 1 of the prefix without the last element, then putting the last
      element back, is erasing position i of s. */
  lemma EraseBeforeLast<X>(s: seq<X>, i: nat)
    requires i + 1 < |s|
    ensures s[..|s| - 1][..i] + s[..|s| - 1][i + 1..] + [s[|s| - 1]] == s[..i] + s[i + 1..]
  {
    var n := |s| - 1;
    assert s[..n][..i] == s[..i];
    assert s[..n][i + 1..] + [s[n]] == s[i + 1..];
  }

  lemma ElemsPrefixNext<X>(s: seq<X>, i: nat)
    requires i < |s|
    ensures Elems(s[..i + 1]) == Elems(s[..i]) + {s[i]}
  {
    assert s[..i + 1] == s[..i] + [s[i]];
  }

  /** A duplicate-free sequence has as many distinct elements as positions. */
  lemma {:induction false} NoDupCard<X>(s: seq<X>)
    requires NoDup(s)
    ensures |Elems(s)| == |s|
    decreases |s|
  {
    if s != [] {
      var n := |s| - 1;
      NoDupCard(s[..n]);
      assert s == s[..n] + [s[n]];
      assert Elems(s) == Elems(s[..n]) + {s[n]};
      assert s[n] !in Elems(s[..n]);
    }
  }

  /** A subset is no larger, and a proper subset is smaller. */
  lemma {:induction false} SubsetCard<X>(a: set<X>, b: set<X>)
    requires a <= b
    ensures |a| <= |b|
    ensures a < b ==> |a| < |b|
    decreases b
  {
    if a != b {
      assert b - a != {} by {
        if b - a == {} {
          forall y | y in b ensures y in a {
            assert y !in b - a;
          }
        }
      }
      var x :| x in b - a;
      SubsetCard(a, b - {x});
    }
  }

  /** Pigeonhole: a duplicate-free sequence drawn from `u` is no longer than `u` is large,
      and when it is as long, it lists every element of `u`. */
  lemma Pigeonhole<X>(s: seq<X>, u: set<X>)
    requires NoDup(s)
    requires forall x :: x in s ==> x in u
    ensures |s| <= |u|
    ensures |s| == |u| ==> forall x :: x in u ==> x in s
  {
    NoDupCard(s);
    SubsetCard(Elems(s), u);
  }

  /** Erasing one entry of a duplicate-free sequence and then dropping the rest of a set that
      holds it is dropping the whole set. */
  lemma EraseThenWithout<X(!new)>(s: seq<X>, i: nat, drop: set<X>)
    requires NoDup(s) && i < |s| && s[i] in drop
    ensures Without(s[..i] + s[i + 1..], drop - {s[i]}) == Without(s, drop)
  {
    WithoutAt(s, i);
    WithoutWithout(s, {s[i]}, drop - {s[i]});
    assert {s[i]} + (drop - {s[i]}) == drop;
  }

  /** Dropping d1 and then d2 is dropping d, when the sequence meets d1 + d2 exactly where it meets d. */
  lemma WithoutThenAgree<X(!new)>(s: seq<X>, d1: set<X>, d2: set<X>, d: set<X>)
    requires forall x :: x in s ==> (x in d1 || x in d2 <==> x in d)
    ensures Without(Without(s, d1), d2) == Without(s, d)
  {
    WithoutWithout(s, d1, d2);
    WithoutAgree(s, d1 + d2, d);
  }

  /** One step of an in-place filter: `cur` holds the kept part of s[..i] followed by the
      unvisited rest, and j is where s[i] sits in it. Erasing it when it is dropped, or stepping
      past it when it is kept, gives the same shape for i + 1. */
  lemma FilterStep<X(!new)>(s: seq<X>, i: nat, drop: set<X>, cur: seq<X>, j: nat)
    requires i < |s| && cur == Without(s[..i], drop) + s[i..] && j == |Without(s[..i], drop)|
    ensures j < |cur| && cur[j] == s[i]
    ensures s[i] in drop ==>
              cur[..j] + cur[j + 1..] == Without(s[..i + 1], drop) + s[i + 1..]
              && j == |Without(s[..i + 1], drop)|
    ensures s[i] !in drop ==>
              cur == Without(s[..i + 1], drop) + s[i + 1..] && j + 1 == |Without(s[..i + 1], drop)|
  {
    var kept := Without(s[..i], drop);
    assert s[..i + 1] == s[..i] + [s[i]];
    WithoutSnoc(s[..i], s[i], drop);
    SpliceOut(kept, s, i, cur);
    if s[i] !in drop {
      SpliceKeep(kept, s, i, cur);
    }
  }

  /** The entry at the seam of `kept + s[i..]` is s[i], and erasing it leaves `kept + s[i + 1..]`. */
  lemma SpliceOut<X>(kept: seq<X>, s: seq<X>, i: nat, cur: seq<X>)
    requires i < |s| && cur == kept + s[i..]
    ensures |kept| < |cur| && cur[|kept|] == s[i]
    ensures cur[..|kept|] + cur[|kept| + 1..] == kept + s[i + 1..]
  {
    assert cur[..|kept|] == kept;
    assert cur[|kept| + 1..] == s[i + 1..];
  }

  /** Stepping past the entry at the seam of `kept + s[i..]` moves the seam by one. */
  lemma SpliceKeep<X>(kept: seq<X>, s: seq<X>, i: nat, cur: seq<X>)
    requires i < |s| && cur == kept + s[i..]
    ensures cur == kept + [s[i]] + s[i + 1..]
  {
    assert s[i..] == [s[i]] + s[i + 1..];
  }

  /** A sequence has no more distinct elements than positions. */
  lemma {:induction false} ElemsCard<X>(s: seq<X>)
    ensures |Elems(s)| <= |s|
    decreases |s|
  {
    if s != [] {
      var n := |s| - 1;
      ElemsCard(s[..n]);
      assert s == s[..n] + [s[n]];
      assert Elems(s) == Elems(s[..n]) + {s[n]};
    }
  }

  /** The converse of NoDupCard: as many distinct elements as positions means no element
      occurs twice. */
  lemma CardNoDup<X>(s: seq<X>)
    requires |Elems(s)| == |s|
    ensures NoDup(s)
  {
    if !NoDup(s) {
      var i, j :| 0 <= i < j < |s| && s[i] == s[j];
      var t := s[..j] + s[j + 1..];
      forall x | x in Elems(s) ensures x in Elems(t) {
        var k :| 0 <= k < |s| && s[k] == x;
        if k < j {
          assert t[k] == x;
        } else if k == j {
          assert t[i] == x;
        } else {
          assert t[k - 1] == x;
        }
      }
      ElemsCard(t);
      SubsetCard(Elems(s), Elems(t));
      assert false;
    }
  }

  /** In a duplicate-free sequence, an element occurs neither before nor after its position. */
  lemma NoDupMiddle<X>(a: seq<X>, v: X, b: seq<X>)
    requires NoDup(a + [v] + b)
    ensures v !in a && v !in b
  {
    var s := a + [v] + b;
    assert s[|a|] == v;
    forall i | 0 <= i < |a| ensures a[i] != v {
      assert s[i] == a[i];
    }
    forall i | 0 <= i < |b| ensures b[i] != v {
      assert s[|a| + 1 + i] == b[i];
    }
  }

  /** Walking through a sequence with distinct elements while taking each element out of a
      set that holds the rest of the sequence besides `out`. */
  lemma SuffixDrop<X>(s: seq<X>, j: nat, out: set<X>, cur: set<X>)
    requires |Elems(s)| == |s| && j < |s| && s[j] !in out && cur == out + Elems(s[j..])
    ensures s[j] in cur && cur - {s[j]} == out + Elems(s[j + 1..])
  {
    CardNoDup(s);
    assert s[j..] == [s[j]] + s[j + 1..];
    forall k | j + 1 <= k < |s| ensures s[k] != s[j] {
    }
    assert s[j] !in Elems(s[j + 1..]);
  }

  /** Walking through a sequence with distinct elements, each element is new when reached. */
  lemma FreshNext<X>(s: seq<X>, j: nat)
    requires |Elems(s)| == |s| && j < |s|
    ensures s[j] !in Elems(s[..j]) && Elems(s[..j + 1]) == Elems(s[..j]) + {s[j]}
  {
    assert s[..j] + [s[j]] + s[j + 1..] == s;
    CardNoDup(s);
    NoDupMiddle(s[..j], s[j], s[j + 1..]);
    ElemsPrefixNext(s, j);
  }
}
