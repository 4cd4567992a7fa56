/** Sequence helpers shared by the DFA and NFA models: duplicate-freedom,
    first-occurrence search and first-seen deduplication. */
module Seqs {

  /** No element occurs twice. */
  predicate Distinct<T(==)>(xs: seq<T>) {
    forall i, j :: 0 <= i < j < |xs| ==> xs[i] != xs[j]
  }

  /** A prefix one longer is the shorter prefix and the next element. */
  lemma PrefixSnoc<T>(xs: seq<T>, i: nat)
    requires i < |xs|
    ensures xs[..i + 1] == xs[..i] + [xs[i]]
  {
  }

  /** The position of the first occurrence of x (JavaScript's `indexOf`). */
  function IndexOf<T(==)>(xs: seq<T>, x: T): (i: nat)
    requires x in xs
    ensures i < |xs| && xs[i] == x
    ensures forall j :: 0 <= j < i ==> xs[j] != x
  {
    if xs[0] == x then 0 else 1 + IndexOf(xs[1..], x)
  }

  /** The elements of ks without repetitions, each kept where it first occurs. */
  function FirstSeen<K(==)>(ks: seq<K>): (r: seq<K>)
    ensures Distinct(r)
    ensures |r| <= |ks|
    decreases |ks|
  {
    if |ks| == 0 then []
    else
      var r0 := FirstSeen(ks[..|ks| - 1]);
      if ks[|ks| - 1] in r0 then r0 else r0 + [ks[|ks| - 1]]
  }

  /** FirstSeen keeps exactly the elements of ks. */
  lemma {:induction false} FirstSeenMember<K>(ks: seq<K>, x: K)
    ensures x in FirstSeen(ks) <==> x in ks
    decreases |ks|
  {
    if |ks| > 0 {
      var init := ks[..|ks| - 1];
      assert ks == init + [ks[|ks| - 1]];
      FirstSeenMember(init, x);
    }
  }

  /** FirstSeen lists the distinct elements in the order of their first
      occurrences. */
  lemma {:induction false} FirstSeenOrder<K>(ks: seq<K>, i: nat, j: nat)
    requires i < j < |FirstSeen(ks)|
    ensures FirstSeen(ks)[i] in ks && FirstSeen(ks)[j] in ks
    ensures IndexOf(ks, FirstSeen(ks)[i]) < IndexOf(ks, FirstSeen(ks)[j])
    decreases |ks|
  {
    var n := |ks| - 1;
    var init := ks[..n];
    var r, r0 := FirstSeen(ks), FirstSeen(init);
    assert ks == init + [ks[n]];
    assert r[i] == r0[i];
    FirstSeenMember(init, r0[i]);
    IndexOfPrefix(init, [ks[n]], r0[i]);
    if j < |r0| {
      assert r[j] == r0[j];
      FirstSeenOrder(init, i, j);
      IndexOfPrefix(init, [ks[n]], r0[j]);
    } else {
      // r[j] is the new last element, seen for the first time at n
      assert r[j] == ks[n] && ks[n] !in r0;
      FirstSeenMember(init, ks[n]);
      assert IndexOf(ks, ks[n]) == n by {
        assert forall m :: 0 <= m < n ==> ks[m] == init[m];
      }
    }
  }

  /** Searching a prefix that already holds x gives the same position. */
  lemma {:induction false} IndexOfPrefix<T>(xs: seq<T>, ys: seq<T>, x: T)
    requires x in xs
    ensures IndexOf(xs + ys, x) == IndexOf(xs, x)
  {
    if xs[0] != x {
      assert (xs + ys)[1..] == xs[1..] + ys;
      IndexOfPrefix(xs[1..], ys, x);
    }
  }

  /** In a duplicate-free sequence the element at position i is found at i. */
  lemma {:induction false} IndexOfDistinct<T>(xs: seq<T>, i: nat)
    requires Distinct(xs) && i < |xs|
    ensures IndexOf(xs, xs[i]) == i
  {
  }

  /** Every element of b occurs in xs, and b lists them in the order of xs. */
  ghost predicate InOrder<T>(xs: seq<T>, b: seq<T>) {
    && (forall i :: 0 <= i < |b| ==> b[i] in xs)
    && (forall i, j :: 0 <= i < j < |b| ==> IndexOf(xs, b[i]) < IndexOf(xs, b[j]))
  }

  /** Appending a new element x to xs keeps b in order, and b + [x] too. */
  lemma InOrderSnoc<T>(xs: seq<T>, x: T, b: seq<T>)
    requires x !in xs && InOrder(xs, b)
    ensures InOrder(xs + [x], b) && InOrder(xs + [x], b + [x])
  {
    forall y | y in xs ensures IndexOf(xs + [x], y) == IndexOf(xs, y) {
      IndexOfPrefix(xs, [x], y);
    }
    assert IndexOf(xs + [x], x) == |xs|;
  }

  /** A sequence listed in the order of another has no repetitions. */
  lemma InOrderDistinct<T>(xs: seq<T>, b: seq<T>)
    requires InOrder(xs, b)
    ensures Distinct(b)
  {
  }

  /** Deduplicating a duplicate-free sequence changes nothing. */
  lemma {:induction false} FirstSeenOfDistinct<K>(ks: seq<K>)
    requires Distinct(ks)
    ensures FirstSeen(ks) == ks
    decreases |ks|
  {
    if |ks| > 0 {
      var init := ks[..|ks| - 1];
      assert Distinct(init);
      FirstSeenOfDistinct(init);
      assert ks[|ks| - 1] !in init;
      assert ks == init + [ks[|ks| - 1]];
    }
  }

  // ---------------------------------------------------------------------
  // Grouping by first-seen key

  /** The elements xs[i] whose key ks[i] is s, in the order of xs. */
  function Select<T, K(==)>(xs: seq<T>, ks: seq<K>, s: K): seq<T>
    requires |xs| == |ks|
    decreases |xs|
  {
    if |xs| == 0 then []
    else Select(xs[..|xs| - 1], ks[..|ks| - 1], s) + (if ks[|ks| - 1] == s then [xs[|xs| - 1]] else [])
  }

  /** One group per distinct key, in the order the keys are first seen,
      each group listing its elements in the order of xs. */
  function GroupBy<T, K(==)>(xs: seq<T>, ks: seq<K>): seq<seq<T>>
    requires |xs| == |ks|
  {
    var keys := FirstSeen(ks);
    seq(|keys|, k requires 0 <= k < |keys| => Select(xs, ks, keys[k]))
  }

  /** Only elements of xs are selected. */
  lemma {:induction false} SelectSub<T, K>(xs: seq<T>, ks: seq<K>, s: K, q: T)
    requires |xs| == |ks|
    ensures q in Select(xs, ks, s) ==> q in xs
    decreases |xs|
  {
    if |xs| > 0 {
      var n := |xs| - 1;
      SelectSub(xs[..n], ks[..n], s, q);
      if q in xs[..n] {
        assert xs[..n][IndexOf(xs[..n], q)] == xs[IndexOf(xs[..n], q)];
      }
    }
  }

  /** With no repeated element, xs[i] is selected exactly when its key is s. */
  lemma {:induction false} SelectAt<T, K>(xs: seq<T>, ks: seq<K>, s: K, i: nat)
    requires |xs| == |ks| && Distinct(xs) && i < |xs|
    ensures xs[i] in Select(xs, ks, s) <==> ks[i] == s
    decreases |xs|
  {
    var n := |xs| - 1;
    var init := xs[..n];
    assert Distinct(init);
    if i < n {
      assert init[i] == xs[i] && ks[..n][i] == ks[i];
      SelectAt(init, ks[..n], s, i);
    } else {
      assert xs[n] !in init by {
        forall m | 0 <= m < n ensures init[m] != xs[n] { assert init[m] == xs[m]; }
      }
      SelectSub(init, ks[..n], s, xs[n]);
    }
  }

  /** The selection lists its elements in the order of xs. */
  lemma {:induction false} SelectInOrder<T, K>(xs: seq<T>, ks: seq<K>, s: K)
    requires |xs| == |ks| && Distinct(xs)
    ensures InOrder(xs, Select(xs, ks, s))
    decreases |xs|
  {
    if |xs| == 0 {
      assert Select(xs, ks, s) == [];
    } else {
      var n := |xs| - 1;
      var init := xs[..n];
      assert xs == init + [xs[n]];
      assert Distinct(init);
      SelectInOrder(init, ks[..n], s);
      InOrderSnoc(init, xs[n], Select(init, ks[..n], s));
    }
  }

  /** A key that no element has selects nothing. */
  lemma {:induction false} SelectAbsent<T, K>(xs: seq<T>, ks: seq<K>, s: K)
    requires |xs| == |ks| && forall i :: 0 <= i < |ks| ==> ks[i] != s
    ensures Select(xs, ks, s) == []
    decreases |xs|
  {
    if |xs| > 0 {
      var n := |xs| - 1;
      assert forall i :: 0 <= i < n ==> ks[..n][i] == ks[i];
      SelectAbsent(xs[..n], ks[..n], s);
    }
  }

  /** The first element selected by a key is the first element with it. */
  lemma {:induction false} SelectHead<T, K>(xs: seq<T>, ks: seq<K>, s: K)
    requires |xs| == |ks| && s in ks
    ensures |Select(xs, ks, s)| > 0 && Select(xs, ks, s)[0] == xs[IndexOf(ks, s)]
    decreases |xs|
  {
    var n := |xs| - 1;
    var init := ks[..n];
    assert ks == init + [ks[n]];
    if s in init {
      IndexOfPrefix(init, [ks[n]], s);
      assert xs[..n][IndexOf(init, s)] == xs[IndexOf(init, s)];
      SelectHead(xs[..n], init, s);
    } else {
      assert forall i :: 0 <= i < n ==> init[i] != s;
      SelectAbsent(xs[..n], init, s);
      assert IndexOf(ks, s) == n by {
        assert forall m :: 0 <= m < n ==> ks[m] == init[m];
      }
    }
  }

  /** Grouping one more element q with key b either appends q to the group
      of b or, for a key not seen before, opens a new group at the end. */
  lemma GroupBySnoc<T, K>(xs: seq<T>, ks: seq<K>, q: T, b: K)
    requires |xs| == |ks|
    ensures |GroupBy(xs, ks)| == |FirstSeen(ks)|
    ensures FirstSeen(ks + [b]) == if b in FirstSeen(ks) then FirstSeen(ks) else FirstSeen(ks) + [b]
    ensures GroupBy(xs + [q], ks + [b]) ==
      var G := GroupBy(xs, ks);
      if b in FirstSeen(ks) then G[IndexOf(FirstSeen(ks), b) := G[IndexOf(FirstSeen(ks), b)] + [q]]
      else G + [[q]]
  {
    assert (xs + [q])[..|xs|] == xs;
    assert (ks + [b])[..|ks|] == ks;
    if b in FirstSeen(ks) {
      GroupBySnocSeen(xs, ks, q, b);
    } else {
      GroupBySnocUnseen(xs, ks, q, b);
    }
  }

  lemma GroupBySnocSeen<T, K>(xs: seq<T>, ks: seq<K>, q: T, b: K)
    requires |xs| == |ks| && b in FirstSeen(ks)
    requires (xs + [q])[..|xs|] == xs && (ks + [b])[..|ks|] == ks
    ensures GroupBy(xs + [q], ks + [b]) ==
      var G := GroupBy(xs, ks);
      G[IndexOf(FirstSeen(ks), b) := G[IndexOf(FirstSeen(ks), b)] + [q]]
  {
    var keys := FirstSeen(ks);
    var G, G' := GroupBy(xs, ks), GroupBy(xs + [q], ks + [b]);
    var idx := IndexOf(keys, b);
    assert FirstSeen(ks + [b]) == keys;
    forall k | 0 <= k < |G| ensures G'[k] == G[idx := G[idx] + [q]][k] {
      assert G'[k] == Select(xs + [q], ks + [b], keys[k]);
      assert b == keys[k] <==> k == idx;
    }
  }

  lemma GroupBySnocUnseen<T, K>(xs: seq<T>, ks: seq<K>, q: T, b: K)
    requires |xs| == |ks| && b !in FirstSeen(ks)
    requires (xs + [q])[..|xs|] == xs && (ks + [b])[..|ks|] == ks
    ensures GroupBy(xs + [q], ks + [b]) == GroupBy(xs, ks) + [[q]]
  {
    var keys := FirstSeen(ks);
    var G, G' := GroupBy(xs, ks), GroupBy(xs + [q], ks + [b]);
    assert FirstSeen(ks + [b]) == keys + [b];
    forall i | 0 <= i < |ks| ensures ks[i] != b {
      FirstSeenMember(ks, ks[i]);
    }
    SelectAbsent(xs, ks, b);
    forall k | 0 <= k < |G'| ensures G'[k] == (G + [[q]])[k] {
      assert G'[k] == Select(xs + [q], ks + [b], (keys + [b])[k]);
    }
  }

  // ---------------------------------------------------------------------
  // Counting

  /** The numbers below n. */
  ghost function Below(n: nat): set<nat> {
    if n == 0 then {} else Below(n - 1) + {n - 1}
  }

  lemma {:induction false} BelowMember(n: nat, k: nat)
    ensures k in Below(n) <==> k < n
  {
    if n > 0 {
      BelowMember(n - 1, k);
    }
  }

  /** The values F takes. */
  ghost function Image(F: seq<nat>): set<nat> {
    set j | 0 <= j < |F| :: F[j]
  }

  lemma {:induction false} BelowCard(n: nat)
    ensures |Below(n)| == n
  {
    if n > 0 {
      BelowCard(n - 1);
      BelowMember(n - 1, n - 1);
    }
  }

  /** F takes at most |F| values, and fewer when it repeats one. */
  lemma {:induction false} ImageCard(F: seq<nat>)
    ensures |Image(F)| <= |F|
    ensures !Distinct(F) ==> |Image(F)| < |F|
    decreases |F|
  {
    if |F| > 0 {
      var n := |F| - 1;
      var init := F[..n];
      ImageCard(init);
      assert Image(F) == Image(init) + {F[n]} by {
        forall v | v in Image(F) ensures v in Image(init) + {F[n]} {
          var j :| 0 <= j < |F| && F[j] == v;
          if j < n { assert init[j] == v; }
        }
        forall v | v in Image(init) ensures v in Image(F) {
          var j :| 0 <= j < n && init[j] == v;
          assert F[j] == v;
        }
      }
      if !Distinct(F) && Distinct(init) {
        var i, j :| 0 <= i < j < |F| && F[i] == F[j];
        assert j == n && init[i] == F[n];
        assert Image(F) == Image(init);
      }
    }
  }

  /** A sequence of numbers below n that takes every number below n has at
      least n elements, and with exactly n it repeats none. */
  lemma Covering(F: seq<nat>, n: nat)
    requires forall j :: 0 <= j < |F| ==> F[j] < n
    requires forall k :: 0 <= k < n ==> k in F
    ensures |F| >= n
    ensures |F| == n ==> Distinct(F)
  {
    assert Image(F) == Below(n) by {
      forall k | k in Below(n) ensures k in Image(F) {
        BelowMember(n, k);
        var j := IndexOf(F, k);
      }
      forall k | k in Image(F) ensures k in Below(n) {
        BelowMember(n, k);
      }
    }
    BelowCard(n);
    ImageCard(F);
  }
}
