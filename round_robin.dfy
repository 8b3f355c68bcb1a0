/** Static round-robin dealing of a sequence of cells to a fixed number of
    refinement workers: the cell at input position i goes to worker i mod n.
    Everything here is about values; the classes that hold the workers'
    lists are in module SpheroidalCellMesh. */
module RoundRobin {

  /** No item occurs twice (the cell pointers of one mesh are distinct). */
  predicate Distinct<T(==)>(s: seq<T>) {
    forall i, j :: 0 <= i < j < |s| ==> s[i] != s[j]
  }

  /** The list that worker `w` of `n` holds once `s` has been dealt:
      the items whose position is congruent to `w` modulo `n`, in input order.
      It is defined on the last item, as the dealing loop visits the cells. */
  function Dealt<T>(s: seq<T>, n: nat, w: nat): seq<T>
    requires n > 0
    decreases |s|
  {
    if |s| == 0 then []
    else Dealt(s[..|s| - 1], n, w) + (if (|s| - 1) % n == w then [s[|s| - 1]] else [])
  }

  /** The lists of all `n` workers, worker 0 first. */
  function Deal<T>(s: seq<T>, n: nat): (ws: seq<seq<T>>)
    requires n > 0
    ensures |ws| == n
  {
    seq(n, w requires 0 <= w => Dealt(s, n, w))
  }

  /** The worker lists one after the other. */
  function Flatten<T>(ws: seq<seq<T>>): seq<T>
    decreases |ws|
  {
    if |ws| == 0 then [] else Flatten(ws[..|ws| - 1]) + ws[|ws| - 1]
  }

  /** How many of the first `len` positions fall to worker `w` of `n`. */
  function Share(len: nat, n: nat, w: nat): nat
    requires n > 0
  {
    len / n + (if w < len % n then 1 else 0)
  }

  /** Dealing one more item extends exactly the list of the worker whose
      turn it is and leaves every other list alone. */
  lemma DealtSnoc<T>(s: seq<T>, x: T, n: nat, w: nat)
    requires n > 0
    ensures Dealt(s + [x], n, w) == Dealt(s, n, w) + (if |s| % n == w then [x] else [])
  {
    assert (s + [x])[..|s|] == s;
  }

  lemma MulAwayFromZero(d: int, n: int)
    requires n > 0
    ensures d >= 1 ==> d * n >= n
    ensures d <= -1 ==> d * n <= -n
  {
    if d >= 1 {
      assert (d - 1) * n >= 0;
    } else if d <= -1 {
      assert (-d - 1) * n >= 0;
    }
  }

  lemma DivModUnique(a: nat, n: nat, q: int, r: int)
    requires n > 0 && 0 <= r < n && a == q * n + r
    ensures a / n == q && a % n == r
  {
    var q', r' := a / n, a % n;
    assert a == q' * n + r';
    var d := q - q';
    assert d * n == r' - r by {
      assert q * n - q' * n == (q - q') * n;
    }
    MulAwayFromZero(d, n);
  }

  /** How the quotient and remainder by `n` move when the dividend grows by one. */
  lemma DivModStep(a: nat, n: nat)
    requires n > 0
    ensures a % n == n - 1 ==> (a + 1) / n == a / n + 1 && (a + 1) % n == 0
    ensures a % n < n - 1 ==> (a + 1) / n == a / n && (a + 1) % n == a % n + 1
  {
    var q, r := a / n, a % n;
    assert a == q * n + r;
    if r == n - 1 {
      assert a + 1 == (q + 1) * n + 0;
      DivModUnique(a + 1, n, q + 1, 0);
    } else {
      DivModUnique(a + 1, n, q, r + 1);
    }
  }

  /** Worker `w` receives exactly its share of the items. */
  lemma {:induction false} DealtLength<T>(s: seq<T>, n: nat, w: nat)
    requires w < n
    ensures |Dealt(s, n, w)| == Share(|s|, n, w)
    decreases |s|
  {
    if |s| > 0 {
      var p := s[..|s| - 1];
      DealtLength(p, n, w);
      DealtSnoc(p, s[|s| - 1], n, w);
      assert p + [s[|s| - 1]] == s;
      DivModStep(|p|, n);
    }
  }

  /** Position `k` of worker `w`'s list holds the item at input position
      w + k*n: each list is the input read with stride n, so it keeps the
      relative input order of its items. */
  lemma {:induction false} DealtAt<T>(s: seq<T>, n: nat, w: nat, k: nat)
    requires w < n && k < |Dealt(s, n, w)|
    ensures w + k * n < |s| && Dealt(s, n, w)[k] == s[w + k * n]
    decreases |s|
  {
    var p := s[..|s| - 1];
    DealtSnoc(p, s[|s| - 1], n, w);
    assert p + [s[|s| - 1]] == s;
    if k < |Dealt(p, n, w)| {
      DealtAt(p, n, w, k);
    } else {
      DealtLength(p, n, w);
      assert |p| % n == w;
      assert k == |p| / n;
      assert |p| == (|p| / n) * n + |p| % n;
    }
  }

  /** An item is in worker `w`'s list exactly when it occurs in the input at
      a position that is congruent to `w` modulo `n`. */
  lemma {:induction false} DealtMember<T>(s: seq<T>, n: nat, w: nat, x: T)
    requires n > 0
    ensures x in Dealt(s, n, w) <==> exists i :: 0 <= i < |s| && i % n == w && s[i] == x
    decreases |s|
  {
    if |s| > 0 {
      var p := s[..|s| - 1];
      DealtMember(p, n, w, x);
      DealtSnoc(p, s[|s| - 1], n, w);
      assert p + [s[|s| - 1]] == s;
      if x in Dealt(s, n, w) {
        if x !in Dealt(p, n, w) {
          assert (|s| - 1) % n == w && s[|s| - 1] == x;
        } else {
          var i :| 0 <= i < |p| && i % n == w && p[i] == x;
          assert s[i] == x;
        }
      }
      if exists i :: 0 <= i < |s| && i % n == w && s[i] == x {
        var i :| 0 <= i < |s| && i % n == w && s[i] == x;
        if i < |p| {
          assert p[i] == x;
        }
      }
    }
  }

  /** Every input item is dealt to the worker of rank (its position mod n). */
  lemma DealtCovers<T>(s: seq<T>, n: nat, i: nat)
    requires n > 0 && i < |s|
    ensures s[i] in Dealt(s, n, i % n)
  {
    DealtMember(s, n, i % n, s[i]);
  }

  /** With distinct items, two different workers never hold the same item, so
      each item is refined by exactly one worker. */
  lemma DealtDisjoint<T>(s: seq<T>, n: nat, w1: nat, w2: nat, x: T)
    requires Distinct(s) && n > 0 && w1 != w2
    ensures x in Dealt(s, n, w1) ==> x !in Dealt(s, n, w2)
  {
    DealtMember(s, n, w1, x);
    DealtMember(s, n, w2, x);
    if x in Dealt(s, n, w1) {
      var i :| 0 <= i < |s| && i % n == w1 && s[i] == x;
      forall j | 0 <= j < |s| && j % n == w2
        ensures s[j] != x
      {
        assert j != i;
      }
    }
  }

  /** With distinct items, worker `w` holds the item at position j exactly
      when j mod n is w, and holds nothing else. */
  lemma DealtOwnership<T>(s: seq<T>, n: nat, w: nat)
    requires Distinct(s) && w < n
    ensures forall j :: 0 <= j < |s| ==> (s[j] in Dealt(s, n, w) <==> j % n == w)
    ensures forall x :: x in Dealt(s, n, w) ==> x in s
  {
    forall j | 0 <= j < |s|
      ensures s[j] in Dealt(s, n, w) <==> j % n == w
    {
      DealtCovers(s, n, j);
      if j % n != w {
        DealtDisjoint(s, n, j % n, w, s[j]);
      }
    }
    forall x | x in Dealt(s, n, w) ensures x in s {
      DealtMember(s, n, w, x);
    }
  }

  /** A worker's list of distinct items has no repetition either. */
  lemma DealtDistinct<T>(s: seq<T>, n: nat, w: nat)
    requires Distinct(s) && w < n
    ensures Distinct(Dealt(s, n, w))
  {
    var d := Dealt(s, n, w);
    forall k1, k2 | 0 <= k1 < k2 < |d|
      ensures d[k1] != d[k2]
    {
      DealtAt(s, n, w, k1);
      DealtAt(s, n, w, k2);
      MulAwayFromZero(k2 - k1, n);
      assert k2 * n - k1 * n == (k2 - k1) * n;
    }
  }

  /** Appending one item to one of the lists adds that item to the multiset
      of the flattened lists. */
  lemma {:induction false} FlattenUpdate<T>(ws: seq<seq<T>>, j: nat, x: T)
    requires j < |ws|
    ensures multiset(Flatten(ws[j := ws[j] + [x]])) == multiset(Flatten(ws)) + multiset{x}
    decreases |ws|
  {
    var ws' := ws[j := ws[j] + [x]];
    var last := |ws| - 1;
    assert ws'[..last] == if j == last then ws[..last] else ws[..last][j := ws[j] + [x]];
    if j < last {
      FlattenUpdate(ws[..last], j, x);
    }
  }

  /** The worker lists, taken together, are a permutation of the input:
      every cell is dealt, and dealt once. */
  lemma {:induction false} DealIsPermutation<T>(s: seq<T>, n: nat)
    requires n > 0
    ensures multiset(Flatten(Deal(s, n))) == multiset(s)
    decreases |s|
  {
    if |s| == 0 {
      var ws := Deal(s, n);
      forall w | 0 <= w < n ensures ws[w] == [] { }
      EmptyListsFlatten(ws);
    } else {
      var p, x := s[..|s| - 1], s[|s| - 1];
      assert p + [x] == s;
      DealIsPermutation(p, n);
      var r := |p| % n;
      forall w | 0 <= w < n
        ensures Deal(s, n)[w] == Deal(p, n)[r := Deal(p, n)[r] + [x]][w]
      {
        DealtSnoc(p, x, n, w);
      }
      assert Deal(s, n) == Deal(p, n)[r := Deal(p, n)[r] + [x]];
      FlattenUpdate(Deal(p, n), r, x);
    }
  }

  lemma {:induction false} EmptyListsFlatten<T>(ws: seq<seq<T>>)
    requires forall w :: 0 <= w < |ws| ==> ws[w] == []
    ensures Flatten(ws) == []
    decreases |ws|
  {
    if |ws| > 0 {
      EmptyListsFlatten(ws[..|ws| - 1]);
    }
  }

  /** The lists are balanced: a lower-ranked worker holds at least as many
      items as a higher-ranked one, and at most one more than any other. */
  lemma DealBalanced<T>(s: seq<T>, n: nat, w1: nat, w2: nat)
    requires w1 < n && w2 < n
    ensures |Dealt(s, n, w1)| <= |Dealt(s, n, w2)| + 1
    ensures w1 <= w2 ==> |Dealt(s, n, w2)| <= |Dealt(s, n, w1)|
  {
    DealtLength(s, n, w1);
    DealtLength(s, n, w2);
  }
}
