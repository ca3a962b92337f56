/** Ordering players by score, largest first, as every leaderboard of the
    system does: `orderBy: { score: "desc" }` in the store queries
    (backend/src/controllers/game.controllers.ts:277, backend/src/sockets/quizz.socket.ts:161)
    and `sort((a, b) => b.score - a.score)` on the client
    (frontend/src/components/GameLeaderboard.tsx:32, frontend/src/pages/Host/index.tsx:278).

    `Array.prototype.sort` is stable, so equal scores keep their input order;
    `SortDesc` is a stable insertion sort and the lemmas below prove that its
    result is sorted, a permutation of its input, and stable. */
module Ranking {

  predicate SortedDesc<T>(s: seq<T>, key: T -> int)
  {
    forall i, j :: 0 <= i < j < |s| ==> key(s[i]) >= key(s[j])
  }

  /** Places `x`, which came after every element of `s` in the input, behind
      every element whose key is at least its own. */
  function InsertLast<T>(s: seq<T>, x: T, key: T -> int): (r: seq<T>)
    ensures |r| == |s| + 1
  {
    if s == [] || key(s[|s| - 1]) >= key(x) then s + [x]
    else InsertLast(s[..|s| - 1], x, key) + [s[|s| - 1]]
  }

  /** The input sorted by `key`, largest first, equal keys in input order. */
  function SortDesc<T>(s: seq<T>, key: T -> int): (r: seq<T>)
    ensures |r| == |s|
  {
    if s == [] then [] else InsertLast(SortDesc(s[..|s| - 1], key), s[|s| - 1], key)
  }

  /** The elements of `s` whose key is `v`, in order. */
  function WithKey<T>(s: seq<T>, key: T -> int, v: int): seq<T>
  {
    if s == [] then []
    else WithKey(s[..|s| - 1], key, v) + (if key(s[|s| - 1]) == v then [s[|s| - 1]] else [])
  }

  // ---------------------------------------------------------------------------

  lemma {:induction false} InsertLastPermutation<T>(s: seq<T>, x: T, key: T -> int)
    ensures multiset(InsertLast(s, x, key)) == multiset(s) + multiset{x}
  {
    if s != [] && key(s[|s| - 1]) < key(x) {
      var init := s[..|s| - 1];
      assert s == init + [s[|s| - 1]];
      InsertLastPermutation(init, x, key);
    }
  }

  lemma {:induction false} InsertLastSorted<T>(s: seq<T>, x: T, key: T -> int)
    requires SortedDesc(s, key)
    ensures SortedDesc(InsertLast(s, x, key), key)
  {
    if s != [] && key(s[|s| - 1]) < key(x) {
      var init, last := s[..|s| - 1], s[|s| - 1];
      InsertLastSorted(init, x, key);
      InsertLastPermutation(init, x, key);
      var r := InsertLast(init, x, key);
      forall i | 0 <= i < |r| ensures key(r[i]) >= key(last) {
        assert r[i] in multiset(r);
        if r[i] != x {
          assert r[i] in multiset(init);
          var j :| 0 <= j < |init| && init[j] == r[i];
          assert init[j] == s[j];
        }
      }
    }
  }

  /** `SortDesc` orders by key, largest first. */
  lemma {:induction false} SortDescSorted<T>(s: seq<T>, key: T -> int)
    ensures SortedDesc(SortDesc(s, key), key)
    ensures multiset(SortDesc(s, key)) == multiset(s)
  {
    if s != [] {
      var init := s[..|s| - 1];
      assert s == init + [s[|s| - 1]];
      SortDescSorted(init, key);
      InsertLastSorted(SortDesc(init, key), s[|s| - 1], key);
      InsertLastPermutation(SortDesc(init, key), s[|s| - 1], key);
    }
  }

  lemma {:induction false} InsertLastWithKey<T>(s: seq<T>, x: T, key: T -> int, v: int)
    ensures WithKey(InsertLast(s, x, key), key, v)
         == WithKey(s, key, v) + (if key(x) == v then [x] else [])
  {
    if s == [] || key(s[|s| - 1]) >= key(x) {
      assert (s + [x])[..|s|] == s;
    } else {
      var init, last := s[..|s| - 1], s[|s| - 1];
      InsertLastWithKey(init, x, key, v);
      var r := InsertLast(init, x, key);
      assert (r + [last])[..|r|] == r;
    }
  }

  /** `SortDesc` is stable: the players sharing one score appear in the same
      order as in the input. */
  lemma {:induction false} SortDescStable<T>(s: seq<T>, key: T -> int, v: int)
    ensures WithKey(SortDesc(s, key), key, v) == WithKey(s, key, v)
  {
    if s != [] {
      var init := s[..|s| - 1];
      SortDescStable(init, key, v);
      InsertLastWithKey(SortDesc(init, key), s[|s| - 1], key, v);
    }
  }

  /** In a list sorted largest first, nothing past the first `k` entries
      outranks anything among them: the first `k` entries are a top `k`. */
  lemma TopPrefix<T>(s: seq<T>, key: T -> int, k: nat)
    requires SortedDesc(s, key) && k <= |s|
    ensures forall x, y :: x in s[..k] && y in s[k..] ==> key(x) >= key(y)
  {
    forall x, y | x in s[..k] && y in s[k..] ensures key(x) >= key(y) {
      var i :| 0 <= i < k && s[..k][i] == x;
      var j :| 0 <= j < |s| - k && s[k..][j] == y;
      assert s[i] == x && s[k + j] == y;
    }
  }

  // ---------------------------------------------------------------------------
  // Sorting an array in place

  /** Where `InsertLast` puts `x`: after the first `j` entries, when every
      entry from `j` on ranks strictly below `x` and entry `j - 1` does not. */
  lemma {:induction false} InsertLastAt<T>(t: seq<T>, x: T, key: T -> int, j: nat)
    requires j <= |t|
    requires forall k :: j <= k < |t| ==> key(t[k]) < key(x)
    requires j == 0 || key(t[j - 1]) >= key(x)
    ensures InsertLast(t, x, key) == t[..j] + [x] + t[j..]
    decreases |t|
  {
    if t == [] || key(t[|t| - 1]) >= key(x) {
      assert j == |t|;
    } else {
      var init := t[..|t| - 1];
      assert j < |t|;
      InsertLastAt(init, x, key, j);
      assert init[..j] == t[..j];
      assert init[j..] + [t[|t| - 1]] == t[j..];
    }
  }

  /** One step of insertion sort: moves `a[i]` into place among `a[..i]`. */
  method InsertInPlace<T>(a: array<T>, i: nat, key: T -> int)
    requires i < a.Length
    modifies a
    ensures a[..i + 1] == InsertLast(old(a[..i]), old(a[i]), key)
    ensures a[i + 1..] == old(a[i + 1..])
  {
    ghost var t := a[..i];
    var x := a[i];
    var j := i;
    while j > 0 && key(a[j - 1]) < key(x)
      invariant 0 <= j <= i
      invariant forall k :: 0 <= k < j ==> a[k] == t[k]
      invariant forall k :: j < k <= i ==> a[k] == t[k - 1]
      invariant forall k :: i < k < a.Length ==> a[k] == old(a[k])
      invariant forall k :: j <= k < i ==> key(t[k]) < key(x)
    {
      a[j] := a[j - 1];
      j := j - 1;
    }
    a[j] := x;
    InsertLastAt(t, x, key, j);
    ghost var u := t[..j] + [x] + t[j..];
    forall k | 0 <= k <= i ensures a[k] == u[k] {
      if k < j {
        assert u[k] == t[k];
      } else if k > j {
        assert u[k] == t[k - 1];
      }
    }
    assert a[..i + 1] == u;
  }

  /** `a.sort((p, q) => key(q) - key(p))`: sorts the array itself, largest
      key first, equal keys in their original order. */
  method SortDescInPlace<T>(a: array<T>, key: T -> int)
    modifies a
    ensures a[..] == SortDesc(old(a[..]), key)
  {
    ghost var input := a[..];
    var i := 0;
    while i < a.Length
      invariant 0 <= i <= a.Length
      invariant a[..i] == SortDesc(input[..i], key)
      invariant a[i..] == input[i..]
    {
      assert a[i] == input[i];
      InsertInPlace(a, i, key);
      assert input[..i + 1][..i] == input[..i];
      i := i + 1;
    }
    assert input[..a.Length] == input;
  }
}
