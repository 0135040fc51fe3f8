/** Winner selection: the Durstenfeld form of the Fisher–Yates shuffle over a copy
    of the participant list, then the first `count` entries of the result.

    `Math.random` is replaced by an oracle: `swaps[i]` is the index `j` that the
    iteration for position `i` swaps with (`Math.floor(Math.random() * (i + 1))`,
    so `0 <= j <= i`). The loop never runs for `i == 0`, so `swaps[0]` is unused. */
module Selection {
  import opened Participants

  /** `[s[i], s[j]] = [s[j], s[i]]` on a value. */
  function Swap<T>(s: seq<T>, i: nat, j: nat): (r: seq<T>)
    requires i < |s| && j < |s|
    ensures |r| == |s| && r[i] == s[j] && r[j] == s[i]
    ensures forall k :: 0 <= k < |s| && k != i && k != j ==> r[k] == s[k]
  {
    s[i := s[j]][j := s[i]]
  }

  /** A swap only reorders. */
  lemma SwapIsPermutation<T>(s: seq<T>, i: nat, j: nat)
    requires i < |s| && j < |s|
    ensures multiset(Swap(s, i, j)) == multiset(s)
  {
  }

  /** The values `Math.floor(Math.random() * (i + 1))` can take, one per position. */
  predicate ValidSwaps(swaps: seq<nat>, n: nat) {
    |swaps| == n && forall i :: 0 < i < n ==> swaps[i] <= i
  }

  /** The loop `for (i = top; i > 0; i--) swap(i, swaps[i])`, as a value. */
  function ShuffleDown<T>(s: seq<T>, swaps: seq<nat>, top: nat): (r: seq<T>)
    requires top < |s| && ValidSwaps(swaps, |s|)
    ensures |r| == |s|
    decreases top
  {
    if top == 0 then s else ShuffleDown(Swap(s, top, swaps[top]), swaps, top - 1)
  }

  /** The whole shuffle, from the last position down to position 1. */
  function Shuffled<T>(s: seq<T>, swaps: seq<nat>): (r: seq<T>)
    requires ValidSwaps(swaps, |s|)
    ensures |r| == |s| && multiset(r) == multiset(s)
  {
    if |s| == 0 then s
    else
      ShuffleDownIsPermutation(s, swaps, |s| - 1);
      ShuffleDown(s, swaps, |s| - 1)
  }

  /** Every step of the loop only reorders, so the loop only reorders. */
  lemma {:induction false} ShuffleDownIsPermutation<T>(s: seq<T>, swaps: seq<nat>, top: nat)
    requires top < |s| && ValidSwaps(swaps, |s|)
    ensures multiset(ShuffleDown(s, swaps, top)) == multiset(s)
    decreases top
  {
    if top > 0 {
      SwapIsPermutation(s, top, swaps[top]);
      ShuffleDownIsPermutation(Swap(s, top, swaps[top]), swaps, top - 1);
    }
  }

  /** The shuffle is a permutation: it neither loses nor duplicates a participant. */
  lemma ShuffledIsPermutation<T>(s: seq<T>, swaps: seq<nat>)
    requires ValidSwaps(swaps, |s|)
    ensures |Shuffled(s, swaps)| == |s|
    ensures multiset(Shuffled(s, swaps)) == multiset(s)
    ensures forall x :: x in Shuffled(s, swaps) <==> x in s
    ensures Distinct(s) ==> Distinct(Shuffled(s, swaps))
  {
    var r := Shuffled(s, swaps);
    if |s| > 0 {
      ShuffleDownIsPermutation(s, swaps, |s| - 1);
      if Distinct(s) {
        ShuffleDownKeepsDistinct(s, swaps, |s| - 1);
      }
    }
    forall x ensures x in r <==> x in s {
      assert x in r <==> x in multiset(r);
      assert x in s <==> x in multiset(s);
    }
  }

  /** A permutation of a list without duplicates has no duplicates. */
  lemma {:induction false} ShuffleDownKeepsDistinct<T>(s: seq<T>, swaps: seq<nat>, top: nat)
    requires top < |s| && ValidSwaps(swaps, |s|) && Distinct(s)
    ensures Distinct(ShuffleDown(s, swaps, top))
    decreases top
  {
    if top > 0 {
      var t := Swap(s, top, swaps[top]);
      assert Distinct(t) by {
        forall a, b | 0 <= a < b < |t| ensures t[a] != t[b] {
          var a' := if a == top then swaps[top] else if a == swaps[top] then top else a;
          var b' := if b == top then swaps[top] else if b == swaps[top] then top else b;
          assert t[a] == s[a'] && t[b] == s[b'] && a' != b';
        }
      }
      ShuffleDownKeepsDistinct(t, swaps, top - 1);
    }
  }

  /** Positions above `top` are never touched. */
  lemma {:induction false} ShuffleDownKeepsTail<T>(s: seq<T>, swaps: seq<nat>, top: nat)
    requires top < |s| && ValidSwaps(swaps, |s|)
    ensures forall k :: top < k < |s| ==> ShuffleDown(s, swaps, top)[k] == s[k]
    decreases top
  {
    if top > 0 {
      ShuffleDownKeepsTail(Swap(s, top, swaps[top]), swaps, top - 1);
    }
  }

  /** The shuffle up to `top` reads only `swaps[1..top]`. */
  lemma {:induction false} ShuffleDownReadsPrefix<T>(s: seq<T>, sw1: seq<nat>, sw2: seq<nat>, top: nat)
    requires top < |s| && ValidSwaps(sw1, |s|) && ValidSwaps(sw2, |s|)
    requires forall k :: 0 < k <= top ==> sw1[k] == sw2[k]
    ensures ShuffleDown(s, sw1, top) == ShuffleDown(s, sw2, top)
    decreases top
  {
    if top > 0 {
      ShuffleDownReadsPrefix(Swap(s, top, sw1[top]), sw1, sw2, top - 1);
    }
  }

  /** Swapping the wanted element into position `top` settles that position and
      leaves the rest of the prefix to be arranged. */
  lemma SettleTop<T>(s: seq<T>, t: seq<T>, top: nat, j: nat)
    requires 0 < top < |s| == |t| && j <= top && s[j] == t[top]
    requires s[top + 1..] == t[top + 1..]
    requires multiset(s[..top + 1]) == multiset(t[..top + 1])
    ensures Swap(s, top, j)[top..] == t[top..]
    ensures multiset(Swap(s, top, j)[..top]) == multiset(t[..top])
  {
    var u := Swap(s, top, j);
    assert u[..top + 1] == Swap(s[..top + 1], top, j);
    SwapIsPermutation(s[..top + 1], top, j);
    assert u[top + 1..] == s[top + 1..];
    assert u[top..] == [u[top]] + u[top + 1..];
    assert t[top..] == [t[top]] + t[top + 1..];
    assert u[..top + 1] == u[..top] + [t[top]];
    assert t[..top + 1] == t[..top] + [t[top]];
    assert multiset(u[..top]) + multiset{t[top]} == multiset(t[..top]) + multiset{t[top]} by {
      assert multiset(u[..top + 1]) == multiset(s[..top + 1]);
    }
    var x := multiset{t[top]};
    assert multiset(u[..top]) == multiset(u[..top]) + x - x;
    assert multiset(t[..top]) == multiset(t[..top]) + x - x;
  }

  /** Every arrangement of `s[..top + 1]` (with the tail already in place) is the
      result of some choice of swap indices. */
  lemma {:induction false} ShuffleDownReaches<T>(s: seq<T>, t: seq<T>, top: nat)
    requires top < |s| == |t|
    requires s[top + 1..] == t[top + 1..]
    requires multiset(s[..top + 1]) == multiset(t[..top + 1])
    ensures exists swaps :: ValidSwaps(swaps, |s|) && ShuffleDown(s, swaps, top) == t
    decreases top
  {
    if top == 0 {
      var zeros := seq(|s|, _ => 0);
      assert s[..1] == [s[0]] && t[..1] == [t[0]];
      assert s[0] in multiset(t[..1]);
      assert s == s[..1] + s[1..] && t == t[..1] + t[1..];
      assert ValidSwaps(zeros, |s|) && ShuffleDown(s, zeros, 0) == t;
    } else {
      assert t[top] in multiset(s[..top + 1]) by {
        assert t[..top + 1][top] == t[top];
      }
      var j :| 0 <= j <= top && s[..top + 1][j] == t[top];
      var u := Swap(s, top, j);
      SettleTop(s, t, top, j);
      assert u[top..] == u[top..top + 1] + u[top + 1..];
      assert t[top..] == t[top..top + 1] + t[top + 1..];
      assert u[top + 1..] == t[top + 1..] && u[..top] == u[..top];
      ShuffleDownReaches(u, t, top - 1);
      var sw' :| ValidSwaps(sw', |s|) && ShuffleDown(u, sw', top - 1) == t;
      var sw := sw'[top := j];
      ShuffleDownReadsPrefix(u, sw, sw', top - 1);
      assert ValidSwaps(sw, |s|) && ShuffleDown(s, sw, top) == t;
    }
  }

  /** Every ordering of the participants can come out of the shuffle. */
  lemma EveryOrderingReachable<T>(s: seq<T>, t: seq<T>)
    requires multiset(s) == multiset(t)
    ensures exists swaps :: ValidSwaps(swaps, |s|) && Shuffled(s, swaps) == t
  {
    assert |s| == |multiset(s)| == |multiset(t)| == |t|;
    if |s| == 0 {
      var zeros: seq<nat> := [];
      assert t == [];
      assert ValidSwaps(zeros, |s|) && Shuffled(s, zeros) == t;
    } else {
      assert s[..|s|] == s && t[..|t|] == t;
      ShuffleDownReaches(s, t, |s| - 1);
      var swaps :| ValidSwaps(swaps, |s|) && ShuffleDown(s, swaps, |s| - 1) == t;
      assert Shuffled(s, swaps) == t;
    }
  }

  /** With distinct entries, the outcome determines every swap index used. */
  lemma {:induction false} ShuffleDownInjective<T>(s: seq<T>, sw1: seq<nat>, sw2: seq<nat>, top: nat)
    requires top < |s| && Distinct(s) && ValidSwaps(sw1, |s|) && ValidSwaps(sw2, |s|)
    requires ShuffleDown(s, sw1, top) == ShuffleDown(s, sw2, top)
    ensures forall k :: 0 < k <= top ==> sw1[k] == sw2[k]
    decreases top
  {
    if top > 0 {
      var u1, u2 := Swap(s, top, sw1[top]), Swap(s, top, sw2[top]);
      ShuffleDownKeepsTail(u1, sw1, top - 1);
      ShuffleDownKeepsTail(u2, sw2, top - 1);
      assert s[sw1[top]] == u1[top] == u2[top] == s[sw2[top]];
      assert sw1[top] == sw2[top];
      ShuffleDownKeepsDistinct(s, sw1, 0);
      assert Distinct(u1) by {
        forall a, b | 0 <= a < b < |u1| ensures u1[a] != u1[b] {
          var a' := if a == top then sw1[top] else if a == sw1[top] then top else a;
          var b' := if b == top then sw1[top] else if b == sw1[top] then top else b;
          assert u1[a] == s[a'] && u1[b] == s[b'] && a' != b';
        }
      }
      ShuffleDownInjective(u1, sw1, sw2, top - 1);
    }
  }

  /** For participants without duplicates, distinct swap choices give distinct
      orderings: together with EveryOrderingReachable, the valid swap sequences
      and the orderings correspond one to one. */
  lemma SwapsDetermineOrdering<T>(s: seq<T>, sw1: seq<nat>, sw2: seq<nat>)
    requires Distinct(s) && ValidSwaps(sw1, |s|) && ValidSwaps(sw2, |s|)
    requires Shuffled(s, sw1) == Shuffled(s, sw2)
    ensures forall k :: 0 < k < |s| ==> sw1[k] == sw2[k]
  {
    if |s| > 0 {
      ShuffleDownInjective(s, sw1, sw2, |s| - 1);
    }
  }

  /** In a list without duplicates every element occurs exactly once. */
  lemma {:induction false} DistinctOccursOnce<T>(s: seq<T>, x: T)
    requires Distinct(s)
    ensures multiset(s)[x] == if x in s then 1 else 0
  {
    if s != [] {
      assert s == [s[0]] + s[1..];
      assert Distinct(s[1..]) by {
        forall a, b | 0 <= a < b < |s[1..]| ensures s[1..][a] != s[1..][b] {
          assert s[1..][a] == s[a + 1] && s[1..][b] == s[b + 1];
        }
      }
      DistinctOccursOnce(s[1..], x);
      assert s[0] !in s[1..];
    }
  }

  /** The entries of `s` that are not in `ws`, in their order in `s`. */
  function Without(s: seq<string>, ws: seq<string>): (r: seq<string>)
    ensures forall x :: x in r <==> x in s && x !in ws
    ensures Distinct(s) ==> Distinct(r)
  {
    if s == [] then []
    else
      assert Distinct(s) ==> s[0] !in s[1..];
      assert Distinct(s) ==> Distinct(s[1..]) by {
        if Distinct(s) {
          forall a, b | 0 <= a < b < |s[1..]| ensures s[1..][a] != s[1..][b] {
            assert s[1..][a] == s[a + 1] && s[1..][b] == s[b + 1];
          }
        }
      }
      assert s == [s[0]] + s[1..];
      (if s[0] in ws then [] else [s[0]]) + Without(s[1..], ws)
  }

  /** Every list of distinct participants is a possible winner list: some choice
      of swap indices puts exactly those winners, in that order, in front. */
  lemma EveryWinnerListReachable(users: seq<string>, ws: seq<string>)
    requires Distinct(users) && Distinct(ws)
    requires forall w :: w in ws ==> w in users
    ensures |ws| <= |users|
    ensures exists swaps :: ValidSwaps(swaps, |users|) && Selected(users, |ws|, swaps) == ws
  {
    var rest := Without(users, ws);
    var t := ws + rest;
    assert Distinct(t) by {
      forall a, b | 0 <= a < b < |t| ensures t[a] != t[b] {
        if a < |ws| && b >= |ws| {
          assert t[a] in ws && t[b] == rest[b - |ws|] && t[b] in rest;
        }
      }
    }
    forall x ensures multiset(t)[x] == multiset(users)[x] {
      DistinctOccursOnce(t, x);
      DistinctOccursOnce(users, x);
    }
    assert multiset(t) == multiset(users);
    assert |ws| <= |users| by {
      assert |t| == |multiset(t)| == |multiset(users)| == |users|;
    }
    EveryOrderingReachable(users, t);
    var swaps :| ValidSwaps(swaps, |users|) && Shuffled(users, swaps) == t;
    assert t[..|ws|] == ws;
    assert Selected(users, |ws|, swaps) == ws;
  }

  /** The in-place loop of the source: `for (let i = a.length - 1; i > 0; i--)`. */
  method ShuffleInPlace<T>(a: array<T>, swaps: seq<nat>)
    requires ValidSwaps(swaps, a.Length)
    modifies a
    ensures a[..] == Shuffled(old(a[..]), swaps)
  {
    var i := a.Length - 1;
    while i > 0
      invariant a.Length == 0 ==> i == -1
      invariant a.Length > 0 ==> 0 <= i < a.Length && ShuffleDown(a[..], swaps, i) == Shuffled(old(a[..]), swaps)
    {
      var j := swaps[i];
      ghost var before := a[..];
      a[i], a[j] := a[j], a[i];
      assert a[..] == Swap(before, i, j);
      i := i - 1;
    }
  }

  /** The winners of a draw: the first `count` entries of the shuffled participants. */
  function Selected(users: seq<string>, count: nat, swaps: seq<nat>): (winners: seq<string>)
    requires count <= |users| && ValidSwaps(swaps, |users|)
    ensures |winners| == count
    ensures forall w :: w in winners ==> w in users
    ensures Distinct(users) ==> Distinct(winners)
    ensures count == |users| ==> multiset(winners) == multiset(users)
  {
    ShuffledIsPermutation(users, swaps);
    var shuffled := Shuffled(users, swaps);
    assert count == |users| ==> shuffled[..count] == shuffled;
    shuffled[..count]
  }

  /** `const shuffled = [...uniqueUsers]`, the shuffle, then `shuffled.slice(0, count)`.
      The participant list itself is a value and stays as it was. */
  method SelectWinners(users: seq<string>, count: nat, swaps: seq<nat>) returns (winners: seq<string>)
    requires count <= |users| && ValidSwaps(swaps, |users|)
    ensures winners == Selected(users, count, swaps)
    ensures |winners| == count
    ensures Distinct(users) ==> Distinct(winners)
  {
    var shuffled := new string[|users|](k requires 0 <= k < |users| => users[k]);
    assert shuffled[..] == users;
    ShuffleInPlace(shuffled, swaps);
    winners := shuffled[..count];
  }
}
