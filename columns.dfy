/**
 * Column compaction as sequence operations: a column is a sequence read bottom
 * to top, a mask says which entries are tagged, and Pick keeps the entries
 * whose tag has the wanted value, in their original order.
 */
module Columns {

  /** The entries of s whose mask bit equals want, bottom to top. */
  function Pick<T>(s: seq<T>, mask: seq<bool>, want: bool): seq<T>
    requires |mask| == |s|
  {
    if s == [] then []
    else Pick(s[..|s| - 1], mask[..|s| - 1], want) + (if mask[|s| - 1] == want then [s[|s| - 1]] else [])
  }

  /** Extending a prefix of the column by one entry appends that entry when its bit is want. */
  lemma PickSnoc<T>(s: seq<T>, mask: seq<bool>, want: bool, n: int)
    requires |mask| == |s| && 0 <= n < |s|
    ensures Pick(s[..n + 1], mask[..n + 1], want) == Pick(s[..n], mask[..n], want) + (if mask[n] == want then [s[n]] else [])
  {
    assert s[..n + 1][..n] == s[..n] && mask[..n + 1][..n] == mask[..n];
  }

  /** Ascending indices are distinct. */
  lemma PositionsInjective(mask: seq<bool>, want: bool, j: int, k: int)
    requires 0 <= j < |Positions(mask, want)| && 0 <= k < |Positions(mask, want)|
    requires Positions(mask, want)[j] == Positions(mask, want)[k]
    ensures j == k
  {
  }

  /** The indices whose mask bit equals want, ascending. */
  function Positions(mask: seq<bool>, want: bool): (P: seq<int>)
    ensures forall j :: 0 <= j < |P| ==> 0 <= P[j] < |mask| && mask[P[j]] == want
    ensures forall j, k :: 0 <= j < k < |P| ==> P[j] < P[k]
  {
    if mask == [] then []
    else
      var Q := Positions(mask[..|mask| - 1], want);
      assert forall j :: 0 <= j < |Q| ==> mask[Q[j]] == mask[..|mask| - 1][Q[j]];
      Q + (if mask[|mask| - 1] == want then [|mask| - 1] else [])
  }

  /** Every index whose bit is want is listed by Positions. */
  lemma {:induction false} PositionsComplete(mask: seq<bool>, want: bool)
    ensures forall i :: 0 <= i < |mask| && mask[i] == want ==> i in Positions(mask, want)
  {
    if mask != [] {
      var n := |mask| - 1;
      var m := mask[..n];
      PositionsComplete(m, want);
      var P, Q := Positions(mask, want), Positions(m, want);
      forall i | 0 <= i < |mask| && mask[i] == want
        ensures i in P
      {
        if i < n {
          assert m[i] == mask[i];
          assert i in Q;
        } else {
          assert P[|P| - 1] == i;
        }
      }
    }
  }

  /** Pick takes, in order, the entries of s at the positions whose bit is want. */
  lemma {:induction false} PickAt<T>(s: seq<T>, mask: seq<bool>, want: bool)
    requires |mask| == |s|
    ensures |Pick(s, mask, want)| == |Positions(mask, want)|
    ensures forall j :: 0 <= j < |Pick(s, mask, want)| ==>
              0 <= Positions(mask, want)[j] < |s| && Pick(s, mask, want)[j] == s[Positions(mask, want)[j]]
  {
    if s != [] {
      var n := |s| - 1;
      PickAt(s[..n], mask[..n], want);
    }
  }

  /**
   * Compaction keeps exactly the untagged entries of a column and keeps them in
   * their original bottom-to-top order: the k-th survivor is the entry at the
   * k-th untagged index, those indices ascend, and every untagged index occurs.
   */
  lemma KeepsUntaggedInOrder<T>(s: seq<T>, mask: seq<bool>)
    requires |mask| == |s|
    ensures var P := Positions(mask, false);
            && |Pick(s, mask, false)| == |P|
            && (forall j :: 0 <= j < |P| ==> 0 <= P[j] < |s| && !mask[P[j]] && Pick(s, mask, false)[j] == s[P[j]])
            && (forall j, k :: 0 <= j < k < |P| ==> P[j] < P[k])
            && (forall i :: 0 <= i < |s| && !mask[i] ==> i in P)
  {
    PositionsComplete(mask, false);
    PickAt(s, mask, false);
  }

  /** Every entry goes to exactly one side: the survivors and the removed split the column. */
  lemma {:induction false} PickSplits<T>(s: seq<T>, mask: seq<bool>)
    requires |mask| == |s|
    ensures |Pick(s, mask, false)| + |Pick(s, mask, true)| == |s|
    ensures multiset(Pick(s, mask, false)) + multiset(Pick(s, mask, true)) == multiset(s)
  {
    if s != [] {
      var n := |s| - 1;
      PickSplits(s[..n], mask[..n]);
      assert s == s[..n] + [s[n]];
      assert multiset(s) == multiset(s[..n]) + multiset{s[n]};
      if mask[n] {
        assert Pick(s, mask, true) == Pick(s[..n], mask[..n], true) + [s[n]];
        assert Pick(s, mask, false) == Pick(s[..n], mask[..n], false);
      } else {
        assert Pick(s, mask, false) == Pick(s[..n], mask[..n], false) + [s[n]];
        assert Pick(s, mask, true) == Pick(s[..n], mask[..n], true);
      }
    }
  }

  /** A survivor or a removed entry is an entry of the column. */
  lemma PickFrom<T>(s: seq<T>, mask: seq<bool>, want: bool)
    requires |mask| == |s|
    ensures forall e :: e in Pick(s, mask, want) ==> e in s
  {
    PickSplits(s, mask);
    forall e | e in Pick(s, mask, want)
      ensures e in s
    {
      assert e in multiset(Pick(s, mask, want));
      assert e in multiset(s);
    }
  }

  /** Each column of a board compacted by its own mask. */
  function Survivors<T>(b: seq<seq<T>>, masks: seq<seq<bool>>): seq<seq<T>>
    requires |masks| == |b| && forall x :: 0 <= x < |b| ==> |masks[x]| == |b[x]|
  {
    seq(|b|, x requires 0 <= x < |b| => Pick(b[x], masks[x], false))
  }

  /** The tagged entries of the first n columns of a board, column after column, each column bottom to top. */
  function Removed<T>(b: seq<seq<T>>, masks: seq<seq<bool>>, n: int): seq<T>
    requires |masks| == |b| && forall x :: 0 <= x < |b| ==> |masks[x]| == |b[x]|
    requires 0 <= n <= |b|
  {
    if n == 0 then [] else Removed(b, masks, n - 1) + Pick(b[n - 1], masks[n - 1], true)
  }

  /** Pick keeps every entry whose bit is want, and nothing else. */
  lemma PickHolds<T>(s: seq<T>, mask: seq<bool>, want: bool)
    requires |mask| == |s|
    ensures forall i :: 0 <= i < |s| && mask[i] == want ==> s[i] in Pick(s, mask, want)
    ensures forall e :: e in Pick(s, mask, want) ==> exists i :: 0 <= i < |s| && mask[i] == want && s[i] == e
  {
    PositionsComplete(mask, want);
    PickAt(s, mask, want);
    var P := Positions(mask, want);
    forall i | 0 <= i < |s| && mask[i] == want
      ensures s[i] in Pick(s, mask, want)
    {
      var j :| 0 <= j < |P| && P[j] == i;
      assert Pick(s, mask, want)[j] == s[i];
    }
    forall e | e in Pick(s, mask, want)
      ensures exists i :: 0 <= i < |s| && mask[i] == want && s[i] == e
    {
      var j :| 0 <= j < |Pick(s, mask, want)| && Pick(s, mask, want)[j] == e;
      assert mask[P[j]] == want && s[P[j]] == e;
    }
  }

  /**
   * The removed entries of the first n columns are exactly their tagged
   * entries: every tagged entry is among them, and each of them is tagged.
   */
  lemma {:induction false} RemovedHoldsTagged<T>(b: seq<seq<T>>, masks: seq<seq<bool>>, n: int)
    requires |masks| == |b| && forall x :: 0 <= x < |b| ==> |masks[x]| == |b[x]|
    requires 0 <= n <= |b|
    ensures forall x, y :: 0 <= x < n && 0 <= y < |b[x]| && masks[x][y] ==> b[x][y] in Removed(b, masks, n)
    ensures forall e :: e in Removed(b, masks, n) ==>
              exists x, y :: 0 <= x < n && 0 <= y < |b[x]| && masks[x][y] && b[x][y] == e
    decreases n
  {
    if n > 0 {
      RemovedHoldsTagged(b, masks, n - 1);
      PickHolds(b[n - 1], masks[n - 1], true);
      var R := Removed(b, masks, n);
      assert R == Removed(b, masks, n - 1) + Pick(b[n - 1], masks[n - 1], true);
      forall e | e in R
        ensures exists x, y :: 0 <= x < n && 0 <= y < |b[x]| && masks[x][y] && b[x][y] == e
      {
        if e !in Removed(b, masks, n - 1) {
          var i :| 0 <= i < |b[n - 1]| && masks[n - 1][i] && b[n - 1][i] == e;
        }
      }
    }
  }
}
