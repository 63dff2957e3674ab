/**
 * Orders on finite sets of keys: the descending-id order of the in-memory store
 * and the newest-created-first order of the older repository.
 */
module KeyOrder {

  /** A non-empty set has an element. */
  lemma HasElement(s: set<int>)
    requires s != {}
    ensures exists y :: y in s
  {
    if forall y :: y !in s {
      assert false;
    }
  }

  /** A set without elements is empty. */
  lemma HasElementOrEmpty(s: set<int>)
    ensures s == {} || exists y :: y in s
  {
    if s != {} {
      HasElement(s);
    }
  }

  /** Every element of a non-empty finite set of integers is bounded by one of them. */
  lemma {:induction false} MaxExists(s: set<int>)
    requires s != {}
    ensures exists m :: m in s && forall x :: x in s ==> x <= m
    decreases s
  {
    HasElement(s);
    var y :| y in s;
    if s != {y} {
      MaxExists(s - {y});
      var m :| m in s - {y} && forall x :: x in s - {y} ==> x <= m;
      var top := if y <= m then m else y;
      forall x | x in s ensures x <= top {
        if x != y { assert x in s - {y}; }
      }
    } else {
      assert forall x :: x in s ==> x <= y;
    }
  }

  /** The largest element of a non-empty finite set. */
  function MaxOf(s: set<int>): (m: int)
    requires s != {}
    ensures m in s && forall x :: x in s ==> x <= m
  {
    MaxExists(s);
    var m :| m in s && forall x :: x in s ==> x <= m;
    m
  }

  /** The smallest element of a non-empty finite set. */
  function MinOf(s: set<int>): (m: int)
    requires s != {}
    ensures m in s && forall x :: x in s ==> m <= x
  {
    var negated := set x | x in s :: -x;
    assert -MaxOf(s) in negated;
    var top := MaxOf(negated);
    assert forall x :: x in s ==> -x in negated;
    -top
  }

  predicate StrictlyDescending(ks: seq<int>)
  {
    forall i, j :: 0 <= i < j < |ks| ==> ks[i] > ks[j]
  }

  /** The keys of `s`, largest first: each once, and nothing else. */
  function KeysDescending(s: set<int>): (ks: seq<int>)
    ensures |ks| == |s|
    ensures forall k :: k in ks <==> k in s
    ensures StrictlyDescending(ks)
    decreases s
  {
    if s == {} then []
    else
      var m := MaxOf(s);
      var rest := KeysDescending(s - {m});
      PrependMax(s, m, rest);
      [m] + rest
  }

  /** Putting the maximum of `s` before a descending listing of the rest of `s` gives
      a descending listing of `s`. */
  lemma PrependMax(s: set<int>, m: int, rest: seq<int>)
    requires m in s && forall x :: x in s ==> x <= m
    requires |rest| == |s - {m}| && StrictlyDescending(rest)
    requires forall k :: k in rest <==> k in s - {m}
    ensures |[m] + rest| == |s|
    ensures forall k :: k in [m] + rest <==> k in s
    ensures StrictlyDescending([m] + rest)
  {
    assert |s - {m}| == |s| - 1;
    var ks := [m] + rest;
    forall i, j | 0 <= i < j < |ks|
      ensures ks[i] > ks[j]
    {
      assert ks[j] == rest[j - 1] && ks[j] in rest;
    }
  }

  /** Two strictly descending sequences with the same elements are the same sequence. */
  lemma {:induction false} StrictlyDescendingUnique(xs: seq<int>, ys: seq<int>)
    requires StrictlyDescending(xs) && StrictlyDescending(ys)
    requires forall k :: k in xs <==> k in ys
    ensures xs == ys
    decreases |xs|
  {
    if xs != [] && ys != [] {
      var x, y := xs[0], ys[0];
      assert x in xs && y in ys;
      assert x in ys && y in xs;
      var i :| 0 <= i < |ys| && ys[i] == x;
      var j :| 0 <= j < |xs| && xs[j] == y;
      assert i == 0 && j == 0;
      forall k ensures k in xs[1..] <==> k in ys[1..] {
        if k in xs[1..] {
          var p :| 1 <= p < |xs| && xs[p] == k;
          assert k < x && k in ys;
        }
        if k in ys[1..] {
          var p :| 1 <= p < |ys| && ys[p] == k;
          assert k < y && k in xs;
        }
      }
      StrictlyDescendingUnique(xs[1..], ys[1..]);
    } else {
      HeadIsMember(xs);
      HeadIsMember(ys);
    }
  }

  /** The first element of a non-empty sequence is one of its elements. */
  lemma HeadIsMember(s: seq<int>)
    ensures s != [] ==> s[0] in s
  {
  }

  /** Key `a` comes before key `b` when its rank is higher, or equal with a smaller key. */
  predicate RankedBefore(rank: map<int, int>, a: int, b: int)
    requires a in rank && b in rank
  {
    rank[a] > rank[b] || (rank[a] == rank[b] && a < b)
  }

  /** The key of `keys` that is ranked before every other one. */
  function FirstRanked(rank: map<int, int>, keys: set<int>): (k: int)
    requires keys != {} && keys <= rank.Keys
    ensures k in keys
    ensures forall j :: j in keys && j != k ==> RankedBefore(rank, k, j)
  {
    HasElement(keys);
    var some :| some in keys;
    var ranks := set j | j in keys :: rank[j];
    assert rank[some] in ranks;
    var top := MaxOf(ranks);
    var holder :| holder in keys && rank[holder] == top;
    var tied := set j | j in keys && rank[j] == top;
    assert holder in tied;
    var first := MinOf(tied);
    assert first in keys && rank[first] == top;
    forall j | j in keys && j != first
      ensures RankedBefore(rank, first, j)
    {
      assert rank[j] in ranks;
      if rank[j] == top {
        assert j in tied;
      }
    }
    first
  }

  predicate RankedOrder(rank: map<int, int>, ks: seq<int>)
  {
    forall i, j :: 0 <= i < j < |ks| ==> ks[i] in rank && ks[j] in rank && RankedBefore(rank, ks[i], ks[j])
  }

  /** The keys of `keys` by descending rank, ties broken by ascending key. */
  function KeysByRank(rank: map<int, int>, keys: set<int>): (ks: seq<int>)
    requires keys <= rank.Keys
    ensures |ks| == |keys|
    ensures forall k :: k in ks <==> k in keys
    ensures RankedOrder(rank, ks)
    decreases keys
  {
    if keys == {} then []
    else
      var k := FirstRanked(rank, keys);
      var rest := KeysByRank(rank, keys - {k});
      PrependFirstRanked(rank, keys, k, rest);
      [k] + rest
  }

  /** Putting the first-ranked key of `keys` before a ranked listing of the other keys
      gives a ranked listing of `keys`. */
  lemma PrependFirstRanked(rank: map<int, int>, keys: set<int>, k: int, rest: seq<int>)
    requires keys <= rank.Keys && k in keys
    requires forall j :: j in keys && j != k ==> RankedBefore(rank, k, j)
    requires |rest| == |keys - {k}| && RankedOrder(rank, rest)
    requires forall j :: j in rest <==> j in keys - {k}
    ensures |[k] + rest| == |keys|
    ensures forall j :: j in [k] + rest <==> j in keys
    ensures RankedOrder(rank, [k] + rest)
  {
    assert |keys - {k}| == |keys| - 1;
    var ks := [k] + rest;
    forall i, j | 0 <= i < j < |ks|
      ensures ks[i] in rank && ks[j] in rank && RankedBefore(rank, ks[i], ks[j])
    {
      assert ks[j] == rest[j - 1] && rest[j - 1] in rest;
      if i > 0 {
        assert ks[i] == rest[i - 1];
      }
    }
  }
}
