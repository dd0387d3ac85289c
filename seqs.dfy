/** Sequence helpers the store is written with: JavaScript's `Array.prototype.filter`,
    `find`/`findIndex` and `some`, over immutable sequences. */
module Seqs {

  datatype Option<+T> = None | Some(value: T)

  /** `s.filter(p)`: the elements of `s` that satisfy `p`, in their original order. */
  function Filter<T>(s: seq<T>, p: T -> bool): (r: seq<T>)
    ensures |r| <= |s|
    decreases |s|
  {
    if s == [] then [] else (if p(s[0]) then [s[0]] else []) + Filter(s[1..], p)
  }

  /** The filter keeps exactly the elements that satisfy `p`. */
  lemma {:induction false} FilterMembership<T(!new)>(s: seq<T>, p: T -> bool)
    ensures forall x :: x in Filter(s, p) <==> x in s && p(x)
    decreases |s|
  {
    if s != [] {
      FilterMembership(s[1..], p);
      assert s == [s[0]] + s[1..];
    }
  }

  /** Filtering a concatenation filters each part: the kept elements keep their order. */
  lemma {:induction false} FilterConcat<T(!new)>(a: seq<T>, b: seq<T>, p: T -> bool)
    ensures Filter(a + b, p) == Filter(a, p) + Filter(b, p)
    decreases |a|
  {
    if a == [] {
      assert a + b == b;
    } else {
      var ab := a + b;
      assert ab[0] == a[0] && ab[1..] == a[1..] + b;
      FilterConcat(a[1..], b, p);
      assert Filter(ab, p) == (if p(a[0]) then [a[0]] else []) + Filter(a[1..] + b, p);
    }
  }

  /** `ix` lists positions of `s`, strictly increasing, and `r` holds the elements of `s`
      at those positions, in that order. */
  ghost predicate PicksInOrder<T>(r: seq<T>, s: seq<T>, ix: seq<nat>) {
    && |ix| == |r|
    && (forall k :: 0 <= k < |ix| ==> ix[k] < |s| && r[k] == s[ix[k]])
    && (forall a, b :: 0 <= a < b < |ix| ==> ix[a] < ix[b])
  }

  /** `r` is `s` with exactly the positions where `p` fails removed: the kept elements
      keep their relative order, and none is repeated or invented. */
  ghost predicate SelectsInOrder<T>(r: seq<T>, s: seq<T>, p: T -> bool) {
    exists ix: seq<nat> :: PicksInOrder(r, s, ix) && forall i: nat :: i in ix <==> i < |s| && p(s[i])
  }

  /** Positions one further along pick the same elements out of `[x] + s`. */
  lemma ShiftPicks<T>(r: seq<T>, s: seq<T>, ix: seq<nat>, x: T) returns (shifted: seq<nat>)
    requires PicksInOrder(r, s, ix)
    ensures PicksInOrder(r, [x] + s, shifted)
    ensures |shifted| == |ix| && forall k :: 0 <= k < |ix| ==> shifted[k] == ix[k] + 1
  {
    shifted := seq(|ix|, k requires 0 <= k < |ix| => ix[k] + 1);
    forall k | 0 <= k < |ix| ensures shifted[k] < |[x] + s| && r[k] == ([x] + s)[shifted[k]] {
      assert ([x] + s)[ix[k] + 1] == s[ix[k]];
    }
  }

  /** The shifted positions are those of the tail where `p` holds, one further along. */
  lemma ShiftedPositions<T>(s: seq<T>, p: T -> bool, ix: seq<nat>, shifted: seq<nat>)
    requires s != []
    requires forall i: nat :: i in ix <==> i < |s| - 1 && p(s[i + 1])
    requires |shifted| == |ix| && forall k :: 0 <= k < |ix| ==> shifted[k] == ix[k] + 1
    ensures forall i: nat :: i in shifted <==> 1 <= i < |s| && p(s[i])
  {
    forall i: nat ensures i in shifted <==> 1 <= i < |s| && p(s[i]) {
      if i in shifted {
        var k :| 0 <= k < |shifted| && shifted[k] == i;
        assert ix[k] in ix;
      }
      if 1 <= i < |s| && p(s[i]) {
        assert (i - 1) in ix;
        var k :| 0 <= k < |ix| && ix[k] == i - 1;
        assert shifted[k] == i;
      }
    }
  }

  /** Picking position 0 first, then positions past it, picks `s[0]` before the rest. */
  lemma PrependPick<T>(r: seq<T>, s: seq<T>, ix: seq<nat>)
    requires s != [] && PicksInOrder(r, s, ix)
    requires forall k :: 0 <= k < |ix| ==> 1 <= ix[k]
    ensures PicksInOrder([s[0]] + r, s, [0] + ix)
  {
    var r', ix' := [s[0]] + r, [0] + ix;
    forall k | 1 <= k < |ix'| ensures ix'[k] < |s| && r'[k] == s[ix'[k]] {
      assert ix'[k] == ix[k - 1] && r'[k] == r[k - 1];
    }
    forall a, b | 0 <= a < b < |ix'| ensures ix'[a] < ix'[b] {
      if 0 < a {
        assert ix'[a] == ix[a - 1] && ix'[b] == ix[b - 1];
      }
    }
  }

  /** The filter is the subsequence of the elements that satisfy `p`. */
  lemma {:induction false} FilterSelectsInOrder<T>(s: seq<T>, p: T -> bool)
    ensures SelectsInOrder(Filter(s, p), s, p)
    decreases |s|
  {
    if s == [] {
      var ix: seq<nat> := [];
      assert PicksInOrder(Filter(s, p), s, ix);
    } else {
      var t := s[1..];
      FilterSelectsInOrder(t, p);
      var rest := Filter(t, p);
      var ix: seq<nat> :| PicksInOrder(rest, t, ix) && forall i: nat :: i in ix <==> i < |t| && p(t[i]);
      assert s == [s[0]] + t;
      var shifted := ShiftPicks(rest, t, ix, s[0]);
      ShiftedPositions(s, p, ix, shifted);
      if p(s[0]) {
        var jx: seq<nat> := [0] + shifted;
        assert Filter(s, p) == [s[0]] + rest;
        PrependPick(rest, s, shifted);
        assert forall i: nat :: i in jx <==> i < |s| && p(s[i]);
      } else {
        assert Filter(s, p) == rest;
        assert 0 !in shifted;
        assert forall i: nat :: i in shifted <==> i < |s| && p(s[i]);
      }
    }
  }

  /** The positions of `s` whose element satisfies `p`. */
  function Positions<T>(s: seq<T>, p: T -> bool): set<nat> {
    set i: nat | i < |s| && p(s[i])
  }

  /** The filter keeps as many elements as there are positions where `p` holds. */
  lemma {:induction false} FilterLengthCounts<T(!new)>(s: seq<T>, p: T -> bool)
    ensures |Filter(s, p)| == |Positions(s, p)|
    decreases |s|
  {
    if s != [] {
      var t, x := s[..|s| - 1], s[|s| - 1];
      FilterLengthCounts(t, p);
      assert s == t + [x];
      FilterConcat(t, [x], p);
      assert Filter([x], p) == (if p(x) then [x] else []) by {
        assert [x][1..] == [];
      }
      var before := Positions(t, p);
      var after := Positions(s, p);
      if p(x) {
        assert after == before + {|t|};
      } else {
        assert after == before;
      }
    }
  }

  /** A filter that every element passes returns the sequence itself. */
  lemma {:induction false} FilterKeepsAll<T(!new)>(s: seq<T>, p: T -> bool)
    requires forall k :: 0 <= k < |s| ==> p(s[k])
    ensures Filter(s, p) == s
    decreases |s|
  {
    if s != [] {
      FilterKeepsAll(s[1..], p);
    }
  }

  /** Filtering by `p` and by `q`, its negation on the elements of `s`, splits `s` into two parts that together hold
      every element of `s` exactly as often as `s` does. */
  lemma {:induction false} FilterPartition<T(!new)>(s: seq<T>, p: T -> bool, q: T -> bool)
    requires forall k :: 0 <= k < |s| ==> q(s[k]) == !p(s[k])
    ensures multiset(Filter(s, p)) + multiset(Filter(s, q)) == multiset(s)
    ensures |Filter(s, p)| + |Filter(s, q)| == |s|
    decreases |s|
  {
    if s != [] {
      var t := s[1..];
      assert forall k :: 0 <= k < |t| ==> t[k] == s[k + 1];
      FilterPartition(t, p, q);
      assert s == [s[0]] + t;
      assert multiset(s) == multiset{s[0]} + multiset(t);
      if p(s[0]) {
        assert Filter(s, p) == [s[0]] + Filter(t, p);
        assert Filter(s, q) == Filter(t, q);
        assert multiset(Filter(s, p)) == multiset{s[0]} + multiset(Filter(t, p));
      } else {
        assert Filter(s, p) == Filter(t, p);
        assert Filter(s, q) == [s[0]] + Filter(t, q);
        assert multiset(Filter(s, q)) == multiset{s[0]} + multiset(Filter(t, q));
      }
    }
  }

  /** Removing the elements that fail `p` from `a + [x] + b`, when only `x` fails it,
      leaves exactly `a + b`. */
  lemma FilterRemovesOne<T(!new)>(a: seq<T>, x: T, b: seq<T>, p: T -> bool)
    requires !p(x)
    requires forall k :: 0 <= k < |a| ==> p(a[k])
    requires forall k :: 0 <= k < |b| ==> p(b[k])
    ensures Filter(a + [x] + b, p) == a + b
  {
    assert Filter([x], p) == [] by {
      assert [x][1..] == [];
    }
    FilterConcat(a + [x], b, p);
    FilterConcat(a, [x], p);
    FilterKeepsAll(a, p);
    FilterKeepsAll(b, p);
    assert Filter(a + [x], p) == a;
  }

  /** No two elements of `s` share a key. */
  predicate KeysDistinct<T, K(==)>(s: seq<T>, key: T -> K) {
    forall i, j :: 0 <= i < j < |s| ==> key(s[i]) != key(s[j])
  }

  /** Filtering never makes two elements share a key. */
  lemma {:induction false} FilterKeepsKeysDistinct<T(!new), K>(s: seq<T>, p: T -> bool, key: T -> K)
    requires KeysDistinct(s, key)
    ensures KeysDistinct(Filter(s, p), key)
    decreases |s|
  {
    if s != [] {
      var tail := s[1..];
      assert KeysDistinct(tail, key) by {
        forall i, j | 0 <= i < j < |tail| ensures key(tail[i]) != key(tail[j]) {
          assert tail[i] == s[i + 1] && tail[j] == s[j + 1];
        }
      }
      FilterKeepsKeysDistinct(tail, p, key);
      FilterMembership(tail, p);
      var rest := Filter(tail, p);
      if p(s[0]) {
        var r := [s[0]] + rest;
        forall i, j | 0 <= i < j < |r| ensures key(r[i]) != key(r[j]) {
          if i == 0 {
            assert r[j] == rest[j - 1] && rest[j - 1] in tail;
            var k :| 0 <= k < |tail| && tail[k] == r[j];
            assert s[k + 1] == r[j];
          } else {
            assert r[i] == rest[i - 1] && r[j] == rest[j - 1];
          }
        }
      }
    }
  }

  /** `s.findIndex(p)`: the first index whose element satisfies `p`, if any. */
  function FindIndex<T>(s: seq<T>, p: T -> bool): (r: Option<nat>)
    ensures r.Some? ==> r.value < |s| && p(s[r.value])
    ensures r.Some? ==> forall k :: 0 <= k < r.value ==> !p(s[k])
    ensures r.None? ==> forall k :: 0 <= k < |s| ==> !p(s[k])
    decreases |s|
  {
    if s == [] then None
    else if p(s[0]) then Some(0)
    else match FindIndex(s[1..], p)
      case None => None
      case Some(i) => Some(i + 1)
  }

  /** An element that satisfies `p` with none before it is the one `FindIndex` finds. */
  lemma FindIndexFirst<T>(s: seq<T>, p: T -> bool, i: nat)
    requires i < |s| && p(s[i]) && forall k :: 0 <= k < i ==> !p(s[k])
    ensures FindIndex(s, p) == Some(i)
  {
  }

  /** `s.some(p)`. */
  predicate Any<T>(s: seq<T>, p: T -> bool) {
    exists k :: 0 <= k < |s| && p(s[k])
  }
}
