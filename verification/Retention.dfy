/** Which terminal entries a full store gives up, as a closed form over the arrival order. */
module Retention {
  import opened Wrappers
  import opened Sequences

  const U64_MAX: nat := 0xFFFF_FFFF_FFFF_FFFF

  function SaturatingSub(a: nat, b: nat): nat {
    if b <= a then a - b else 0
  }

  function SaturatingAdd(a: nat, b: nat): nat {
    if a + b <= U64_MAX then a + b else U64_MAX
  }

  /** The index of the first element of `order` in `terminal`. */
  function FirstIn<K(==)>(order: seq<K>, terminal: set<K>): (r: Option<nat>)
    ensures r.Some? ==> r.value < |order| && order[r.value] in terminal
  {
    if order == [] then None
    else if order[0] in terminal then Some(0)
    else
      var rest := FirstIn(order[1..], terminal);
      if rest.Some? then Some(rest.value + 1) else None
  }

  /** How many entries a store of `count` entries must give up, when `available` of them are terminal. */
  function VictimCount(count: nat, available: nat, limit: nat): nat {
    if count <= limit then 0 else if count - limit <= available then count - limit else available
  }

  /** The first terminal keys in arrival order, as many as needed and available. */
  function Victims<K(==)>(order: seq<K>, terminal: set<K>, count: nat, limit: nat): (r: seq<K>)
    ensures r <= Only(order, terminal)
  {
    var candidates := Only(order, terminal);
    candidates[..VictimCount(count, |candidates|, limit)]
  }

  datatype Load = Load(count: nat, bytes: nat)

  predicate Fits(load: Load, limits: Load) {
    load.count <= limits.count && load.bytes <= limits.bytes
  }

  function LengthAt<K>(lengths: map<K, nat>, key: K): nat {
    if key in lengths then lengths[key] else 0
  }

  /** The load left after giving up the first `n` candidates. */
  function LoadAfter<K>(load: Load, candidates: seq<K>, lengths: map<K, nat>, n: nat): Load
    requires n <= |candidates|
  {
    if n == 0 then load
    else
      var before := LoadAfter(load, candidates, lengths, n - 1);
      Load(SaturatingSub(before.count, 1), SaturatingSub(before.bytes, LengthAt(lengths, candidates[n - 1])))
  }

  /** The least relief at or beyond `from`. */
  function Relief<K>(load: Load, candidates: seq<K>, lengths: map<K, nat>, limits: Load, from: nat): (n: nat)
    requires from <= |candidates|
    ensures from <= n <= |candidates|
    ensures forall m: nat :: from <= m < n ==> !Fits(LoadAfter(load, candidates, lengths, m), limits)
    ensures n < |candidates| ==> Fits(LoadAfter(load, candidates, lengths, n), limits)
    decreases |candidates| - from
  {
    if from == |candidates| || Fits(LoadAfter(load, candidates, lengths, from), limits) then from
    else Relief(load, candidates, lengths, limits, from + 1)
  }

  lemma {:induction false} FirstInIsHead<K>(order: seq<K>, terminal: set<K>)
    ensures var i := FirstIn(order, terminal);
      if i.Some? then Only(order, terminal) != [] && order[i.value] == Only(order, terminal)[0]
      else Only(order, terminal) == []
  {
    if order != [] && order[0] !in terminal {
      FirstInIsHead(order[1..], terminal);
    }
  }

  /** Dropping a prefix of the candidates from the order drops exactly that prefix from the candidates. */
  lemma {:induction false} OnlyWithout<K>(order: seq<K>, keep: set<K>, n: nat)
    requires NoDup(order) && n <= |Only(order, keep)|
    ensures Only(Without(order, Elems(Only(order, keep)[..n])), keep) == Only(order, keep)[n..]
  {
    var all := Only(order, keep);
    var drop := Elems(all[..n]);
    if n == 0 {
      WithoutNothing(order, drop);
    } else {
      assert all[0] in drop;
      OnlyNoDup(order, keep);
      assert NoDup(order[1..]);
      var rest := Only(order[1..], keep);
      if order[0] in keep {
        assert all == [order[0]] + rest;
        assert all[..n] == [order[0]] + rest[..n - 1];
        OnlyWithout(order[1..], keep, n - 1);
        WithoutIrrelevant(order[1..], Elems(rest[..n - 1]), drop, order[0]);
      } else {
        assert all == rest;
        OnlyMembers(order[1..], keep, order[0]);
        OnlyWithout(order[1..], keep, n);
        assert order[0] !in drop;
      }
    }
  }

  lemma {:induction false} WithoutIrrelevant<K>(order: seq<K>, small: set<K>, big: set<K>, x: K)
    requires x !in order && big == small + {x}
    ensures Without(order, small) == Without(order, big)
  {
    if order != [] {
      assert order[0] != x;
      assert x !in order[1..];
      WithoutIrrelevant(order[1..], small, big, x);
    }
  }

  lemma {:induction false} OnlyAgrees<K>(order: seq<K>, keep: set<K>, other: set<K>)
    requires forall k :: k in order ==> (k in keep <==> k in other)
    ensures Only(order, keep) == Only(order, other)
  {
    if order != [] {
      assert forall k :: k in order[1..] ==> k in order;
      OnlyAgrees(order[1..], keep, other);
    }
  }

  /**
   One turn of an eviction loop. With the first `n` candidates gone, the search for a terminal entry
   finds candidate `n`, and cutting it out of the order leaves the order with `n + 1` candidates gone;
   it finds nothing exactly when no candidate is left.
   */
  lemma NextVictim<K>(order: seq<K>, terminal: set<K>, n: nat)
    requires NoDup(order) && n <= |Only(order, terminal)|
    ensures var candidates := Only(order, terminal);
      var gone := Elems(candidates[..n]);
      var left := Without(order, gone);
      var found := FirstIn(left, terminal - gone);
      if n == |candidates| then found.None?
      else
        && found.Some?
        && left[found.value] == candidates[n]
        && left[..found.value] + left[found.value + 1..] == Without(order, Elems(candidates[..n + 1]))
        && candidates[n] !in gone
        && Elems(candidates[..n + 1]) == gone + {candidates[n]}
  {
    var candidates := Only(order, terminal);
    var gone := Elems(candidates[..n]);
    var left := Without(order, gone);
    OnlyWithout(order, terminal, n);
    forall k | k in left ensures k in terminal <==> k in terminal - gone {
      WithoutMembers(order, gone, k);
    }
    OnlyAgrees(left, terminal, terminal - gone);
    FirstInIsHead(left, terminal - gone);
    if n < |candidates| {
      var at := FirstIn(left, terminal - gone).value;
      WithoutNoDup(order, gone);
      WithoutOne(left, at);
      WithoutTwice(order, gone, {candidates[n]});
      OnlyNoDup(order, terminal);
      assert candidates[..n + 1] == candidates[..n] + [candidates[n]];
      assert Elems(candidates[..n + 1]) == gone + {candidates[n]};
    }
  }

  lemma {:induction false} OnlyConcat<K>(a: seq<K>, b: seq<K>, keep: set<K>)
    ensures Only(a + b, keep) == Only(a, keep) + Only(b, keep)
  {
    if a == [] {
      assert a + b == b;
    } else {
      OnlyConcat(a[1..], b, keep);
      assert (a + b)[0] == a[0] && (a + b)[1..] == a[1..] + b;
    }
  }

  lemma {:induction false} OnlyNarrows<K>(order: seq<K>, wide: set<K>, narrow: set<K>)
    requires narrow <= wide
    ensures Only(Only(order, wide), narrow) == Only(order, narrow)
  {
    if order != [] {
      OnlyNarrows(order[1..], wide, narrow);
      if order[0] in wide {
        assert Only(order, wide)[1..] == Only(order[1..], wide);
      }
    }
  }

  /** Splitting a filtered order at one element of the unfiltered one. */
  lemma OnlySplit<K>(order: seq<K>, at: nat, keep: set<K>)
    requires at < |order|
    ensures Only(order, keep) ==
      Only(order[..at], keep) + (if order[at] in keep then [order[at]] else []) + Only(order[at + 1..], keep)
    ensures Only(order[..at + 1], keep) == Only(order[..at], keep) + (if order[at] in keep then [order[at]] else [])
  {
    var before, one, after := order[..at], [order[at]], order[at + 1..];
    OnlyOne(order[at], keep);
    assert order == before + one + after && order[..at + 1] == before + one;
    OnlyConcat(before, one, keep);
    OnlyConcat(before + one, after, keep);
  }

  lemma OnlyOne<K>(x: K, keep: set<K>)
    ensures Only([x], keep) == if x in keep then [x] else []
  {
    assert [x][1..] == [];
  }
}
