/**
 An arrival order over a keyed store: each key once, by strictly increasing sequence number,
 every number below the shared counter.
 */
module ArrivalIndex {
  import opened Sequences

  ghost predicate Indexed<K(!new)>(order: seq<K>, rank: map<K, nat>, next: nat) {
    && NoDup(order)
    && (forall k :: k in order <==> k in rank)
    && (forall i, j :: 0 <= i < j < |order| ==> rank[order[i]] < rank[order[j]])
    && (forall k :: k in rank ==> rank[k] < next)
  }

  lemma AppendKey<K(!new)>(order: seq<K>, rank: map<K, nat>, next: nat, key: K)
    requires Indexed(order, rank, next) && key !in rank
    ensures Indexed(order + [key], rank[key := next], next + 1)
  {
    var longer := order + [key];
    forall i, j | 0 <= i < j < |longer|
      ensures longer[i] != longer[j] && rank[key := next][longer[i]] < rank[key := next][longer[j]]
    {
      assert longer[i] in order;
    }
  }

  lemma RemoveKeys<K(!new)>(order: seq<K>, rank: map<K, nat>, next: nat, gone: set<K>)
    requires Indexed(order, rank, next)
    ensures Indexed(Without(order, gone), rank - gone, next)
  {
    var left := Without(order, gone);
    forall k ensures k in left <==> k in rank - gone {
      WithoutMembers(order, gone, k);
    }
    WithoutNoDup(order, gone);
    forall i, j | 0 <= i < j < |left| ensures (rank - gone)[left[i]] < (rank - gone)[left[j]] {
      WithoutIsSubsequence(order, gone, i, j);
    }
  }
}
