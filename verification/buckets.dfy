/**
 The bucket array of `HashMap`: one optional chain per slot, `None` standing for `null`.

 `Flatten` lists the entries in the order the traversals of `keys`, `values` and `entries`
 visit them: ascending slot, then chain order. The lemmas here connect that flat view with the
 per-slot view the hash gives.
 */
module Buckets {
  import opened Wrappers
  import opened Hashing
  import opened Chains
  import opened LinkedLists

  /** A slot: `null` or a chain of entries. */
  type Bucket<V> = Option<LinkedList<Entry<V>>>

  /** The entries a slot holds. */
  function Nodes<V>(b: Bucket<V>): seq<Entry<V>> {
    match b
    case None => []
    case Some(chain) => chain.nodes
  }

  /** The counter a slot contributes to `length()`. */
  function SlotSize<V>(b: Bucket<V>): nat {
    match b
    case None => 0
    case Some(chain) => chain.size
  }

  /** Every entry, slot by slot in ascending order, each chain from its head. */
  function Flatten<V>(bs: seq<Bucket<V>>): seq<Entry<V>> {
    if |bs| == 0 then [] else Flatten(bs[..|bs| - 1]) + Nodes(bs[|bs| - 1])
  }

  /** The sum of the slots' counters, which is what `length()` adds up. */
  function SizeSum<V>(bs: seq<Bucket<V>>): nat {
    if |bs| == 0 then 0 else SizeSum(bs[..|bs| - 1]) + SlotSize(bs[|bs| - 1])
  }

  /** Every entry of slot `i` hashes to `i` under `capacity`. */
  predicate Placed<V>(bs: seq<Bucket<V>>, capacity: nat)
    requires capacity >= 1
  {
    forall i, j :: 0 <= i < |bs| && 0 <= j < |Nodes(bs[i])| ==> Hash(Nodes(bs[i])[j].key, capacity) == i
  }

  /** Every non-null slot holds a non-empty chain whose counter is right and whose keys are distinct. */
  predicate WellFormedChains<V>(bs: seq<Bucket<V>>) {
    forall i :: 0 <= i < |bs| && bs[i].Some? ==>
      bs[i].value.Valid() && bs[i].value.size >= 1 && UniqueKeys(bs[i].value.nodes)
  }

  /** A slot array of `n` nulls, as `new Array(n).fill(null)` makes. */
  function NullSlots<V>(n: nat): (bs: seq<Bucket<V>>)
    ensures |bs| == n && Flatten(bs) == []
    ensures forall i :: 0 <= i < n ==> bs[i].None?
  {
    if n == 0 then [] else NullSlots(n - 1) + [None]
  }

  lemma {:induction false} FlattenConcat<V>(a: seq<Bucket<V>>, b: seq<Bucket<V>>)
    ensures Flatten(a + b) == Flatten(a) + Flatten(b)
    decreases |b|
  {
    if |b| == 0 {
      assert a + b == a;
    } else {
      var b', last := b[..|b| - 1], b[|b| - 1];
      var ab := a + b;
      assert ab[..|ab| - 1] == a + b' && ab[|ab| - 1] == last;
      assert Flatten(ab) == Flatten(a + b') + Nodes(last);
      FlattenConcat(a, b');
      assert Flatten(b) == Flatten(b') + Nodes(last);
    }
  }

  /** The flat view of a slot array with one slot spliced between two parts. */
  lemma FlattenSplice<V>(front: seq<Bucket<V>>, b: Bucket<V>, back: seq<Bucket<V>>)
    ensures Flatten(front + [b] + back) == Flatten(front) + Nodes(b) + Flatten(back)
  {
    assert Flatten([b]) == Nodes(b) by {
      assert [b][..0] == [];
    }
    FlattenConcat(front, [b]);
    FlattenConcat(front + [b], back);
  }

  /** Replacing one slot replaces its entries in the flat view and nothing else. */
  lemma FlattenAround<V>(bs: seq<Bucket<V>>, h: nat, b: Bucket<V>)
    requires h < |bs|
    ensures Flatten(bs) == Flatten(bs[..h]) + Nodes(bs[h]) + Flatten(bs[h + 1..])
    ensures Flatten(bs[h := b]) == Flatten(bs[..h]) + Nodes(b) + Flatten(bs[h + 1..])
  {
    assert Flatten(bs) == Flatten(bs[..h]) + Nodes(bs[h]) + Flatten(bs[h + 1..]) by {
      assert bs == bs[..h] + [bs[h]] + bs[h + 1..];
      FlattenSplice(bs[..h], bs[h], bs[h + 1..]);
    }
    assert Flatten(bs[h := b]) == Flatten(bs[..h]) + Nodes(b) + Flatten(bs[h + 1..]) by {
      assert bs[h := b] == bs[..h] + [b] + bs[h + 1..];
      FlattenSplice(bs[..h], b, bs[h + 1..]);
    }
  }

  /** The flat view of the first `i + 1` slots extends that of the first `i` by slot `i`'s entries. */
  lemma FlattenStep<V>(bs: seq<Bucket<V>>, i: nat)
    requires i < |bs|
    ensures Flatten(bs[..i + 1]) == Flatten(bs[..i]) + Nodes(bs[i])
  {
    assert bs[..i + 1][..i] == bs[..i];
  }

  /** With correct counters, the counters add up to the number of entries. */
  lemma {:induction false} SizeSumIsCount<V>(bs: seq<Bucket<V>>)
    requires WellFormedChains(bs)
    ensures SizeSum(bs) == |Flatten(bs)|
    decreases |bs|
  {
    if |bs| > 0 {
      var prefix := bs[..|bs| - 1];
      assert forall i :: 0 <= i < |prefix| ==> prefix[i] == bs[i];
      SizeSumIsCount(prefix);
    }
  }

  /** Placement survives dropping trailing slots. */
  lemma PlacedPrefix<V>(bs: seq<Bucket<V>>, capacity: nat, n: nat)
    requires capacity >= 1 && n <= |bs| && Placed(bs, capacity)
    ensures Placed(bs[..n], capacity)
  {
    assert forall i :: 0 <= i < n ==> bs[..n][i] == bs[i];
  }

  /**
   The flat view is ordered by slot: an entry never hashes to a smaller slot than one listed
   before it, and every entry hashes to a slot of the array.
   */
  lemma {:induction false} FlattenOrderedBySlot<V>(bs: seq<Bucket<V>>, capacity: nat)
    requires capacity >= 1 && Placed(bs, capacity)
    ensures forall p :: 0 <= p < |Flatten(bs)| ==> Hash(Flatten(bs)[p].key, capacity) < |bs|
    ensures forall p, q :: 0 <= p <= q < |Flatten(bs)| ==>
              Hash(Flatten(bs)[p].key, capacity) <= Hash(Flatten(bs)[q].key, capacity)
    decreases |bs|
  {
    if |bs| > 0 {
      var prefix := bs[..|bs| - 1];
      PlacedPrefix(bs, capacity, |bs| - 1);
      FlattenOrderedBySlot(prefix, capacity);
      var front: seq<Entry<V>> := Flatten(prefix);
      var last: seq<Entry<V>> := Nodes(bs[|bs| - 1]);
      assert Flatten(bs) == front + last;
      assert forall p :: |front| <= p < |front| + |last| ==>
        Hash((front + last)[p].key, capacity) == |bs| - 1 by {
        forall p | |front| <= p < |front| + |last|
          ensures Hash((front + last)[p].key, capacity) == |bs| - 1
        {
          assert (front + last)[p] == last[p - |front|];
        }
      }
    }
  }

  /** An entry sequence whose keys all hash elsewhere cannot hold `key`. */
  lemma MissesOtherSlot<V>(es: seq<Entry<V>>, key: Key, capacity: nat)
    requires capacity >= 1
    requires forall p :: 0 <= p < |es| ==> Hash(es[p].key, capacity) != Hash(key, capacity)
    ensures Lookup(es, key).None?
  {
  }

  /**
   The bucket view: under placement, scanning every entry finds for `key` exactly what
   scanning the slot `key` hashes to finds.
   */
  lemma {:induction false} BucketView<V>(bs: seq<Bucket<V>>, capacity: nat, key: Key)
    requires capacity >= 1 && Placed(bs, capacity) && Hash(key, capacity) < |bs|
    ensures Lookup(Flatten(bs), key) == Lookup(Nodes(bs[Hash(key, capacity)]), key)
    decreases |bs|
  {
    var h, n := Hash(key, capacity), |bs| - 1;
    var prefix := bs[..n];
    var front: seq<Entry<V>>, last := Flatten(prefix), Nodes(bs[n]);
    assert Flatten(bs) == front + last;
    LookupConcat(front, last, key);
    if h == n {
      assert Lookup(front, key).None? by {
        PlacedPrefix(bs, capacity, n);
        FlattenOrderedBySlot(prefix, capacity);
        MissesOtherSlot(front, key, capacity);
      }
    } else {
      assert Lookup(front, key) == Lookup(Nodes(bs[h]), key) by {
        PlacedPrefix(bs, capacity, n);
        BucketView(prefix, capacity, key);
        assert prefix[h] == bs[h];
      }
      assert Lookup(last, key).None? by {
        assert forall p :: 0 <= p < |last| ==> Hash(last[p].key, capacity) == n;
        MissesOtherSlot(last, key, capacity);
      }
    }
  }

  /** Distinct keys within each chain and placement give distinct keys across the whole array. */
  lemma {:induction false} KeysUniqueAcrossSlots<V>(bs: seq<Bucket<V>>, capacity: nat)
    requires capacity >= 1 && Placed(bs, capacity) && WellFormedChains(bs)
    ensures UniqueKeys(Flatten(bs))
    decreases |bs|
  {
    if |bs| > 0 {
      var n := |bs| - 1;
      var prefix := bs[..n];
      PlacedPrefix(bs, capacity, n);
      assert forall i :: 0 <= i < |prefix| ==> prefix[i] == bs[i];
      KeysUniqueAcrossSlots(prefix, capacity);
      FlattenOrderedBySlot(prefix, capacity);
      var front: seq<Entry<V>> := Flatten(prefix);
      var last: seq<Entry<V>> := Nodes(bs[n]);
      assert UniqueKeys(last);
      var all := front + last;
      assert Flatten(bs) == all;
      forall p, q | 0 <= p < q < |all| ensures all[p].key != all[q].key {
        if q < |front| {
          assert all[p] == front[p] && all[q] == front[q];
        } else if p >= |front| {
          assert all[p] == last[p - |front|] && all[q] == last[q - |front|];
        } else {
          assert all[p] == front[p] && all[q] == last[q - |front|];
          assert Hash(all[p].key, capacity) < n;
        }
      }
    }
  }

  /** Replacing one slot by a null or well-formed chain keeps every chain well formed. */
  lemma ReplaceSlotWellFormed<V>(bs: seq<Bucket<V>>, h: nat, b: Bucket<V>)
    requires WellFormedChains(bs) && h < |bs|
    requires b.Some? ==> b.value.Valid() && b.value.size >= 1 && UniqueKeys(b.value.nodes)
    ensures WellFormedChains(bs[h := b])
  {
  }

  /**
   Replacing slot `h` by a chain whose keys all hash to `h` keeps placement, changes the flat
   view's scan only for keys hashing to `h`, and changes the entry count by the difference of
   the two chains' lengths.
   */
  lemma ReplaceSlot<V>(bs: seq<Bucket<V>>, capacity: nat, h: nat, b: Bucket<V>)
    requires capacity >= 1 && |bs| == capacity && h < capacity && Placed(bs, capacity)
    requires forall j :: 0 <= j < |Nodes(b)| ==> Hash(Nodes(b)[j].key, capacity) == h
    ensures Placed(bs[h := b], capacity)
    ensures |Flatten(bs[h := b])| + |Nodes(bs[h])| == |Flatten(bs)| + |Nodes(b)|
    ensures forall k :: Lookup(Flatten(bs[h := b]), k) ==
              if Hash(k, capacity) == h then Lookup(Nodes(b), k) else Lookup(Flatten(bs), k)
  {
    var bs' := bs[h := b];
    FlattenAround(bs, h, b);
    forall k
      ensures Lookup(Flatten(bs'), k) ==
                if Hash(k, capacity) == h then Lookup(Nodes(b), k) else Lookup(Flatten(bs), k)
    {
      BucketView(bs, capacity, k);
      BucketView(bs', capacity, k);
    }
  }
}
