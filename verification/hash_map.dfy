/**
 The `HashMap` class: a separate-chaining hash table whose slots hold `LinkedList` chains of
 key/value entries.

 A map is its load factor, its capacity and its slot array. `Contents` is the abstract
 key-to-value map every operation is proved against. The representation invariant comes in
 three layers: `Shaped` (the slot array matches the capacity and every chain is well formed),
 `Sound` (also every entry sits in the slot its key hashes to) and `Valid` (also a supported
 configuration that is not overloaded). Operations demand only what their code needs.
 */
module HashMaps {
  import opened Wrappers
  import opened Hashing
  import opened Chains
  import opened LinkedLists
  import opened Buckets

  datatype HashMap<V> = HashMap(loadFactor: real, capacity: nat, buckets: seq<Bucket<V>>)

  /** The constructor's defaults. */
  const DefaultLoadFactor: real := 0.75
  const DefaultCapacity: nat := 16

  /** The capacity below which removals never shrink the map. */
  const MinCapacity: nat := 16

  /** The capacities modelled: 16 doubled any number of times. */
  predicate IsCapacity(c: nat)
    ensures IsCapacity(c) ==> c >= MinCapacity
    decreases c
  {
    c == MinCapacity || (c > MinCapacity && c % 2 == 0 && IsCapacity(c / 2))
  }

  /** The configurations modelled: a supported capacity, and a load factor for which even the smallest capacity admits one entry. */
  predicate SupportedConfig(loadFactor: real, capacity: nat) {
    IsCapacity(capacity) && (MinCapacity as real) * loadFactor >= 1.0
  }

  /** `entries().length`, the count the growth and shrink checks read. */
  function Count<V>(m: HashMap<V>): nat {
    |Flatten(m.buckets)|
  }

  /** The abstract key-to-value map the slots represent. */
  function Contents<V>(m: HashMap<V>): map<Key, V> {
    ToMap(Flatten(m.buckets))
  }

  /** The growth check of `set`: more entries than `capacity * loadFactor`. */
  predicate Overloaded<V>(m: HashMap<V>) {
    (Count(m) as real) > (m.capacity as real) * m.loadFactor
  }

  /** The shrink check of `remove`: few enough entries for half the capacity, and half the capacity at least 16. */
  predicate Underloaded<V>(m: HashMap<V>) {
    && (Count(m) as real) <= ((m.capacity as real) / 2.0) * m.loadFactor
    && (m.capacity as real) / 2.0 >= MinCapacity as real
  }

  /** One slot per unit of a positive capacity; every non-null chain non-empty, correctly counted and free of duplicate keys. */
  predicate Shaped<V>(m: HashMap<V>) {
    1 <= m.capacity == |m.buckets| && WellFormedChains(m.buckets)
  }

  /** `Shaped`, and every entry sits in the slot its key hashes to. */
  predicate Sound<V>(m: HashMap<V>) {
    Shaped(m) && Placed(m.buckets, m.capacity)
  }

  /** The full representation invariant: `Sound`, a supported configuration, and at most `capacity * loadFactor` entries. */
  predicate Valid<V>(m: HashMap<V>) {
    SupportedConfig(m.loadFactor, m.capacity) && Sound(m) && !Overloaded(m)
  }

  /** The smallest capacity times an admissible load factor is at least one entry, so every capacity's is. */
  lemma ThresholdAtLeastOne(capacity: nat, loadFactor: real)
    requires capacity >= MinCapacity && (MinCapacity as real) * loadFactor >= 1.0
    ensures (capacity as real) * loadFactor >= 1.0
  {
    assert ((capacity as real) - (MinCapacity as real)) * loadFactor >= 0.0;
  }

  /** A map of a supported configuration with no entries is not overloaded. */
  lemma EmptyNotOverloaded<V>(m: HashMap<V>)
    requires SupportedConfig(m.loadFactor, m.capacity) && Count(m) == 0
    ensures !Overloaded(m)
  {
    ThresholdAtLeastOne(m.capacity, m.loadFactor);
  }

  /** Fewer entries at the same capacity and load factor are not overloaded either. */
  lemma FewerNotOverloaded<V>(m: HashMap<V>, m': HashMap<V>)
    requires !Overloaded(m) && Count(m') <= Count(m)
    requires m'.capacity == m.capacity && m'.loadFactor == m.loadFactor
    ensures !Overloaded(m')
  {
  }

  /**
   When `capacity * loadFactor` is at least one, doubling the capacity makes room for one entry
   more than the old threshold allowed.
   */
  lemma DoublingMakesRoom<V>(m: HashMap<V>, m': HashMap<V>)
    requires SupportedConfig(m.loadFactor, m.capacity) && !Overloaded(m)
    requires Count(m') == Count(m) + 1 && m'.capacity == 2 * m.capacity && m'.loadFactor == m.loadFactor
    ensures !Overloaded(m') && SupportedConfig(m'.loadFactor, m'.capacity)
  {
    ThresholdAtLeastOne(m.capacity, m.loadFactor);
    assert ((2 * m.capacity) as real) * m.loadFactor == 2.0 * ((m.capacity as real) * m.loadFactor);
  }

  /** The shrink check passes only when half the capacity is a supported capacity that the entries fit. */
  lemma HalvingFits<V>(m: HashMap<V>, m': HashMap<V>)
    requires SupportedConfig(m.loadFactor, m.capacity) && Underloaded(m)
    requires Count(m') == Count(m) && m'.capacity == m.capacity / 2 && m'.loadFactor == m.loadFactor
    ensures !Overloaded(m') && SupportedConfig(m'.loadFactor, m'.capacity)
  {
    assert m.capacity % 2 == 0;
    assert (m'.capacity as real) == (m.capacity as real) / 2.0;
  }

  /** The growth check of a map with `n` entries at the capacity and load factor of `m`. */
  lemma OverloadedAt<V>(m: HashMap<V>, m': HashMap<V>, n: nat)
    requires Count(m') == n && m'.capacity == m.capacity && m'.loadFactor == m.loadFactor
    ensures Overloaded(m') <==> (n as real) > (m.capacity as real) * m.loadFactor
  {
  }

  /** The shrink check of a map with `n` entries at the capacity and load factor of `m`. */
  lemma UnderloadedAt<V>(m: HashMap<V>, m': HashMap<V>, n: nat)
    requires Count(m') == n && m'.capacity == m.capacity && m'.loadFactor == m.loadFactor
    ensures Underloaded(m') <==>
              (n as real) <= ((m.capacity as real) / 2.0) * m.loadFactor && m.capacity >= 2 * MinCapacity
  {
  }

  /** At most `n` entries, where `n` fits `capacity * loadFactor`, is not overloaded. */
  lemma WithinThreshold<V>(m: HashMap<V>, n: nat, capacity: nat, loadFactor: real)
    requires Count(m) <= n && m.capacity == capacity && m.loadFactor == loadFactor
    requires (n as real) <= (capacity as real) * loadFactor
    ensures !Overloaded(m)
  {
  }

  /** A map of null slots is empty, sound for a positive capacity, and valid for a supported configuration. */
  lemma NullSlotsValid<V>(loadFactor: real, capacity: nat)
    ensures Count(HashMap<V>.HashMap(loadFactor, capacity, NullSlots(capacity))) == 0
    ensures Contents(HashMap<V>.HashMap(loadFactor, capacity, NullSlots(capacity))) == map[]
    ensures capacity >= 1 ==> Sound(HashMap<V>.HashMap(loadFactor, capacity, NullSlots(capacity)))
    ensures SupportedConfig(loadFactor, capacity) ==> Valid(HashMap<V>.HashMap(loadFactor, capacity, NullSlots(capacity)))
  {
    var m := HashMap<V>.HashMap(loadFactor, capacity, NullSlots(capacity));
    assert forall i :: 0 <= i < |m.buckets| ==> Nodes(m.buckets[i]) == [];
    if SupportedConfig(loadFactor, capacity) {
      EmptyNotOverloaded(m);
    }
  }

  /** `constructor(loadFactor, capacity)`: every slot null. */
  function New<V>(loadFactor: real, capacity: nat): (m: HashMap<V>)
    requires SupportedConfig(loadFactor, capacity)
    ensures Valid(m) && Contents(m) == map[] && Count(m) == 0
    ensures m.loadFactor == loadFactor && m.capacity == capacity
  {
    NullSlotsValid<V>(loadFactor, capacity);
    HashMap(loadFactor, capacity, NullSlots(capacity))
  }

  /**
   The chain part of `set`: scan the chain for an entry holding `key` and overwrite its value in
   place, or else append a new entry. The flag says whether an entry was appended.
   */
  function SetInChain<V>(chain: LinkedList<Entry<V>>, key: Key, value: V): (r: (LinkedList<Entry<V>>, bool))
    requires chain.Valid() && UniqueKeys(chain.nodes)
    ensures r.0.Valid() && r.0.size >= 1 && UniqueKeys(r.0.nodes)
    ensures r.1 <==> Lookup(chain.nodes, key).None?
    ensures r.0.size == chain.size + if r.1 then 1 else 0
    ensures forall p :: 0 <= p < r.0.size ==>
              r.0.nodes[p].key == key || (p < chain.size && r.0.nodes[p].key == chain.nodes[p].key)
    ensures forall k :: Lookup(r.0.nodes, k) == if k == key then Some(value) else Lookup(chain.nodes, k)
  {
    match IndexOf(chain.nodes, key)
    case Some(j) =>
      UpdateFound(chain.nodes, key, value, j);
      (chain.(nodes := chain.nodes[j := Entry(key, value)]), false)
    case None =>
      AppendFresh(chain.nodes, key, value);
      (Append(chain, Entry(key, value)).0, true)
  }

  /** The slot's chain, with a fresh empty list standing for a null slot. */
  function ChainOf<V>(b: Bucket<V>): (chain: LinkedList<Entry<V>>)
    ensures chain.nodes == Nodes(b)
  {
    if b.None? then Empty() else b.value
  }

  /**
   The insertion part of `set`, before the growth check: hash the key, create the slot's chain
   if it is null, then overwrite or append within it. The second component says whether an entry
   was appended. The bounds check before the slot access can never fail, because `Hash` is below
   the capacity, which is the slot count.
   */
  function Put<V>(m: HashMap<V>, key: Key, value: V): (r: (HashMap<V>, bool))
    requires Shaped(m)
    ensures r.0.loadFactor == m.loadFactor && r.0.capacity == m.capacity && Shaped(r.0)
  {
    var h := Hash(key, m.capacity);
    var (chain, appended) := SetInChain(ChainOf(m.buckets[h]), key, value);
    (m.(buckets := m.buckets[h := Some(chain)]), appended)
  }

  /** The reinsertion loop of a resize: `set` each listed entry, in order, into `m`. */
  function Reinsert<V>(es: seq<Entry<V>>, m: HashMap<V>): (r: HashMap<V>)
    requires Shaped(m)
    ensures r.loadFactor == m.loadFactor && r.capacity == m.capacity && Shaped(r)
    decreases |es|
  {
    if |es| == 0 then m else Reinsert(es[1..], Put(m, es[0].key, es[0].value).0)
  }

  /** A resize: snapshot the entries, allocate `capacity` null slots, and reinsert the snapshot. */
  function Resize<V>(m: HashMap<V>, capacity: nat): (r: HashMap<V>)
    requires capacity >= 1
    ensures r.loadFactor == m.loadFactor && r.capacity == capacity && Shaped(r)
  {
    Reinsert(Flatten(m.buckets), HashMap(m.loadFactor, capacity, NullSlots(capacity)))
  }

  /** `set(key, value)`: insert or overwrite, then double and rehash if a new entry overloads the map. */
  function Set<V>(m: HashMap<V>, key: Key, value: V): HashMap<V>
    requires Shaped(m)
  {
    var (inserted, appended) := Put(m, key, value);
    if appended && Overloaded(inserted) then Resize(inserted, 2 * m.capacity) else inserted
  }

  /**
   Unlinking the node at position `j` of a chain, whether it is the head or a later node, and
   decrementing the counter.
   */
  function UnlinkAt<V>(chain: LinkedList<Entry<V>>, j: nat): (r: LinkedList<Entry<V>>)
    requires chain.Valid() && j < chain.size
    ensures r.Valid() && r.size == chain.size - 1
    ensures forall p :: 0 <= p < j ==> r.nodes[p] == chain.nodes[p]
    ensures forall p :: j <= p < r.size ==> r.nodes[p] == chain.nodes[p + 1]
  {
    LinkedList(chain.nodes[..j] + chain.nodes[j + 1..], chain.size - 1)
  }

  /** The slot value after unlinking: `null` once the chain's counter reaches zero. */
  function SlotAfterUnlink<V>(chain: LinkedList<Entry<V>>): (b: Bucket<V>)
    requires chain.Valid()
    ensures Nodes(b) == chain.nodes
    ensures b.Some? <==> chain.size >= 1
    ensures b.Some? ==> b.value == chain
  {
    if chain.size == 0 then None else Some(chain)
  }

  /**
   The unlinking part of `remove`, before the shrink check: nothing when the key's slot is null
   or its chain lacks the key; otherwise the map with that entry unlinked and an emptied slot
   reset to null.
   */
  function Unlink<V>(m: HashMap<V>, key: Key): (r: Option<HashMap<V>>)
    requires Shaped(m)
    ensures r.Some? ==> r.value.loadFactor == m.loadFactor && r.value.capacity == m.capacity
  {
    var h := Hash(key, m.capacity);
    match m.buckets[h]
    case None => None
    case Some(chain) =>
      match IndexOf(chain.nodes, key)
      case None => None
      case Some(j) => Some(m.(buckets := m.buckets[h := SlotAfterUnlink(UnlinkAt(chain, j))]))
  }

  /**
   `remove(key)`: unlink the entry holding `key`, then halve the capacity and rehash if the map
   is underloaded. Returns whether an entry was removed.
   */
  function Remove<V>(m: HashMap<V>, key: Key): (HashMap<V>, bool)
    requires Shaped(m)
  {
    match Unlink(m, key)
    case None => (m, false)
    case Some(removed) =>
      if Underloaded(removed) then (Resize(removed, m.capacity / 2), true) else (removed, true)
  }

  /** Under placement, the slot a key hashes to holds what the abstract map says about the key. */
  lemma ContentsView<V>(m: HashMap<V>, key: Key)
    requires Sound(m)
    ensures Hash(key, m.capacity) < |m.buckets|
    ensures Lookup(Nodes(m.buckets[Hash(key, m.capacity)]), key) ==
              if key in Contents(m) then Some(Contents(m)[key]) else None
  {
    BucketView(m.buckets, m.capacity, key);
    LookupIsToMap(Flatten(m.buckets), key);
  }

  /** `get(key)`: the value stored under `key`, or null. */
  function Get<V>(m: HashMap<V>, key: Key): (r: Option<V>)
    requires Sound(m)
    ensures r == if key in Contents(m) then Some(Contents(m)[key]) else None
  {
    ContentsView(m, key);
    match m.buckets[Hash(key, m.capacity)]
    case None => None
    case Some(chain) => Lookup(chain.nodes, key)
  }

  /** `has(key)`: whether an entry holds `key`. */
  function Has<V>(m: HashMap<V>, key: Key): (r: bool)
    requires Sound(m)
    ensures r <==> key in Contents(m)
  {
    ContentsView(m, key);
    match m.buckets[Hash(key, m.capacity)]
    case None => false
    case Some(chain) => IndexOf(chain.nodes, key).Some?
  }

  /** `clear()`: a fresh array of null slots at the same capacity. */
  function Clear<V>(m: HashMap<V>): (r: HashMap<V>)
    ensures Contents(r) == map[] && Count(r) == 0
    ensures r.capacity == m.capacity && r.loadFactor == m.loadFactor
    ensures Valid(m) ==> Valid(r)
  {
    NullSlotsValid<V>(m.loadFactor, m.capacity);
    HashMap(m.loadFactor, m.capacity, NullSlots(m.capacity))
  }

  /** The abstract map of a flat view is what scanning the view finds. */
  ghost predicate Denotes<V>(es: seq<Entry<V>>, contents: map<Key, V>) {
    forall k :: Lookup(es, k) == if k in contents then Some(contents[k]) else None
  }

  lemma DenotesToMap<V>(es: seq<Entry<V>>)
    ensures Denotes(es, ToMap(es))
  {
    forall k ensures Lookup(es, k) == if k in ToMap(es) then Some(ToMap(es)[k]) else None {
      LookupIsToMap(es, k);
    }
  }

  /** The insertion part of `set`, slot by slot: placement is kept and the scan finds `value` for `key` and the old result elsewhere. */
  lemma PutLookup<V>(m: HashMap<V>, key: Key, value: V)
    requires Sound(m)
    ensures Placed(Put(m, key, value).0.buckets, m.capacity)
    ensures Put(m, key, value).1 <==> Lookup(Flatten(m.buckets), key).None?
    ensures Count(Put(m, key, value).0) == Count(m) + if Put(m, key, value).1 then 1 else 0
    ensures forall k :: Lookup(Flatten(Put(m, key, value).0.buckets), k) ==
              if k == key then Some(value) else Lookup(Flatten(m.buckets), k)
  {
    var h := Hash(key, m.capacity);
    var before := ChainOf(m.buckets[h]);
    var (chain, appended) := SetInChain(before, key, value);
    var b: Bucket<V> := Some(chain);
    forall p | 0 <= p < |Nodes(b)| ensures Hash(Nodes(b)[p].key, m.capacity) == h {
      if chain.nodes[p].key != key {
        assert Nodes(m.buckets[h])[p] == before.nodes[p];
      }
    }
    ReplaceSlot(m.buckets, m.capacity, h, b);
    BucketView(m.buckets, m.capacity, key);
    forall k ensures Lookup(Flatten(m.buckets[h := b]), k) ==
                       if k == key then Some(value) else Lookup(Flatten(m.buckets), k)
    {
      BucketView(m.buckets, m.capacity, k);
    }
  }

  /** The insertion part of `set` stores exactly `key -> value` on top of the old contents and appends exactly when `key` was absent. */
  lemma PutSpec<V>(m: HashMap<V>, key: Key, value: V)
    requires Sound(m)
    ensures Sound(Put(m, key, value).0)
    ensures Put(m, key, value).1 <==> key !in Contents(m)
    ensures Contents(Put(m, key, value).0) == Contents(m)[key := value]
    ensures Count(Put(m, key, value).0) == Count(m) + if Put(m, key, value).1 then 1 else 0
  {
    var r := Put(m, key, value).0;
    PutLookup(m, key, value);
    LookupIsToMap(Flatten(m.buckets), key);
    assert Denotes(Flatten(r.buckets), Contents(m)[key := value]) by {
      DenotesToMap(Flatten(m.buckets));
    }
    ToMapFromLookup(Flatten(r.buckets), Contents(m)[key := value]);
  }

  /**
   Reinserting entries with distinct keys, none already present, adds exactly those entries:
   each reinsertion appends, and placement is recomputed for the target capacity.
   */
  lemma {:induction false} ReinsertSpec<V>(es: seq<Entry<V>>, m: HashMap<V>)
    requires Sound(m) && UniqueKeys(es)
    requires forall p :: 0 <= p < |es| ==> Lookup(Flatten(m.buckets), es[p].key).None?
    ensures Sound(Reinsert(es, m))
    ensures Count(Reinsert(es, m)) == Count(m) + |es|
    ensures forall k :: Lookup(Flatten(Reinsert(es, m).buckets), k) ==
              if Lookup(es, k).Some? then Lookup(es, k) else Lookup(Flatten(m.buckets), k)
    decreases |es|
  {
    if |es| > 0 {
      var e, rest := es[0], es[1..];
      var m1 := Put(m, e.key, e.value).0;
      PutLookup(m, e.key, e.value);
      UniqueTail(es);
      forall p | 0 <= p < |rest| ensures Lookup(Flatten(m1.buckets), rest[p].key).None? {
        assert rest[p] == es[p + 1];
      }
      ReinsertSpec(rest, m1);
      forall k ensures Lookup(es, k) == if e.key == k then Some(e.value) else Lookup(rest, k) {
        LookupCons(es, k);
      }
    }
  }

  /** A resize keeps every entry and places each in its slot under the new capacity. */
  lemma ResizeSpec<V>(m: HashMap<V>, capacity: nat)
    requires capacity >= 1 && Sound(m)
    ensures Sound(Resize(m, capacity))
    ensures Count(Resize(m, capacity)) == Count(m)
    ensures Contents(Resize(m, capacity)) == Contents(m)
  {
    var es := Flatten(m.buckets);
    var empty := HashMap(m.loadFactor, capacity, NullSlots(capacity));
    NullSlotsValid<V>(m.loadFactor, capacity);
    KeysUniqueAcrossSlots(m.buckets, m.capacity);
    ReinsertSpec(es, empty);
    var r := Resize(m, capacity);
    assert Denotes(Flatten(r.buckets), Contents(m)) by {
      DenotesToMap(es);
    }
    ToMapFromLookup(Flatten(r.buckets), Contents(m));
  }

  /** Reinserting the first `i` of a list of entries with distinct keys into null slots yields exactly `i` entries. */
  lemma RehashCount<V>(es: seq<Entry<V>>, loadFactor: real, capacity: nat, i: nat)
    requires capacity >= 1 && UniqueKeys(es) && i <= |es|
    ensures Count(Reinsert(es[..i], HashMap(loadFactor, capacity, NullSlots(capacity)))) == i
  {
    NullSlotsValid<V>(loadFactor, capacity);
    UniquePrefix(es, i);
    ReinsertSpec(es[..i], HashMap(loadFactor, capacity, NullSlots(capacity)));
  }

  /** When the whole list fits the target capacity, no prefix of the reinsertion is overloaded. */
  lemma RehashStepWithin<V>(es: seq<Entry<V>>, loadFactor: real, capacity: nat, i: nat)
    requires capacity >= 1 && UniqueKeys(es) && i <= |es|
    requires (|es| as real) <= (capacity as real) * loadFactor
    ensures !Overloaded(Reinsert(es[..i], HashMap(loadFactor, capacity, NullSlots(capacity))))
  {
    var partial := Reinsert(es[..i], HashMap(loadFactor, capacity, NullSlots(capacity)));
    assert Count(partial) == i by {
      RehashCount(es, loadFactor, capacity, i);
    }
    WithinThreshold(partial, |es|, capacity, loadFactor);
  }

  /** No prefix of the reinsertion of `es` into `capacity` null slots trips the growth check. */
  ghost predicate RehashStaysWithin<V>(es: seq<Entry<V>>, loadFactor: real, capacity: nat)
    requires capacity >= 1
  {
    forall i :: 0 <= i <= |es| ==>
      !Overloaded(Reinsert(es[..i], HashMap(loadFactor, capacity, NullSlots(capacity))))
  }

  /**
   The `set` calls of a resize's reinsertion loop run their own growth check; when the snapshot
   fits the target capacity it never fires, so a resize never nests another. The snapshot of a
   sound map has distinct keys (`KeysUniqueAcrossSlots`).
   */
  lemma RehashNeverRegrows<V>(es: seq<Entry<V>>, loadFactor: real, capacity: nat)
    requires capacity >= 1 && UniqueKeys(es)
    requires (|es| as real) <= (capacity as real) * loadFactor
    ensures RehashStaysWithin(es, loadFactor, capacity)
  {
    forall i | 0 <= i <= |es|
      ensures !Overloaded(Reinsert(es[..i], HashMap(loadFactor, capacity, NullSlots(capacity))))
    {
      RehashStepWithin(es, loadFactor, capacity, i);
    }
  }

  /**
   `set(key, value)` keeps placement and stores `key -> value`. Overwriting leaves the entry count
   and the capacity alone; a new key adds one entry and doubles the capacity exactly when the
   count then exceeds `capacity * loadFactor`.
   */
  lemma SetSound<V>(m: HashMap<V>, key: Key, value: V)
    requires Sound(m)
    ensures Sound(Set(m, key, value))
    ensures Contents(Set(m, key, value)) == Contents(m)[key := value]
    ensures Set(m, key, value).loadFactor == m.loadFactor
    ensures Count(Set(m, key, value)) == Count(m) + if key in Contents(m) then 0 else 1
    ensures Set(m, key, value).capacity ==
              if key !in Contents(m) && ((Count(m) + 1) as real) > (m.capacity as real) * m.loadFactor
              then 2 * m.capacity else m.capacity
  {
    var (inserted, appended) := Put(m, key, value);
    PutSpec(m, key, value);
    OverloadedAt(m, inserted, Count(inserted));
    if appended && Overloaded(inserted) {
      ResizeSpec(inserted, 2 * m.capacity);
    }
  }

  /** `set(key, value)` keeps the full invariant: the growth check restores the load bound. */
  lemma SetSpec<V>(m: HashMap<V>, key: Key, value: V)
    requires Valid(m)
    ensures Valid(Set(m, key, value))
    ensures Contents(Set(m, key, value)) == Contents(m)[key := value]
    ensures Set(m, key, value).loadFactor == m.loadFactor
    ensures Count(Set(m, key, value)) == Count(m) + if key in Contents(m) then 0 else 1
    ensures Set(m, key, value).capacity ==
              if key !in Contents(m) && ((Count(m) + 1) as real) > (m.capacity as real) * m.loadFactor
              then 2 * m.capacity else m.capacity
  {
    var (inserted, appended) := Put(m, key, value);
    var r := Set(m, key, value);
    SetSound(m, key, value);
    assert (appended <==> key !in Contents(m)) && Count(inserted) == Count(r) by {
      PutSpec(m, key, value);
    }
    if !appended {
      assert r == inserted;
      FewerNotOverloaded(m, r);
    } else {
      OverloadedAt(m, inserted, Count(m) + 1);
      if Overloaded(inserted) {
        DoublingMakesRoom(m, r);
      } else {
        assert r == inserted;
      }
    }
  }

  /**
   Unlinking the entry for `key` from a chain: the slot left behind is null or a well-formed
   chain one entry shorter, and it yields the same as before for every key but `key`, which it
   no longer yields.
   */
  lemma UnlinkAtSpec<V>(chain: LinkedList<Entry<V>>, key: Key, j: nat)
    requires chain.Valid() && UniqueKeys(chain.nodes) && IndexOf(chain.nodes, key) == Some(j)
    ensures var b := SlotAfterUnlink(UnlinkAt(chain, j));
            && (b.Some? ==> b.value.Valid() && b.value.size >= 1 && UniqueKeys(b.value.nodes))
            && |Nodes(b)| == |chain.nodes| - 1
            && (forall k :: Lookup(Nodes(b), k) == if k == key then None else Lookup(chain.nodes, k))
  {
    DeleteFound(chain.nodes, key, j);
  }

  /** Unlinking keeps a chain's keys hashing to the slot they hashed to. */
  lemma UnlinkAtPlaced<V>(chain: LinkedList<Entry<V>>, j: nat, capacity: nat, h: nat)
    requires capacity >= 1 && chain.Valid() && j < chain.size
    requires forall q :: 0 <= q < |chain.nodes| ==> Hash(chain.nodes[q].key, capacity) == h
    ensures forall p :: 0 <= p < |Nodes(SlotAfterUnlink(UnlinkAt(chain, j)))| ==>
              Hash(Nodes(SlotAfterUnlink(UnlinkAt(chain, j)))[p].key, capacity) == h
  {
    var unlinked := UnlinkAt(chain, j);
    forall p | 0 <= p < |unlinked.nodes| ensures Hash(unlinked.nodes[p].key, capacity) == h {
      if p >= j {
        assert unlinked.nodes[p] == chain.nodes[p + 1];
      }
    }
  }

  /** The unlinking part of `remove`, slot by slot: placement and chain shape are kept and the scan no longer finds `key`. */
  lemma UnlinkLookup<V>(m: HashMap<V>, key: Key, chain: LinkedList<Entry<V>>, j: nat, b: Bucket<V>)
    requires Sound(m)
    requires m.buckets[Hash(key, m.capacity)] == Some(chain) && IndexOf(chain.nodes, key) == Some(j)
    requires b == SlotAfterUnlink(UnlinkAt(chain, j))
    ensures Placed(m.buckets[Hash(key, m.capacity) := b], m.capacity)
    ensures WellFormedChains(m.buckets[Hash(key, m.capacity) := b])
    ensures |Flatten(m.buckets[Hash(key, m.capacity) := b])| == Count(m) - 1
    ensures forall k :: Lookup(Flatten(m.buckets[Hash(key, m.capacity) := b]), k) ==
              if k == key then None else Lookup(Flatten(m.buckets), k)
  {
    var h := Hash(key, m.capacity);
    assert forall q :: 0 <= q < |chain.nodes| ==> Hash(chain.nodes[q].key, m.capacity) == h by {
      assert Nodes(m.buckets[h]) == chain.nodes;
    }
    UnlinkAtSpec(chain, key, j);
    UnlinkAtPlaced(chain, j, m.capacity, h);
    ReplaceSlotWellFormed(m.buckets, h, b);
    ReplaceSlot(m.buckets, m.capacity, h, b);
    forall k ensures Lookup(Flatten(m.buckets[h := b]), k) ==
                       if k == key then None else Lookup(Flatten(m.buckets), k)
    {
      BucketView(m.buckets, m.capacity, k);
    }
  }

  /** The unlinking part of `remove` finds the key exactly when it is stored, and then removes exactly that key and one entry. */
  lemma UnlinkSpec<V>(m: HashMap<V>, key: Key)
    requires Sound(m)
    ensures Unlink(m, key).Some? <==> key in Contents(m)
    ensures Unlink(m, key).Some? ==>
              && Sound(Unlink(m, key).value)
              && Contents(Unlink(m, key).value) == Contents(m) - {key}
              && Count(Unlink(m, key).value) == Count(m) - 1
  {
    var h := Hash(key, m.capacity);
    ContentsView(m, key);
    match m.buckets[h]
    case None =>
    case Some(chain) =>
      match IndexOf(chain.nodes, key)
      case None =>
      case Some(j) =>
        var b := SlotAfterUnlink(UnlinkAt(chain, j));
        var r := m.(buckets := m.buckets[h := b]);
        assert Unlink(m, key) == Some(r);
        UnlinkLookup(m, key, chain, j, b);
        assert Sound(r) && Count(r) == Count(m) - 1;
        var rest := Contents(m) - {key};
        forall k ensures Lookup(Flatten(r.buckets), k) == if k in rest then Some(rest[k]) else None {
          LookupIsToMap(Flatten(m.buckets), k);
        }
        ToMapFromLookup(Flatten(r.buckets), rest);
  }

  /**
   `remove(key)` keeps the invariant and reports whether `key` was stored. When it was, exactly
   that key leaves the contents, the count drops by one, and the capacity halves exactly when
   the remaining entries fit half of it and half of it is still at least 16. When it was not,
   nothing changes.
   */
  lemma RemoveSpec<V>(m: HashMap<V>, key: Key)
    requires Valid(m)
    ensures Valid(Remove(m, key).0)
    ensures Remove(m, key).1 <==> key in Contents(m)
    ensures Contents(Remove(m, key).0) == Contents(m) - {key}
    ensures Remove(m, key).0.loadFactor == m.loadFactor
    ensures !Remove(m, key).1 ==> Remove(m, key).0 == m
    ensures Remove(m, key).1 ==> Count(Remove(m, key).0) == Count(m) - 1
    ensures Remove(m, key).0.capacity ==
              if Remove(m, key).1 && ((Count(m) - 1) as real) <= ((m.capacity as real) / 2.0) * m.loadFactor
                 && m.capacity >= 2 * MinCapacity
              then m.capacity / 2 else m.capacity
  {
    UnlinkSpec(m, key);
    var r := Remove(m, key).0;
    match Unlink(m, key)
    case None =>
      assert Contents(m) - {key} == Contents(m);
    case Some(removed) =>
      UnderloadedAt(m, removed, Count(m) - 1);
      if Underloaded(removed) {
        ResizeSpec(removed, m.capacity / 2);
        HalvingFits(removed, r);
      } else {
        FewerNotOverloaded(m, removed);
      }
  }

  /**
   A sound map's entries can be rehashed into the null slots of `target`'s capacity without the
   growth check firing, when `target` (the same entries at that capacity) is not overloaded.
   */
  lemma SnapshotStaysWithin<V>(src: HashMap<V>, target: HashMap<V>)
    requires Sound(src) && target.buckets == src.buckets
    requires target.capacity >= 1 && !Overloaded(target)
    ensures RehashStaysWithin(Flatten(src.buckets), target.loadFactor, target.capacity)
  {
    KeysUniqueAcrossSlots(src.buckets, src.capacity);
    RehashNeverRegrows(Flatten(src.buckets), target.loadFactor, target.capacity);
  }

  /**
   The resize `set` performs when a new key overloads a valid map never nests another: the
   snapshot, one entry more than the old threshold allowed, fits the doubled capacity.
   */
  lemma SetResizeStaysWithin<V>(m: HashMap<V>, key: Key, value: V)
    requires Valid(m)
    ensures Put(m, key, value).1 && Overloaded(Put(m, key, value).0) ==>
              RehashStaysWithin(Flatten(Put(m, key, value).0.buckets), m.loadFactor, 2 * m.capacity)
  {
    var (inserted, appended) := Put(m, key, value);
    if appended && Overloaded(inserted) {
      assert Sound(inserted) && Count(inserted) == Count(m) + 1 by {
        PutSpec(m, key, value);
      }
      var grown := HashMap(m.loadFactor, 2 * m.capacity, inserted.buckets);
      DoublingMakesRoom(m, grown);
      SnapshotStaysWithin(inserted, grown);
    }
  }

  /**
   The resize `remove` performs when the remaining entries fit half the capacity never triggers
   the growth check of its nested `set` calls.
   */
  lemma RemoveResizeStaysWithin<V>(m: HashMap<V>, key: Key)
    requires Valid(m)
    ensures Unlink(m, key).Some? && Underloaded(Unlink(m, key).value) ==>
              m.capacity / 2 >= 1 &&
              RehashStaysWithin(Flatten(Unlink(m, key).value.buckets), m.loadFactor, m.capacity / 2)
  {
    if Unlink(m, key).Some? && Underloaded(Unlink(m, key).value) {
      var removed := Unlink(m, key).value;
      assert Sound(removed) by {
        UnlinkSpec(m, key);
      }
      var halved := HashMap(m.loadFactor, m.capacity / 2, removed.buckets);
      HalvingFits(removed, halved);
      assert m.capacity / 2 >= 1;
      SnapshotStaysWithin(removed, halved);
    }
  }

  /** When `key` already maps to `value`, the insertion part of `set` changes nothing and appends nothing. */
  lemma PutExisting<V>(m: HashMap<V>, key: Key, value: V)
    requires Sound(m) && key in Contents(m) && Contents(m)[key] == value
    ensures Put(m, key, value) == (m, false)
  {
    ContentsView(m, key);
    var h := Hash(key, m.capacity);
    var chain := m.buckets[h].value;
    var j := IndexOf(chain.nodes, key).value;
    assert chain.nodes[j := Entry(key, value)] == chain.nodes;
    assert m.buckets[h := Some(chain)] == m.buckets;
  }

  /** After `set(key, value)`, `get` returns `value` and `has` is true. */
  lemma SetThenGet<V>(m: HashMap<V>, key: Key, value: V)
    requires Valid(m)
    ensures Valid(Set(m, key, value))
    ensures Get(Set(m, key, value), key) == Some(value) && Has(Set(m, key, value), key)
  {
    var r := Set(m, key, value);
    assert Valid(r) && Contents(r) == Contents(m)[key := value] by {
      SetSpec(m, key, value);
    }
  }

  /** `set` leaves every other key's `get` and `has` alone. */
  lemma SetKeepsOthers<V>(m: HashMap<V>, key: Key, value: V, other: Key)
    requires Valid(m) && other != key
    ensures Valid(Set(m, key, value))
    ensures Get(Set(m, key, value), other) == Get(m, other)
    ensures Has(Set(m, key, value), other) == Has(m, other)
  {
    var r := Set(m, key, value);
    assert Valid(r) && Contents(r) == Contents(m)[key := value] by {
      SetSpec(m, key, value);
    }
  }

  /**
   The same for the string keys the class is called with: `set(s, value)` leaves `get(t)` and
   `has(t)` alone for every other string `t`, as long as both consist of characters below 2^16.
   */
  lemma SetKeepsOtherStrings<V>(m: HashMap<V>, s: string, value: V, t: string)
    requires Valid(m) && s != t
    requires forall i :: 0 <= i < |s| ==> (s[i] as int) < 0x1_0000
    requires forall i :: 0 <= i < |t| ==> (t[i] as int) < 0x1_0000
    ensures Valid(Set(m, CodeUnits(s), value))
    ensures Get(Set(m, CodeUnits(s), value), CodeUnits(t)) == Get(m, CodeUnits(t))
    ensures Has(Set(m, CodeUnits(s), value), CodeUnits(t)) == Has(m, CodeUnits(t))
  {
    if CodeUnits(s) == CodeUnits(t) {
      CodeUnitsInjective(s, t);
    }
    SetKeepsOthers(m, CodeUnits(s), value, CodeUnits(t));
  }

  /** Setting a key to the value it already has changes nothing at all. */
  lemma SetIdempotent<V>(m: HashMap<V>, key: Key, value: V)
    requires Valid(m)
    ensures Valid(Set(m, key, value))
    ensures Set(Set(m, key, value), key, value) == Set(m, key, value)
  {
    var r := Set(m, key, value);
    assert Valid(r) && Contents(r) == Contents(m)[key := value] by {
      SetSpec(m, key, value);
    }
    PutExisting(r, key, value);
  }

  /** After `remove(key)`, `has` is false and `get` finds nothing; other keys are untouched. */
  lemma RemoveThenGet<V>(m: HashMap<V>, key: Key, other: Key)
    requires Valid(m) && other != key
    ensures Valid(Remove(m, key).0)
    ensures !Has(Remove(m, key).0, key) && Get(Remove(m, key).0, key) == None
    ensures Get(Remove(m, key).0, other) == Get(m, other)
  {
    var r := Remove(m, key).0;
    assert Valid(r) && Contents(r) == Contents(m) - {key} by {
      RemoveSpec(m, key);
    }
    assert (other in Contents(r) <==> other in Contents(m)) && key !in Contents(r);
    if other in Contents(m) {
      assert Contents(r)[other] == Contents(m)[other];
    }
  }

  /** A second `remove` of the same key finds nothing. */
  lemma RemoveTwice<V>(m: HashMap<V>, key: Key)
    requires Valid(m) && key in Contents(m)
    ensures Valid(Remove(m, key).0)
    ensures Remove(m, key).1 && !Remove(Remove(m, key).0, key).1
  {
    var (r, removed) := Remove(m, key);
    assert Valid(r) && removed && key !in Contents(r) by {
      RemoveSpec(m, key);
    }
    assert !Remove(r, key).1 by {
      RemoveSpec(r, key);
    }
  }

  /** The flat view lists distinct keys, one per stored pair, each with its stored value. */
  lemma FlatViewEntries<V>(m: HashMap<V>)
    requires Sound(m)
    ensures UniqueKeys(Flatten(m.buckets))
    ensures |Contents(m)| == Count(m)
    ensures forall p :: 0 <= p < Count(m) ==>
              Flatten(m.buckets)[p].key in Contents(m) &&
              Contents(m)[Flatten(m.buckets)[p].key] == Flatten(m.buckets)[p].value
  {
    var es := Flatten(m.buckets);
    KeysUniqueAcrossSlots(m.buckets, m.capacity);
    ToMapSize(es);
    forall p | 0 <= p < |es| ensures es[p].key in Contents(m) && Contents(m)[es[p].key] == es[p].value {
      IndexOfFirst(es, es[p].key, p);
      LookupIsToMap(es, es[p].key);
    }
  }

  /** Every stored key appears in the flat view. */
  lemma FlatViewPosition<V>(m: HashMap<V>, key: Key) returns (p: nat)
    requires key in Contents(m)
    ensures p < Count(m) && Flatten(m.buckets)[p].key == key
  {
    p := ToMapKeyPosition(Flatten(m.buckets), key);
  }

  /** `length()`: adds up the counters of the non-null slots. */
  method Length<V>(m: HashMap<V>) returns (n: nat)
    requires Sound(m)
    ensures n == Count(m) && n == |Contents(m)|
  {
    n := 0;
    var i := 0;
    while i < m.capacity
      invariant 0 <= i <= m.capacity
      invariant n == SizeSum(m.buckets[..i])
    {
      assert m.buckets[..i + 1][..i] == m.buckets[..i];
      if m.buckets[i] != None {
        n := n + m.buckets[i].value.size;
      }
      i := i + 1;
    }
    assert m.buckets[..m.capacity] == m.buckets;
    SizeSumIsCount(m.buckets);
    FlatViewEntries(m);
  }

  /** The inner loop of the traversals: walk one chain from its head, pushing each entry's projection. */
  method WalkChain<V, R>(acc: seq<R>, nodes: seq<Entry<V>>, project: Entry<V> -> R) returns (out: seq<R>)
    ensures |out| == |acc| + |nodes|
    ensures forall p :: 0 <= p < |acc| ==> out[p] == acc[p]
    ensures forall p :: 0 <= p < |nodes| ==> out[|acc| + p] == project(nodes[p])
  {
    out := acc;
    var j := 0;
    while j < |nodes|
      invariant 0 <= j <= |nodes|
      invariant |out| == |acc| + j
      invariant forall p :: 0 <= p < |acc| ==> out[p] == acc[p]
      invariant forall p :: 0 <= p < j ==> out[|acc| + p] == project(nodes[p])
    {
      out := out + [project(nodes[j])];
      j := j + 1;
    }
  }

  /** The traversal `keys`, `values` and `entries` share: every slot in order, each chain from its head. */
  method Traverse<V, R>(m: HashMap<V>, project: Entry<V> -> R) returns (out: seq<R>)
    requires m.capacity == |m.buckets|
    ensures |out| == Count(m)
    ensures forall p :: 0 <= p < |out| ==> out[p] == project(Flatten(m.buckets)[p])
  {
    out := [];
    var i := 0;
    while i < m.capacity
      invariant 0 <= i <= m.capacity
      invariant |out| == |Flatten(m.buckets[..i])|
      invariant forall p :: 0 <= p < |out| ==> out[p] == project(Flatten(m.buckets[..i])[p])
    {
      var done: seq<Entry<V>> := Flatten(m.buckets[..i]);
      var nodes := Nodes(m.buckets[i]);
      FlattenStep(m.buckets, i);
      var prev := out;
      out := WalkChain(prev, nodes, project);
      forall p | 0 <= p < |out| ensures out[p] == project(Flatten(m.buckets[..i + 1])[p]) {
        if p < |prev| {
          assert Flatten(m.buckets[..i + 1])[p] == done[p];
        } else {
          assert Flatten(m.buckets[..i + 1])[p] == nodes[p - |prev|];
          assert out[|prev| + (p - |prev|)] == project(nodes[p - |prev|]);
        }
      }
      i := i + 1;
    }
    assert m.buckets[..m.capacity] == m.buckets;
  }

  /** `keys()`: every stored key exactly once, in slot order then chain order. */
  method Keys<V>(m: HashMap<V>) returns (ks: seq<Key>)
    requires Sound(m)
    ensures |ks| == Count(m) == |Contents(m)|
    ensures forall p :: 0 <= p < |ks| ==> ks[p] == Flatten(m.buckets)[p].key
    ensures forall k :: k in ks <==> k in Contents(m)
    ensures forall p, q :: 0 <= p < q < |ks| ==> ks[p] != ks[q]
  {
    ks := Traverse(m, (e: Entry<V>) => e.key);
    FlatViewEntries(m);
    forall k: Key | k in Contents(m) ensures k in ks {
      var p := FlatViewPosition(m, k);
      assert ks[p] == k;
    }
  }

  /** `values()`: the stored values, position by position aligned with `keys()`. */
  method Values<V>(m: HashMap<V>) returns (vs: seq<V>)
    requires Sound(m)
    ensures |vs| == Count(m) == |Contents(m)|
    ensures forall p :: 0 <= p < |vs| ==> vs[p] == Flatten(m.buckets)[p].value
    ensures forall p :: 0 <= p < |vs| ==>
              Flatten(m.buckets)[p].key in Contents(m) && Contents(m)[Flatten(m.buckets)[p].key] == vs[p]
  {
    vs := Traverse(m, (e: Entry<V>) => e.value);
    FlatViewEntries(m);
  }

  /** `entries()`: each stored pair exactly once, ordered by the slot its key hashes to. */
  method Entries<V>(m: HashMap<V>) returns (es: seq<(Key, V)>)
    requires Sound(m)
    ensures |es| == Count(m) == |Contents(m)|
    ensures forall p :: 0 <= p < |es| ==> es[p] == (Flatten(m.buckets)[p].key, Flatten(m.buckets)[p].value)
    ensures forall p :: 0 <= p < |es| ==> es[p].0 in Contents(m) && Contents(m)[es[p].0] == es[p].1
    ensures forall k: Key :: k in Contents(m) ==> exists p :: 0 <= p < |es| && es[p].0 == k
    ensures forall p, q :: 0 <= p <= q < |es| ==> Hash(es[p].0, m.capacity) <= Hash(es[q].0, m.capacity)
  {
    es := Traverse(m, (e: Entry<V>) => (e.key, e.value));
    FlatViewEntries(m);
    forall k: Key | k in Contents(m) ensures exists p :: 0 <= p < |es| && es[p].0 == k {
      var p := FlatViewPosition(m, k);
      assert es[p].0 == k;
    }
    FlattenOrderedBySlot(m.buckets, m.capacity);
  }
}
