/**
 The script at the end of `index.js`: a map built with the default configuration, then thirteen
 `set` calls with distinct keys. The default threshold is `16 * 0.75 = 12` entries, so the
 capacity stays 16 through the twelfth call and the thirteenth doubles it to 32.
 */
module Examples {
  import opened Wrappers
  import opened Hashing
  import opened Chains
  import opened LinkedLists
  import opened Buckets
  import opened HashMaps

  /** The keys the script sets, in order. */
  const ScriptKeys: seq<string> := [
    "apple", "banana", "carrot", "dog", "elephant", "frog", "grape",
    "hat", "ice cream", "jacket", "kite", "lion", "moon"]

  /** The value set for each key. */
  const ScriptValues: seq<string> := [
    "red", "yellow", "orange", "brown", "gray", "green", "purple",
    "black", "white", "blue", "pink", "golden", "silver"]

  /** The number of `set` calls in the script. */
  const ScriptLength: nat := 13

  /** The `i`-th key as the hash sees it. */
  function ScriptKey(i: nat): Key
    requires i < ScriptLength
  {
    CodeUnits(ScriptKeys[i])
  }

  /** Each script key begins with a different letter: `a` for the first, `b` for the second, and so on. */
  lemma ScriptKeyInitials(i: nat)
    requires i < ScriptLength
    ensures |ScriptKey(i)| >= 1 && ScriptKey(i)[0] == 97 + i
  {
    var s := ScriptKeys[i];
    assert |s| >= 1 && (s[0] as int) == 97 + i;
    assert ScriptKey(i) == CharUnits(s[0]) + CodeUnits(s[1..]);
  }

  /** The script's keys are pairwise distinct, so every `set` call adds an entry. */
  lemma ScriptKeysDistinct(i: nat, j: nat)
    requires i < j < ScriptLength
    ensures ScriptKey(i) != ScriptKey(j)
  {
    ScriptKeyInitials(i);
    ScriptKeyInitials(j);
  }

  /** All thirteen script keys are pairwise distinct. */
  lemma ScriptKeysAllDistinct()
    ensures forall i, j :: 0 <= i < j < |ScriptKeyUnits()| ==> ScriptKeyUnits()[i] != ScriptKeyUnits()[j]
  {
    forall i, j | 0 <= i < j < |ScriptKeyUnits()| ensures ScriptKeyUnits()[i] != ScriptKeyUnits()[j] {
      ScriptKeysDistinct(i, j);
    }
  }

  /** The script's keys as the hash sees them. */
  function ScriptKeyUnits(): (ks: seq<Key>)
    ensures |ks| == ScriptLength
    ensures forall i :: 0 <= i < ScriptLength ==> ks[i] == ScriptKey(i)
  {
    seq(ScriptLength, i requires 0 <= i < ScriptLength => ScriptKey(i))
  }

  /** The arithmetic of the default threshold: with 0.75, capacity 16 admits 12 entries and capacity 32 admits 24. */
  lemma DefaultThresholds(n: nat, capacity: nat, loadFactor: real)
    requires loadFactor == DefaultLoadFactor && 1 <= n <= 24
    requires capacity == DefaultCapacityAfter(n - 1)
    ensures ((n as real) > (capacity as real) * loadFactor) <==> n == 13
  {
  }

  /** The capacity the default configuration has after `n` entries were added one by one, for `n` up to 24. */
  function DefaultCapacityAfter(n: nat): nat {
    if n <= 12 then 16 else 32
  }

  /** The reference meaning of the first `n` calls: the map `c` updated with `ks[i] := vs[i]` in order. */
  function Updated<V>(c: map<Key, V>, ks: seq<Key>, vs: seq<V>, n: nat): map<Key, V>
    requires n <= |ks| && n <= |vs|
  {
    if n == 0 then c else Updated(c, ks, vs, n - 1)[ks[n - 1] := vs[n - 1]]
  }

  /** The keys after the updates are the original ones and the ones set. */
  lemma {:induction false} UpdatedKeys<V>(c: map<Key, V>, ks: seq<Key>, vs: seq<V>, n: nat, k: Key)
    requires n <= |ks| && n <= |vs|
    ensures k in Updated(c, ks, vs, n) <==> k in c || exists i :: 0 <= i < n && ks[i] == k
    decreases n
  {
    if n > 0 {
      UpdatedKeys(c, ks, vs, n - 1, k);
      if k == ks[n - 1] {
        assert ks[n - 1] == k;
      }
    }
  }

  /** With distinct keys, each key set holds the value set with it. */
  lemma {:induction false} UpdatedValue<V>(c: map<Key, V>, ks: seq<Key>, vs: seq<V>, n: nat, i: nat)
    requires i < n <= |ks| && n <= |vs|
    requires forall p, q :: 0 <= p < q < n ==> ks[p] != ks[q]
    ensures ks[i] in Updated(c, ks, vs, n) && Updated(c, ks, vs, n)[ks[i]] == vs[i]
    decreases n
  {
    if i < n - 1 {
      UpdatedValue(c, ks, vs, n - 1, i);
      assert ks[i] != ks[n - 1];
    }
  }

  /** With distinct keys, every key set holds the value set with it. */
  lemma UpdatedAll<V>(c: map<Key, V>, ks: seq<Key>, vs: seq<V>)
    requires |ks| <= |vs|
    requires forall p, q :: 0 <= p < q < |ks| ==> ks[p] != ks[q]
    ensures forall i :: 0 <= i < |ks| ==> ks[i] in Updated(c, ks, vs, |ks|) && Updated(c, ks, vs, |ks|)[ks[i]] == vs[i]
  {
    forall i | 0 <= i < |ks|
      ensures ks[i] in Updated(c, ks, vs, |ks|) && Updated(c, ks, vs, |ks|)[ks[i]] == vs[i]
    {
      UpdatedValue(c, ks, vs, |ks|, i);
    }
  }

  /**
   What `n` calls with distinct keys leave in a map that started empty in the default
   configuration: a valid map holding exactly the updates applied in order, one entry per call,
   at the capacity the threshold of 0.75 dictates.
   */
  ghost predicate SetAllInvariant<V>(r: HashMap<V>, ks: seq<Key>, vs: seq<V>, n: nat)
    requires n <= |ks| && n <= |vs|
  {
    && Valid(r) && Count(r) == n && r.loadFactor == DefaultLoadFactor
    && r.capacity == DefaultCapacityAfter(n)
    && Contents(r) == Updated(map[], ks, vs, n)
  }

  /** One more call with a key not set before extends what the calls so far left behind. */
  lemma SetAllStep<V>(r: HashMap<V>, ks: seq<Key>, vs: seq<V>, n: nat)
    requires n < |ks| && n < |vs| && n < 24
    requires forall i :: 0 <= i < n ==> ks[i] != ks[n]
    requires SetAllInvariant(r, ks, vs, n)
    ensures SetAllInvariant(Set(r, ks[n], vs[n]), ks, vs, n + 1)
  {
    var key, value := ks[n], vs[n];
    assert key !in Contents(r) by {
      UpdatedKeys(map[], ks, vs, n, key);
    }
    var next := Set(r, key, value);
    assert && Valid(next) && Contents(next) == Contents(r)[key := value] && Count(next) == n + 1
           && next.loadFactor == DefaultLoadFactor && next.capacity == DefaultCapacityAfter(n + 1) by {
      SetSpec(r, key, value);
      DefaultThresholds(n + 1, r.capacity, r.loadFactor);
    }
  }

  /**
   The driver loop: `set(ks[i], vs[i])` for each `i` in order, starting from an empty map of the
   default configuration, recording the capacity after each call. With distinct keys (at most 24
   of them) every call adds one entry; the capacity is 16 after each of the first twelve calls
   and 32 after each later one, and the map holds exactly the updates applied in order.
   */
  method SetAll<V>(m: HashMap<V>, ks: seq<Key>, vs: seq<V>) returns (r: HashMap<V>, capacities: seq<nat>)
    requires Valid(m) && Count(m) == 0
    requires m.capacity == DefaultCapacity && m.loadFactor == DefaultLoadFactor
    requires |ks| == |vs| <= 24
    requires forall i, j :: 0 <= i < j < |ks| ==> ks[i] != ks[j]
    ensures Valid(r) && Count(r) == |ks| && r.loadFactor == DefaultLoadFactor
    ensures Contents(r) == Updated(map[], ks, vs, |ks|)
    ensures |capacities| == |ks| && forall i :: 0 <= i < |ks| ==> capacities[i] == DefaultCapacityAfter(i + 1)
    ensures r.capacity == DefaultCapacityAfter(|ks|)
    ensures forall i :: 0 <= i < |ks| ==> ks[i] in Contents(r) && Contents(r)[ks[i]] == vs[i]
  {
    r := m;
    capacities := [];
    assert Contents(m) == map[] by {
      ToMapSize(Flatten(m.buckets));
    }
    var n := 0;
    while n < |ks|
      invariant n <= |ks|
      invariant SetAllInvariant(r, ks, vs, n)
      invariant |capacities| == n && forall i :: 0 <= i < n ==> capacities[i] == DefaultCapacityAfter(i + 1)
    {
      SetAllStep(r, ks, vs, n);
      r := Set(r, ks[n], vs[n]);
      capacities := capacities + [r.capacity];
      n := n + 1;
    }
    UpdatedAll(map[], ks, vs);
  }

  /**
   Removing a present key from a map of the default configuration that has just grown to 32 with
   thirteen entries leaves twelve, which fit half of 32 at load factor 0.75, so it shrinks back to 16.
   */
  lemma RemoveAfterGrowthShrinks<V>(m: HashMap<V>, key: Key)
    requires Valid(m) && Count(m) == 13 && m.capacity == 32 && m.loadFactor == DefaultLoadFactor
    requires key in Contents(m)
    ensures Remove(m, key).1
    ensures Valid(Remove(m, key).0) && Count(Remove(m, key).0) == 12 && Remove(m, key).0.capacity == 16
    ensures key !in Contents(Remove(m, key).0)
  {
    RemoveSpec(m, key);
  }

  /**
   The script itself, from the map `new HashMap()` builds: after the thirteen calls the map holds
   thirteen entries, exactly the script's updates; the capacity is 16 after each of the first
   twelve calls and doubles to 32 at the thirteenth.
   */
  method Script(m: HashMap<string>) returns (r: HashMap<string>, capacities: seq<nat>)
    requires Valid(m) && Count(m) == 0
    requires m.capacity == DefaultCapacity && m.loadFactor == DefaultLoadFactor
    ensures Valid(r) && Count(r) == 13 && r.capacity == 32
    ensures |capacities| == 13 && capacities[12] == 32
    ensures forall i :: 0 <= i < 12 ==> capacities[i] == 16
    ensures forall i :: 0 <= i < |ScriptKeyUnits()| ==>
              ScriptKeyUnits()[i] in Contents(r) && Contents(r)[ScriptKeyUnits()[i]] == ScriptValues[i]
  {
    ScriptKeysAllDistinct();
    r, capacities := SetAll(m, ScriptKeyUnits(), ScriptValues);
  }

  /** How `toString` renders a two-node list of strings. */
  lemma RenderTwoNodes()
    ensures Render(["dog", "cat"], (s: string) => s) == "( dog ) -> ( cat ) -> null"
  {
    var show := (s: string) => s;
    assert ["dog", "cat"][1..] == ["cat"];
    assert ["cat"][1..] == [];
  }
}
