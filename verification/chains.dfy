/**
 The entries a bucket's chain holds and the scan `HashMap` runs over a chain.

 The source stores each entry as a one-property object `{[key]: value}` and tests it with
 `hasOwnProperty(key)`; here an entry is a plain key/value pair. `ToMap` is the abstract
 key-to-value meaning of a sequence of entries.
 */
module Chains {
  import opened Wrappers
  import opened Hashing

  /** One stored key/value pair. */
  datatype Entry<V> = Entry(key: Key, value: V)

  /** No two entries share a key. */
  predicate UniqueKeys<V>(es: seq<Entry<V>>) {
    forall i, j :: 0 <= i < j < |es| ==> es[i].key != es[j].key
  }

  /** The chain scan: the position of the first entry holding `key`, if any. */
  function IndexOf<V>(es: seq<Entry<V>>, key: Key): (r: Option<nat>)
    ensures r.None? ==> forall i :: 0 <= i < |es| ==> es[i].key != key
    ensures r.Some? ==> r.value < |es| && es[r.value].key == key
    ensures r.Some? ==> forall i :: 0 <= i < r.value ==> es[i].key != key
  {
    if |es| == 0 then None
    else if es[0].key == key then Some(0)
    else match IndexOf(es[1..], key)
      case None => None
      case Some(j) => Some(j + 1)
  }

  /** The value the chain scan finds for `key`: that of the first entry holding it. */
  function Lookup<V>(es: seq<Entry<V>>, key: Key): Option<V> {
    match IndexOf(es, key)
    case None => None
    case Some(j) => Some(es[j].value)
  }

  /** The abstract meaning of a sequence of entries; an earlier entry hides a later one with the same key. */
  function ToMap<V>(es: seq<Entry<V>>): map<Key, V> {
    if |es| == 0 then map[] else ToMap(es[1..])[es[0].key := es[0].value]
  }

  /** The scan finds exactly what the abstract meaning holds. */
  lemma {:induction false} LookupIsToMap<V>(es: seq<Entry<V>>, key: Key)
    ensures Lookup(es, key) == (if key in ToMap(es) then Some(ToMap(es)[key]) else None)
    decreases |es|
  {
    if |es| > 0 && es[0].key != key {
      LookupIsToMap(es[1..], key);
      match IndexOf(es[1..], key)
      case None =>
      case Some(j) => assert es[1..][j] == es[j + 1];
    }
  }

  /** Every key of the abstract map is held by some entry. */
  lemma {:induction false} ToMapKeyPosition<V>(es: seq<Entry<V>>, key: Key) returns (p: nat)
    requires key in ToMap(es)
    ensures p < |es| && es[p].key == key
    decreases |es|
  {
    if es[0].key == key {
      p := 0;
    } else {
      var q := ToMapKeyPosition(es[1..], key);
      p := q + 1;
    }
  }

  /** A sequence of entries is determined, as a map, by what the scan finds in it. */
  lemma ToMapFromLookup<V>(es: seq<Entry<V>>, m: map<Key, V>)
    requires forall k :: Lookup(es, k) == (if k in m then Some(m[k]) else None)
    ensures ToMap(es) == m
  {
    forall k
      ensures (k in ToMap(es) <==> k in m) && (k in m ==> ToMap(es)[k] == m[k])
    {
      LookupIsToMap(es, k);
    }
  }

  /** With unique keys the abstract map has one key per entry. */
  lemma {:induction false} ToMapSize<V>(es: seq<Entry<V>>)
    requires UniqueKeys(es)
    ensures |ToMap(es)| == |es|
    decreases |es|
  {
    if |es| > 0 {
      var rest := es[1..];
      assert UniqueKeys(rest) by {
        forall i, j | 0 <= i < j < |rest| ensures rest[i].key != rest[j].key {
          assert rest[i] == es[i + 1] && rest[j] == es[j + 1];
        }
      }
      ToMapSize(rest);
      LookupIsToMap(rest, es[0].key);
      assert IndexOf(rest, es[0].key).None? by {
        forall i | 0 <= i < |rest| ensures rest[i].key != es[0].key {
          assert rest[i] == es[i + 1];
        }
      }
    }
  }

  /** Scanning a concatenation finds the first part's entry if it has one, else the second part's. */
  lemma {:induction false} LookupConcat<V>(a: seq<Entry<V>>, b: seq<Entry<V>>, key: Key)
    ensures Lookup(a + b, key) == if Lookup(a, key).Some? then Lookup(a, key) else Lookup(b, key)
    decreases |a|
  {
    if |a| > 0 && a[0].key != key {
      assert (a + b)[1..] == a[1..] + b;
      LookupConcat(a[1..], b, key);
      match IndexOf(a[1..] + b, key)
      case None =>
      case Some(j) => assert (a[1..] + b)[j] == (a + b)[j + 1];
      match IndexOf(a[1..], key)
      case None =>
      case Some(j) => assert a[1..][j] == a[j + 1];
    }
    if |a| == 0 {
      assert a + b == b;
    }
  }

  /** Overwriting the entry the scan finds for `key` changes what it finds for `key` only. */
  lemma UpdateFound<V>(es: seq<Entry<V>>, key: Key, value: V, j: nat)
    requires IndexOf(es, key) == Some(j)
    ensures UniqueKeys(es) ==> UniqueKeys(es[j := Entry(key, value)])
    ensures forall k :: Lookup(es[j := Entry(key, value)], k) == if k == key then Some(value) else Lookup(es, k)
  {
    var es' := es[j := Entry(key, value)];
    forall k ensures Lookup(es', k) == if k == key then Some(value) else Lookup(es, k) {
      if k == key {
        assert IndexOf(es', k) == Some(j) by {
          IndexOfFirst(es', k, j);
        }
      } else {
        IndexOfSameKeys(es, es', k);
        match IndexOf(es, k)
        case None =>
        case Some(i) => assert i != j;
      }
    }
  }

  /** `j` is the scan's answer whenever it is the first position holding `key`. */
  lemma IndexOfFirst<V>(es: seq<Entry<V>>, key: Key, j: nat)
    requires j < |es| && es[j].key == key
    requires forall i :: 0 <= i < j ==> es[i].key != key
    ensures IndexOf(es, key) == Some(j)
  {
  }

  /** The scan only looks at keys. */
  lemma IndexOfSameKeys<V>(es: seq<Entry<V>>, es': seq<Entry<V>>, key: Key)
    requires |es| == |es'|
    requires forall i :: 0 <= i < |es| ==> es[i].key == es'[i].key
    ensures IndexOf(es, key) == IndexOf(es', key)
  {
    match IndexOf(es, key)
    case None =>
    case Some(j) => IndexOfFirst(es', key, j);
  }

  /** Appending an entry for a key the chain lacks adds exactly that key. */
  lemma AppendFresh<V>(es: seq<Entry<V>>, key: Key, value: V)
    requires IndexOf(es, key).None?
    ensures UniqueKeys(es) ==> UniqueKeys(es + [Entry(key, value)])
    ensures forall k :: Lookup(es + [Entry(key, value)], k) == if k == key then Some(value) else Lookup(es, k)
  {
    forall k ensures Lookup(es + [Entry(key, value)], k) == if k == key then Some(value) else Lookup(es, k) {
      LookupConcat(es, [Entry(key, value)], k);
    }
  }

  /** Scanning a non-empty sequence: the head if it holds the key, else the scan of the rest. */
  lemma LookupCons<V>(es: seq<Entry<V>>, key: Key)
    requires |es| > 0
    ensures Lookup(es, key) == if es[0].key == key then Some(es[0].value) else Lookup(es[1..], key)
  {
    if es[0].key != key {
      match IndexOf(es[1..], key)
      case None =>
      case Some(j) => assert es[1..][j] == es[j + 1];
    }
  }

  /** Dropping the head keeps keys distinct, and the head's key is not among the rest. */
  lemma UniqueTail<V>(es: seq<Entry<V>>)
    requires |es| > 0 && UniqueKeys(es)
    ensures UniqueKeys(es[1..])
    ensures forall p :: 0 <= p < |es| - 1 ==> es[1..][p].key != es[0].key
  {
    var rest := es[1..];
    forall p, q | 0 <= p < q < |rest| ensures rest[p].key != rest[q].key {
      assert rest[p] == es[p + 1] && rest[q] == es[q + 1];
    }
    forall p | 0 <= p < |rest| ensures rest[p].key != es[0].key {
      assert rest[p] == es[p + 1];
    }
  }

  /** A prefix of a sequence with distinct keys has distinct keys. */
  lemma UniquePrefix<V>(es: seq<Entry<V>>, n: nat)
    requires n <= |es| && UniqueKeys(es)
    ensures UniqueKeys(es[..n])
  {
    assert forall p :: 0 <= p < n ==> es[..n][p] == es[p];
  }

  /** Unlinking one entry keeps the remaining keys distinct. */
  lemma DeleteKeepsUnique<V>(es: seq<Entry<V>>, j: nat)
    requires UniqueKeys(es) && j < |es|
    ensures UniqueKeys(es[..j] + es[j + 1..])
  {
    var es' := es[..j] + es[j + 1..];
    forall p, q | 0 <= p < q < |es'| ensures es'[p].key != es'[q].key {
      var p', q' := if p < j then p else p + 1, if q < j then q else q + 1;
      assert es'[p] == es[p'] && es'[q] == es[q'];
    }
  }

  /** The entries left after unlinking position `j`, each at its new position. */
  lemma DeleteShifts<V>(es: seq<Entry<V>>, j: nat, es': seq<Entry<V>>)
    requires j < |es| && es' == es[..j] + es[j + 1..]
    ensures |es'| == |es| - 1
    ensures forall p :: 0 <= p < j ==> es'[p] == es[p]
    ensures forall p :: j <= p < |es'| ==> es'[p] == es[p + 1]
  {
  }

  /** After unlinking the only entry holding `key`, the scan for another key `k` finds what it found before. */
  lemma DeleteFoundOther<V>(es: seq<Entry<V>>, key: Key, j: nat, k: Key)
    requires IndexOf(es, key) == Some(j) && k != key
    ensures Lookup(es[..j] + es[j + 1..], k) == Lookup(es, k)
  {
    var es' := es[..j] + es[j + 1..];
    DeleteShifts(es, j, es');
    match IndexOf(es, k)
    case None =>
      assert forall p :: 0 <= p < |es'| ==> es'[p].key != k;
    case Some(i) =>
      var i' := if i < j then i else i - 1;
      assert es'[i'] == es[i];
      IndexOfFirst(es', k, i');
  }

  /** Unlinking the only entry holding `key` removes exactly that key. */
  lemma DeleteFound<V>(es: seq<Entry<V>>, key: Key, j: nat)
    requires UniqueKeys(es) && IndexOf(es, key) == Some(j)
    ensures UniqueKeys(es[..j] + es[j + 1..])
    ensures forall k :: Lookup(es[..j] + es[j + 1..], k) == if k == key then None else Lookup(es, k)
  {
    var es' := es[..j] + es[j + 1..];
    DeleteKeepsUnique(es, j);
    forall k ensures Lookup(es', k) == if k == key then None else Lookup(es, k) {
      if k == key {
        DeleteShifts(es, j, es');
        assert forall p :: 0 <= p < |es'| ==> es'[p].key != key;
      } else {
        DeleteFoundOther(es, key, j, k);
      }
    }
  }
}
