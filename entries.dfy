/**
 * The abstract view of a document: the sequence of entries in buffer order.
 * Every document operation is specified by one of these functions, and the
 * lemmas below state what the subscripts and the sequence operations promise.
 */
module Entries {
  import opened Bytes
  import opened Bson

  function KeysOf(es: seq<Entry>): (ks: set<seq<byte>>)
    ensures forall i :: 0 <= i < |es| ==> es[i].key in ks
    ensures forall k :: k in ks ==> exists i :: 0 <= i < |es| && es[i].key == k
  {
    if es == [] then {} else {es[0].key} + KeysOf(es[1..])
  }

  predicate UniqueKeys(es: seq<Entry>)
  {
    forall i, j :: 0 <= i < j < |es| ==> es[i].key != es[j].key
  }

  /** The value of the first entry whose key is `k` (the getter's `first`). */
  function Lookup(es: seq<Entry>, k: seq<byte>): (r: Option<Value>)
    ensures r.Some? <==> k in KeysOf(es)
    ensures r.Some? ==> exists i :: 0 <= i < |es| && es[i] == Entry(k, r.value)
  {
    if es == [] then None
    else if es[0].key == k then Some(es[0].value)
    else Lookup(es[1..], k)
  }

  /** The entries that satisfy `p`, in order (`filter`). */
  function FilterSeq(es: seq<Entry>, p: Entry -> bool): (r: seq<Entry>)
    ensures |r| <= |es|
    ensures forall i :: 0 <= i < |r| ==> p(r[i])
  {
    if es == [] then []
    else if p(es[0]) then [es[0]] + FilterSeq(es[1..], p)
    else FilterSeq(es[1..], p)
  }

  /** The entries whose key is not `k`, in order. */
  function RemoveKey(es: seq<Entry>, k: seq<byte>): (r: seq<Entry>)
    ensures |r| <= |es|
    ensures forall i :: 0 <= i < |r| ==> r[i].key != k
  {
    if es == [] then []
    else if es[0].key == k then RemoveKey(es[1..], k)
    else [es[0]] + RemoveKey(es[1..], k)
  }

  /** The entries after `d[k] = v`: the old entry for `k` goes, the new one is last. */
  function SetSeq(es: seq<Entry>, k: seq<byte>, v: Value): (r: seq<Entry>)
    ensures |r| >= 1 && r[|r| - 1] == Entry(k, v)
    ensures forall i :: 0 <= i < |r| - 1 ==> r[i].key != k
  {
    RemoveKey(es, k) + [Entry(k, v)]
  }

  /** Applying `d[k] = v` for every pair in order, starting from no entries. */
  function SetAll(pairs: seq<Entry>): seq<Entry>
  {
    if pairs == [] then []
    else
      var last := pairs[|pairs| - 1];
      SetSeq(SetAll(pairs[..|pairs| - 1]), last.key, last.value)
  }

  /** Setting pairs one by one leaves every key at most once. */
  lemma {:induction false} SetAllUnique(pairs: seq<Entry>)
    ensures UniqueKeys(SetAll(pairs))
  {
    if pairs != [] {
      var init := pairs[..|pairs| - 1];
      var last := pairs[|pairs| - 1];
      SetAllUnique(init);
      SetSeqKeys(SetAll(init), last.key, last.value);
    }
  }

  /** Setting pairs one by one keeps exactly the keys of the pairs. */
  lemma {:induction false} SetAllKeys(pairs: seq<Entry>)
    ensures KeysOf(SetAll(pairs)) == KeysOf(pairs)
  {
    if pairs != [] {
      var init := pairs[..|pairs| - 1];
      var last := pairs[|pairs| - 1];
      var e := Entry(last.key, last.value);
      var r := RemoveKey(SetAll(init), last.key);
      assert [e][1..] == [] && [last][1..] == [];
      assert init + [last] == pairs;
      calc {
        KeysOf(SetAll(pairs));
        KeysOf(r + [e]);
        { KeysOfAppend(r, [e]); }
        KeysOf(r) + {last.key};
        { RemoveKeyLookup(SetAll(init), last.key, last.key); SetAllKeys(init); }
        (KeysOf(init) - {last.key}) + {last.key};
        KeysOf(init) + {last.key};
        { KeysOfAppend(init, [last]); }
        KeysOf(pairs);
      }
    }
  }

  function ValuesOf(es: seq<Entry>): (vs: seq<Value>)
    ensures |vs| == |es|
    ensures forall i :: 0 <= i < |es| ==> vs[i] == es[i].value
  {
    if es == [] then [] else [es[0].value] + ValuesOf(es[1..])
  }

  function MapValuesSeq(es: seq<Entry>, f: Value -> Value): (r: seq<Entry>)
    ensures |r| == |es|
    ensures forall i :: 0 <= i < |es| ==> r[i] == Entry(es[i].key, f(es[i].value))
  {
    if es == [] then [] else [Entry(es[0].key, f(es[0].value))] + MapValuesSeq(es[1..], f)
  }

  /** The length of the longest leading run of entries satisfying `p`. */
  function LeadingRun(es: seq<Entry>, p: Entry -> bool): (n: nat)
    ensures n <= |es|
    ensures forall i :: 0 <= i < n ==> p(es[i])
    ensures n < |es| ==> !p(es[n])
  {
    if es == [] || !p(es[0]) then 0 else 1 + LeadingRun(es[1..], p)
  }

  /** What `drop(while:)` keeps: the suffix from the first failing entry on. */
  function DropWhileSeq(es: seq<Entry>, p: Entry -> bool): (r: seq<Entry>)
    ensures |r| <= |es| && r == es[|es| - |r|..]
    ensures forall i :: 0 <= i < |es| - |r| ==> p(es[i])
    ensures r != [] ==> !p(r[0])
  {
    es[LeadingRun(es, p)..]
  }

  /** What `prefix(while:)` keeps: the entries before the first failing one. */
  function PrefixWhileSeq(es: seq<Entry>, p: Entry -> bool): (r: seq<Entry>)
    ensures |r| <= |es| && r == es[..|r|]
    ensures forall i :: 0 <= i < |r| ==> p(r[i])
    ensures |r| < |es| ==> !p(es[|r|])
  {
    es[..LeadingRun(es, p)]
  }

  // ---------------------------------------------------------------------
  // Lemmas

  /** The keys of one more entry of a prefix. */
  lemma KeysOfPrefixNext(es: seq<Entry>, i: nat)
    requires i < |es|
    ensures KeysOf(es[..i + 1]) == KeysOf(es[..i]) + {es[i].key}
  {
    assert es[..i + 1] == es[..i] + [es[i]];
    assert [es[i]][1..] == [];
    KeysOfAppend(es[..i], [es[i]]);
  }

  lemma {:induction false} KeysOfAppend(a: seq<Entry>, b: seq<Entry>)
    ensures KeysOf(a + b) == KeysOf(a) + KeysOf(b)
  {
    if a != [] {
      assert (a + b)[0] == a[0];
      assert (a + b)[1..] == a[1..] + b;
      KeysOfAppend(a[1..], b);
    } else {
      assert a + b == b;
    }
  }

  /** With unique keys, the key set has one element per entry (`count`). */
  lemma {:induction false} UniqueKeysCount(es: seq<Entry>)
    requires UniqueKeys(es)
    ensures |KeysOf(es)| == |es|
  {
    if es != [] {
      UniqueKeysCount(es[1..]);
      KeysOfSuffix(es);
    }
  }

  lemma {:induction false} LookupFirst(es: seq<Entry>, k: seq<byte>, i: nat)
    requires i < |es| && es[i].key == k
    requires forall j :: 0 <= j < i ==> es[j].key != k
    ensures Lookup(es, k) == Some(es[i].value)
  {
    if i > 0 {
      LookupFirst(es[1..], k, i - 1);
    }
  }

  lemma {:induction false} RemoveKeyAsFilter(es: seq<Entry>, k: seq<byte>, p: Entry -> bool)
    requires forall e :: p(e) == (e.key != k)
    ensures FilterSeq(es, p) == RemoveKey(es, k)
  {
    if es != [] {
      RemoveKeyAsFilter(es[1..], k, p);
    }
  }

  /** Deleting a key: it is gone, every other key keeps its value. */
  lemma {:induction false} RemoveKeyLookup(es: seq<Entry>, k: seq<byte>, k': seq<byte>)
    ensures Lookup(RemoveKey(es, k), k') == if k' == k then None else Lookup(es, k')
    ensures KeysOf(RemoveKey(es, k)) == KeysOf(es) - {k}
  {
    if es != [] {
      RemoveKeyLookup(es[1..], k, k');
    }
  }

  /** Deleting an absent key changes nothing (so deleting twice is deleting once). */
  lemma {:induction false} RemoveAbsentKey(es: seq<Entry>, k: seq<byte>)
    requires k !in KeysOf(es)
    ensures RemoveKey(es, k) == es
  {
    if es != [] {
      RemoveAbsentKey(es[1..], k);
    }
  }

  lemma RemoveKeyTwice(es: seq<Entry>, k: seq<byte>)
    ensures RemoveKey(RemoveKey(es, k), k) == RemoveKey(es, k)
  {
    RemoveKeyLookup(es, k, k);
    RemoveAbsentKey(RemoveKey(es, k), k);
  }

  /** Filtering keeps the relative order, so unique keys stay unique. */
  lemma {:induction false} FilterUnique(es: seq<Entry>, p: Entry -> bool)
    requires UniqueKeys(es)
    ensures UniqueKeys(FilterSeq(es, p))
    ensures KeysOf(FilterSeq(es, p)) <= KeysOf(es)
  {
    if es != [] {
      FilterUnique(es[1..], p);
      KeysOfSuffix(es);
    }
  }

  lemma KeysOfSuffix(es: seq<Entry>)
    requires es != [] && UniqueKeys(es)
    ensures es[0].key !in KeysOf(es[1..])
    ensures UniqueKeys(es[1..])
  {
  }

  lemma {:induction false} FilterAppend(es: seq<Entry>, e: Entry, p: Entry -> bool)
    ensures FilterSeq(es + [e], p) == FilterSeq(es, p) + (if p(e) then [e] else [])
  {
    if es != [] {
      assert (es + [e])[1..] == es[1..] + [e];
      FilterAppend(es[1..], e, p);
    }
  }

  /**
   * Setting a key: afterwards it maps to the new value, occurs exactly once,
   * is the last entry, and every other key keeps its value.
   */
  lemma SetSeqLookup(es: seq<Entry>, k: seq<byte>, v: Value, k': seq<byte>)
    requires UniqueKeys(es)
    ensures Lookup(SetSeq(es, k, v), k') == if k' == k then Some(v) else Lookup(es, k')
    ensures UniqueKeys(SetSeq(es, k, v))
    ensures SetSeq(es, k, v)[|SetSeq(es, k, v)| - 1] == Entry(k, v)
    ensures KeysOf(SetSeq(es, k, v)) == KeysOf(es) + {k}
  {
    SetSeqKeys(es, k, v);
    var r := RemoveKey(es, k);
    RemoveKeyLookup(es, k, k');
    if k' == k {
      LookupFirst(r + [Entry(k, v)], k, |r|);
    } else {
      LookupAppend(r, Entry(k, v), k');
    }
  }

  lemma SetSeqKeys(es: seq<Entry>, k: seq<byte>, v: Value)
    requires UniqueKeys(es)
    ensures UniqueKeys(SetSeq(es, k, v))
    ensures KeysOf(SetSeq(es, k, v)) == KeysOf(es) + {k}
    ensures forall j :: 0 <= j < |RemoveKey(es, k)| ==> RemoveKey(es, k)[j].key != k
  {
    var r := RemoveKey(es, k);
    RemoveKeyLookup(es, k, k);
    KeysOfAppend(r, [Entry(k, v)]);
    RemoveKeyUnique(es, k);
  }

  lemma {:induction false} LookupAppend(es: seq<Entry>, e: Entry, k: seq<byte>)
    requires e.key != k
    ensures Lookup(es + [e], k) == Lookup(es, k)
  {
    if es != [] {
      assert (es + [e])[1..] == es[1..] + [e];
      LookupAppend(es[1..], e, k);
    }
  }

  lemma RemoveKeyUnique(es: seq<Entry>, k: seq<byte>)
    requires UniqueKeys(es)
    ensures UniqueKeys(RemoveKey(es, k))
  {
    var p := (e: Entry) => e.key != k;
    RemoveKeyAsFilter(es, k, p);
    FilterUnique(es, p);
  }

  /** With distinct keys, applying the sets in order just lists the pairs. */
  lemma {:induction false} SetAllDistinct(pairs: seq<Entry>)
    requires UniqueKeys(pairs)
    ensures SetAll(pairs) == pairs
  {
    if pairs != [] {
      var n := |pairs| - 1;
      var init := pairs[..n];
      SetAllDistinct(init);
      assert pairs[n].key !in KeysOf(init);
      RemoveAbsentKey(init, pairs[n].key);
      assert init + [pairs[n]] == pairs;
    }
  }

  /** The longest satisfying run and the rest split the entries. */
  lemma PrefixDropSplit(es: seq<Entry>, p: Entry -> bool)
    ensures PrefixWhileSeq(es, p) + DropWhileSeq(es, p) == es
    ensures forall i :: 0 <= i < |PrefixWhileSeq(es, p)| ==> p(PrefixWhileSeq(es, p)[i])
    ensures DropWhileSeq(es, p) != [] ==> !p(DropWhileSeq(es, p)[0])
  {
  }

  /** How the leading run grows when one entry is appended. */
  lemma {:induction false} LeadingRunAppend(es: seq<Entry>, e: Entry, p: Entry -> bool)
    ensures LeadingRun(es + [e], p)
            == if LeadingRun(es, p) == |es| && p(e) then |es| + 1 else LeadingRun(es, p)
  {
    if es != [] {
      assert (es + [e])[0] == es[0];
      if p(es[0]) {
        assert (es + [e])[1..] == es[1..] + [e];
        LeadingRunAppend(es[1..], e, p);
      }
    }
  }
}
