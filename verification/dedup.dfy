/** Deduplication in `collect_jobs`: every raw record is stored in a Python
    dict under its key, so a later record with the same key overwrites the
    value while the key keeps the position where it was first inserted. */
module Dedup {
  import opened Records
  import Seqs

  /** A dict key: a non-empty `job_id`, or the object's own identity when
      the id is missing, null or empty. Identity is the record's position in
      the input, which distinct live objects never share; a string id never
      equals an identity, as a Python str never equals an int. */
  datatype Key = ById(id: string) | ByIdentity(index: nat)

  /** `j.get("job_id") or id(j)` for the record at position `i`. */
  function KeyAt(jobs: seq<RawJob>, i: nat): (k: Key)
    requires i < |jobs|
    ensures k.ByIdentity? <==> !jobs[i].jobId.Truthy()
    ensures k.ById? ==> k.id == jobs[i].jobId.s
    ensures k.ByIdentity? ==> k.index == i
  {
    if jobs[i].jobId.Truthy() then ById(jobs[i].jobId.s) else ByIdentity(i)
  }

  /** Two records share a key exactly when both carry the same non-empty
      id, or they are one and the same record. */
  lemma SameKey(jobs: seq<RawJob>, i: nat, j: nat)
    requires i < |jobs| && j < |jobs|
    ensures KeyAt(jobs, i) == KeyAt(jobs, j) <==>
      i == j || (jobs[i].jobId.Truthy() && jobs[i].jobId == jobs[j].jobId)
  {
  }

  /** An insertion-ordered dict: the keys in insertion order and their values. */
  datatype OrderedMap = OrderedMap(keys: seq<Key>, entries: map<Key, RawJob>) {

    /** The key list has no repeats and lists exactly the bound keys. */
    ghost predicate Valid() {
      && (forall a, b :: 0 <= a < b < |keys| ==> keys[a] != keys[b])
      && (forall k :: k in entries <==> k in keys)
    }

    /** `d[k] = v`: `k` is bound to `v`, and the key list grows only when
        `k` is new. */
    function Put(k: Key, v: RawJob): (r: OrderedMap)
      ensures k in r.entries && r.entries[k] == v
      ensures |r.keys| == if k in entries then |keys| else |keys| + 1
    {
      if k in entries then OrderedMap(keys, entries[k := v])
      else OrderedMap(keys + [k], entries[k := v])
    }

    /** `list(d.values())`: the values in key order. */
    function Values(): (r: seq<RawJob>)
      requires Valid()
      ensures |r| == |keys|
      ensures forall a :: 0 <= a < |keys| ==> r[a] == entries[keys[a]]
    {
      seq(|keys|, a requires 0 <= a < |keys| => entries[keys[a]])
    }
  }

  /** Assigning into a valid dict keeps it valid, leaves every other
      binding alone, keeps every existing key at its position and appends a
      new key at the end. */
  lemma PutSpec(m: OrderedMap, k: Key, v: RawJob)
    requires m.Valid()
    ensures m.Put(k, v).Valid()
    ensures forall k' :: k' != k ==> (k' in m.Put(k, v).entries <==> k' in m.entries)
    ensures forall k' :: k' != k && k' in m.entries ==> m.Put(k, v).entries[k'] == m.entries[k']
    ensures forall a :: 0 <= a < |m.keys| ==> m.Put(k, v).keys[a] == m.keys[a]
    ensures k !in m.entries ==> m.Put(k, v).keys[|m.keys|] == k
  {
  }

  /** The dict after the loop has stored the first `n` records. */
  function Collect(jobs: seq<RawJob>, n: nat): OrderedMap
    requires n <= |jobs|
  {
    if n == 0 then OrderedMap([], map[])
    else Collect(jobs, n - 1).Put(KeyAt(jobs, n - 1), jobs[n - 1])
  }

  /** After any number of steps the dict is valid and has at most one key
      per record stored. */
  lemma {:induction false} CollectValid(jobs: seq<RawJob>, n: nat)
    requires n <= |jobs|
    ensures Collect(jobs, n).Valid()
    ensures |Collect(jobs, n).keys| <= n
  {
    if n > 0 {
      CollectValid(jobs, n - 1);
      PutSpec(Collect(jobs, n - 1), KeyAt(jobs, n - 1), jobs[n - 1]);
    }
  }

  /** The keys of the dict after the whole input, in insertion order. */
  function DedupKeys(jobs: seq<RawJob>): seq<Key>
  {
    Collect(jobs, |jobs|).keys
  }

  /** `jobs = list(unique.values())`: one record per key, never more
      records than came in. */
  function Deduplicate(jobs: seq<RawJob>): (r: seq<RawJob>)
    ensures |r| == |DedupKeys(jobs)| <= |jobs|
  {
    CollectValid(jobs, |jobs|);
    Collect(jobs, |jobs|).Values()
  }

  /** Position of the last record among the first `n` whose key is `k`, or
      -1 when there is none. */
  function LastIndex(jobs: seq<RawJob>, k: Key, n: nat): (r: int)
    requires n <= |jobs|
    ensures -1 <= r < n
    ensures r >= 0 ==> KeyAt(jobs, r) == k
    ensures forall j :: r < j < n ==> KeyAt(jobs, j) != k
  {
    if n == 0 then -1
    else if KeyAt(jobs, n - 1) == k then n - 1
    else LastIndex(jobs, k, n - 1)
  }

  /** Position of the first record at or after `from` whose key is `k`, or
      `|jobs|` when there is none. */
  function FirstIndex(jobs: seq<RawJob>, k: Key, from: nat): (r: nat)
    requires from <= |jobs|
    ensures from <= r <= |jobs|
    ensures r < |jobs| ==> KeyAt(jobs, r) == k
    ensures forall j :: from <= j < r ==> KeyAt(jobs, j) != k
    decreases |jobs| - from
  {
    if from == |jobs| then |jobs|
    else if KeyAt(jobs, from) == k then from
    else FirstIndex(jobs, k, from + 1)
  }

  /** The dict holds key `k` exactly when `k` was seen among the first `n`
      records, and then its value is the last of them. */
  lemma {:induction false} CollectEntry(jobs: seq<RawJob>, n: nat, k: Key)
    requires n <= |jobs|
    ensures k in Collect(jobs, n).entries <==> LastIndex(jobs, k, n) >= 0
    ensures k in Collect(jobs, n).entries ==> Collect(jobs, n).entries[k] == jobs[LastIndex(jobs, k, n)]
  {
    if n > 0 {
      CollectEntry(jobs, n - 1, k);
      var prev := Collect(jobs, n - 1);
      var kn := KeyAt(jobs, n - 1);
      var m := Collect(jobs, n);
      assert m.entries == prev.entries[kn := jobs[n - 1]];
      if k == kn {
        assert LastIndex(jobs, k, n) == n - 1;
      } else {
        assert LastIndex(jobs, k, n) == LastIndex(jobs, k, n - 1);
        assert k in m.entries <==> k in prev.entries;
        assert k in m.entries ==> m.entries[k] == prev.entries[k];
      }
    }
  }

  /** A key's first occurrence is no later than any occurrence. */
  lemma FirstIndexAtMost(jobs: seq<RawJob>, k: Key, i: nat)
    requires i < |jobs| && KeyAt(jobs, i) == k
    ensures FirstIndex(jobs, k, 0) <= i
  {
  }

  /** `ks` lists keys in the order in which they first occur in `jobs`. */
  ghost predicate InFirstSeenOrder(jobs: seq<RawJob>, ks: seq<Key>)
  {
    forall a, b :: 0 <= a < b < |ks| ==> FirstIndex(jobs, ks[a], 0) < FirstIndex(jobs, ks[b], 0)
  }

  /** Keys stand in the dict in the order of their first occurrence. */
  lemma {:induction false} CollectFirstSeenOrder(jobs: seq<RawJob>, n: nat)
    requires n <= |jobs|
    ensures forall k :: k in Collect(jobs, n).keys ==> FirstIndex(jobs, k, 0) < n
    ensures InFirstSeenOrder(jobs, Collect(jobs, n).keys)
  {
    if n > 0 {
      CollectFirstSeenOrder(jobs, n - 1);
      var prev := Collect(jobs, n - 1);
      var kn := KeyAt(jobs, n - 1);
      var ks := Collect(jobs, n).keys;
      FirstIndexAtMost(jobs, kn, n - 1);
      if kn in prev.entries {
        assert ks == prev.keys;
      } else {
        assert ks == prev.keys + [kn];
        CollectEntry(jobs, n - 1, kn);
        assert FirstIndex(jobs, kn, 0) == n - 1;
        forall a, b | 0 <= a < b < |ks|
          ensures FirstIndex(jobs, ks[a], 0) < FirstIndex(jobs, ks[b], 0)
        {
          assert ks[a] == prev.keys[a] && ks[a] in prev.keys;
          if b < |prev.keys| {
            assert ks[b] == prev.keys[b];
          }
        }
      }
    }
  }

  /** The output keys have no repeats, every input record's key is among
      them, and each of them belongs to some input record. */
  lemma DeduplicateKeys(jobs: seq<RawJob>)
    ensures var ks := DedupKeys(jobs);
      && (forall a, b :: 0 <= a < b < |ks| ==> ks[a] != ks[b])
      && (forall i :: 0 <= i < |jobs| ==> KeyAt(jobs, i) in ks)
      && (forall a :: 0 <= a < |ks| ==> LastIndex(jobs, ks[a], |jobs|) >= 0)
  {
    var m := Collect(jobs, |jobs|);
    CollectValid(jobs, |jobs|);
    forall i | 0 <= i < |jobs|
      ensures KeyAt(jobs, i) in m.keys
    {
      CollectEntry(jobs, |jobs|, KeyAt(jobs, i));
      assert LastIndex(jobs, KeyAt(jobs, i), |jobs|) >= i;
    }
    forall a | 0 <= a < |m.keys|
      ensures LastIndex(jobs, m.keys[a], |jobs|) >= 0
    {
      CollectEntry(jobs, |jobs|, m.keys[a]);
    }
  }

  /** The `a`-th deduplicated record is the last input record with the
      `a`-th key. */
  lemma DeduplicateEntry(jobs: seq<RawJob>, a: nat)
    requires a < |DedupKeys(jobs)|
    ensures LastIndex(jobs, DedupKeys(jobs)[a], |jobs|) >= 0
    ensures Deduplicate(jobs)[a] == jobs[LastIndex(jobs, DedupKeys(jobs)[a], |jobs|)]
  {
    CollectValid(jobs, |jobs|);
    CollectEntry(jobs, |jobs|, DedupKeys(jobs)[a]);
  }

  /** Every deduplicated record is the last input record with its key. */
  lemma DeduplicateLastWins(jobs: seq<RawJob>)
    ensures var ks := DedupKeys(jobs);
      forall a :: 0 <= a < |ks| ==>
        LastIndex(jobs, ks[a], |jobs|) >= 0 && Deduplicate(jobs)[a] == jobs[LastIndex(jobs, ks[a], |jobs|)]
  {
    forall a | 0 <= a < |DedupKeys(jobs)|
      ensures LastIndex(jobs, DedupKeys(jobs)[a], |jobs|) >= 0
      ensures Deduplicate(jobs)[a] == jobs[LastIndex(jobs, DedupKeys(jobs)[a], |jobs|)]
    {
      DeduplicateEntry(jobs, a);
    }
  }

  /** The deduplicated records come in the order in which their keys were
      first seen. */
  lemma DeduplicateFirstSeenOrder(jobs: seq<RawJob>)
    ensures InFirstSeenOrder(jobs, DedupKeys(jobs))
  {
    CollectFirstSeenOrder(jobs, |jobs|);
  }

  /** There are as many deduplicated records as distinct keys in the input. */
  lemma DeduplicateCount(jobs: seq<RawJob>)
    ensures |Deduplicate(jobs)| == |set i | 0 <= i < |jobs| :: KeyAt(jobs, i)|
  {
    var ks := DedupKeys(jobs);
    DeduplicateKeys(jobs);
    assert (set k | k in ks) == (set i | 0 <= i < |jobs| :: KeyAt(jobs, i)) by {
      forall k | k in ks
        ensures exists i :: 0 <= i < |jobs| && KeyAt(jobs, i) == k
      {
        var a :| 0 <= a < |ks| && ks[a] == k;
        assert KeyAt(jobs, LastIndex(jobs, ks[a], |jobs|)) == k;
      }
    }
    Seqs.DistinctCardinality(ks);
  }

  /** A record without an id never collides with another: it appears in
      the output unchanged, under its own identity. */
  lemma NoIdNeverCollides(jobs: seq<RawJob>, i: nat)
    requires i < |jobs| && !jobs[i].jobId.Truthy()
    ensures exists a :: 0 <= a < |DedupKeys(jobs)| && DedupKeys(jobs)[a] == ByIdentity(i) && Deduplicate(jobs)[a] == jobs[i]
  {
    var k := ByIdentity(i);
    DeduplicateKeys(jobs);
    assert KeyAt(jobs, i) == k;
    var ks := DedupKeys(jobs);
    var a :| 0 <= a < |ks| && ks[a] == k;
    DeduplicateEntry(jobs, a);
    var last := LastIndex(jobs, k, |jobs|);
    assert last >= i;
    assert KeyAt(jobs, last) == k;
  }
}
