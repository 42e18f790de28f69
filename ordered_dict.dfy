/** Insertion-ordered dictionaries, as the epoch record's node and edge
    property tables are. A dictionary is a sequence of (key, value) entries;
    assigning to a key that is present replaces its value where it stands,
    assigning to a new key appends it, and a dictionary comprehension is the
    left-to-right succession of such assignments. */
module OrderedDict {
  import opened GraphTypes

  type Dict<K, V> = seq<(K, V)>

  function Keys<K, V>(d: Dict<K, V>): (ks: seq<K>)
    ensures |ks| == |d|
    ensures forall i :: 0 <= i < |d| ==> ks[i] == d[i].0
  {
    seq(|d|, i requires 0 <= i < |d| => d[i].0)
  }

  /** The value stored under k, if any. */
  function Lookup<K(==), V>(d: Dict<K, V>, k: K): Option<V> {
    if d == [] then None
    else if d[0].0 == k then Some(d[0].1)
    else Lookup(d[1..], k)
  }

  /** d[k] = v. */
  function Insert<K(==), V>(d: Dict<K, V>, k: K, v: V): Dict<K, V> {
    if d == [] then [(k, v)]
    else if d[0].0 == k then [(k, v)] + d[1..]
    else [d[0]] + Insert(d[1..], k, v)
  }

  /** {k: v for (k, v) in entries}. */
  function FromEntries<K(==), V>(entries: seq<(K, V)>): Dict<K, V> {
    if entries == [] then []
    else Insert(FromEntries(entries[..|entries| - 1]), Last(entries).0, Last(entries).1)
  }

  /** The keys of ks in the order of their first occurrence, each once. */
  function Dedup<K(==)>(ks: seq<K>): seq<K> {
    if ks == [] then []
    else if Last(ks) in ks[..|ks| - 1] then Dedup(ks[..|ks| - 1])
    else Dedup(ks[..|ks| - 1]) + [Last(ks)]
  }

  /** The value of the last entry with key k. */
  function LastValue<K(==), V>(entries: seq<(K, V)>, k: K): Option<V> {
    if entries == [] then None
    else if Last(entries).0 == k then Some(Last(entries).1)
    else LastValue(entries[..|entries| - 1], k)
  }

  /** Assignment keeps the position of a present key and appends a new one;
      afterwards k holds v and every other key what it held. */
  lemma {:induction false} InsertSpec<K, V>(d: Dict<K, V>, k: K, v: V)
    ensures Keys(Insert(d, k, v)) == if k in Keys(d) then Keys(d) else Keys(d) + [k]
    ensures forall k' :: Lookup(Insert(d, k, v), k') == if k' == k then Some(v) else Lookup(d, k')
  {
    if d != [] && d[0].0 != k {
      InsertSpec(d[1..], k, v);
      assert Keys(d) == [d[0].0] + Keys(d[1..]);
      assert Keys(Insert(d, k, v)) == [d[0].0] + Keys(Insert(d[1..], k, v));
    } else if d != [] {
      assert Keys(Insert(d, k, v)) == Keys(d);
    }
  }

  lemma {:induction false} DedupSpec<K>(ks: seq<K>)
    ensures Distinct(Dedup(ks))
    ensures forall x :: x in Dedup(ks) <==> x in ks
  {
    if ks != [] {
      var init := ks[..|ks| - 1];
      DedupSpec(init);
      assert ks == init + [Last(ks)];
    }
  }

  /** Deduplicating a sequence without repetitions changes nothing. */
  lemma {:induction false} DedupDistinct<K>(ks: seq<K>)
    requires Distinct(ks)
    ensures Dedup(ks) == ks
  {
    if ks != [] {
      var init := ks[..|ks| - 1];
      DedupDistinct(init);
      assert ks == init + [Last(ks)];
    }
  }

  /** A dictionary comprehension holds each key once, in the order of its
      first occurrence, with the value of its last occurrence. */
  lemma {:induction false} FromEntriesSpec<K, V>(entries: seq<(K, V)>)
    ensures Keys(FromEntries(entries)) == Dedup(Keys(entries))
    ensures forall k :: Lookup(FromEntries(entries), k) == LastValue(entries, k)
  {
    if entries != [] {
      var init := entries[..|entries| - 1];
      FromEntriesSpec(init);
      InsertSpec(FromEntries(init), Last(entries).0, Last(entries).1);
      assert Keys(init) == Keys(entries)[..|entries| - 1];
      DedupSpec(Keys(init));
    }
  }

  /** Deduplicating shortens a sequence exactly when it has a repetition. */
  lemma {:induction false} DedupLength<K>(ks: seq<K>)
    ensures |Dedup(ks)| <= |ks|
    ensures |Dedup(ks)| == |ks| <==> Distinct(ks)
  {
    if ks != [] {
      var init := ks[..|ks| - 1];
      DedupLength(init);
      assert ks == init + [Last(ks)];
      if Last(ks) in init {
        var i :| 0 <= i < |init| && init[i] == Last(ks);
        assert ks[i] == ks[|ks| - 1];
      } else if Distinct(init) {
        forall i, j | 0 <= i < j < |ks| ensures ks[i] != ks[j] {
          if j < |ks| - 1 {
            assert ks[i] == init[i] && ks[j] == init[j];
          } else {
            assert ks[i] == init[i];
          }
        }
      } else {
        var i, j :| 0 <= i < j < |init| && init[i] == init[j];
        assert ks[i] == ks[j];
      }
    }
  }

  /** When equal keys always carry equal values, the comprehension maps each
      key of the entries to its value and holds nothing else. */
  lemma {:induction false} FromEntriesKeyed<K, V>(entries: seq<(K, V)>, k: K)
    requires forall i, j :: 0 <= i < |entries| && 0 <= j < |entries| && entries[i].0 == entries[j].0
                            ==> entries[i].1 == entries[j].1
    ensures Lookup(FromEntries(entries), k).Some? <==> k in Keys(entries)
    ensures forall i :: 0 <= i < |entries| && entries[i].0 == k ==> Lookup(FromEntries(entries), k) == Some(entries[i].1)
  {
    FromEntriesSpec(entries);
    LastValueKeyed(entries, k);
  }

  lemma {:induction false} LastValueKeyed<K, V>(entries: seq<(K, V)>, k: K)
    requires forall i, j :: 0 <= i < |entries| && 0 <= j < |entries| && entries[i].0 == entries[j].0
                            ==> entries[i].1 == entries[j].1
    ensures LastValue(entries, k).Some? <==> k in Keys(entries)
    ensures forall i :: 0 <= i < |entries| && entries[i].0 == k ==> LastValue(entries, k) == Some(entries[i].1)
  {
    if entries != [] {
      var init := entries[..|entries| - 1];
      LastValueKeyed(init, k);
      assert Keys(entries) == Keys(init) + [Last(entries).0];
    }
  }
}
