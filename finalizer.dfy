/**
 * The end of `read_mmap`: the table drained into a vector and sorted with
 * `sort_unstable_by(|a, b| a.0.cmp(b.0))`, i.e. by byte-lexicographic key.
 */
module Finalizer {
  import opened Bytes
  import opened CityStats

  /** One element of the returned vector: a key with its record. */
  datatype Entry = Entry(key: seq<byte>, stats: Stats)

  predicate StrictlySorted(es: seq<Entry>)
  {
    forall i, j :: 0 <= i < j < |es| ==> Less(es[i].key, es[j].key)
  }

  predicate DistinctKeys(es: seq<Entry>)
  {
    forall i, j :: 0 <= i < j < |es| ==> es[i].key != es[j].key
  }

  function KeysOf(es: seq<Entry>): set<seq<byte>>
  {
    set i | 0 <= i < |es| :: es[i].key
  }

  /** Inserting into a strictly sorted vector a key it lacks keeps it strictly sorted. */
  function Insert(e: Entry, s: seq<Entry>): (r: seq<Entry>)
    requires StrictlySorted(s) && e.key !in KeysOf(s)
    ensures StrictlySorted(r)
    ensures multiset(r) == multiset(s) + multiset{e}
  {
    if s == [] then [e]
    else if Less(e.key, s[0].key) then
      BelowHead(e.key, s);
      SortedCons(e, s);
      [e] + s
    else
      assert s[0].key in KeysOf(s);
      LessTotal(e.key, s[0].key);
      var rest := Insert(e, s[1..]);
      HeadBelowInsert(e, s, rest);
      SortedCons(s[0], rest);
      assert s == [s[0]] + s[1..];
      [s[0]] + rest
  }

  /** An entry below the head of a strictly sorted vector can go in front of it. */
  lemma SortedCons(e: Entry, s: seq<Entry>)
    requires StrictlySorted(s)
    requires forall x | x in s :: Less(e.key, x.key)
    ensures StrictlySorted([e] + s)
  {
    forall i, j | 0 <= i < j < |[e] + s| ensures Less(([e] + s)[i].key, ([e] + s)[j].key) {
      if i == 0 {
        assert ([e] + s)[j] == s[j - 1];
      } else {
        assert ([e] + s)[i] == s[i - 1] && ([e] + s)[j] == s[j - 1];
      }
    }
  }

  lemma HeadBelowInsert(e: Entry, s: seq<Entry>, rest: seq<Entry>)
    requires s != [] && StrictlySorted(s) && Less(s[0].key, e.key)
    requires multiset(rest) == multiset(s[1..]) + multiset{e}
    ensures forall x | x in rest :: Less(s[0].key, x.key)
  {
    forall x | x in rest ensures Less(s[0].key, x.key) {
      assert x in multiset(rest);
      if x != e {
        var j := IndexOf(x, s[1..]);
        assert s[j + 1] == x;
      }
    }
  }

  /** Below the head of a strictly sorted vector means below every element of it. */
  lemma BelowHead(k: seq<byte>, s: seq<Entry>)
    requires s != [] && StrictlySorted(s) && Less(k, s[0].key)
    ensures forall x | x in s :: Less(k, x.key)
  {
    forall x | x in s ensures Less(k, x.key) {
      var j :| 0 <= j < |s| && s[j] == x;
      if j > 0 {
        LessTransitive(k, s[0].key, x.key);
      }
    }
  }

  /** `sort_unstable_by` on distinct keys: the strictly sorted permutation of the entries. */
  function SortByKey(es: seq<Entry>): (r: seq<Entry>)
    requires DistinctKeys(es)
    ensures StrictlySorted(r)
    ensures multiset(r) == multiset(es)
  {
    if es == [] then []
    else
      assert DistinctKeys(es[1..]);
      var rest := SortByKey(es[1..]);
      HeadKeyFresh(es);
      PermutationKeys(rest, es[1..]);
      assert es == [es[0]] + es[1..];
      Insert(es[0], rest)
  }

  lemma HeadKeyFresh(es: seq<Entry>)
    requires es != [] && DistinctKeys(es)
    ensures es[0].key !in KeysOf(es[1..])
  {
    forall j | 0 <= j < |es[1..]| ensures es[1..][j].key != es[0].key {
      assert es[1..][j] == es[j + 1];
    }
  }

  /** Any element of a sequence is found at some index. */
  lemma IndexOf(x: Entry, s: seq<Entry>) returns (j: nat)
    requires x in multiset(s)
    ensures j < |s| && s[j] == x
  {
    j :| 0 <= j < |s| && s[j] == x;
  }

  lemma PermutationKeys(a: seq<Entry>, b: seq<Entry>)
    requires multiset(a) == multiset(b)
    ensures KeysOf(a) == KeysOf(b)
  {
    forall k | k in KeysOf(a) ensures k in KeysOf(b) {
      var i :| 0 <= i < |a| && a[i].key == k;
      var j := IndexOf(a[i], b);
    }
    forall k | k in KeysOf(b) ensures k in KeysOf(a) {
      var i :| 0 <= i < |b| && b[i].key == k;
      var j := IndexOf(b[i], a);
    }
  }

  /**
   * The vector that `read_mmap` promises for a table: keys strictly
   * increasing, exactly the table's keys, each with its record.
   */
  predicate Summarises(es: seq<Entry>, table: map<seq<byte>, Stats>)
  {
    StrictlySorted(es) && Lists(es, table)
  }

  /** `es` lists `table`: each of its keys once, with its record, in some order. */
  predicate Lists(es: seq<Entry>, table: map<seq<byte>, Stats>)
  {
    && DistinctKeys(es) && KeysOf(es) == table.Keys
    && forall i :: 0 <= i < |es| ==> es[i].key in table && es[i].stats == table[es[i].key]
  }

  /** Appending an entry for a new key lists the table extended by it. */
  lemma ListsAppend(es: seq<Entry>, e: Entry, table: map<seq<byte>, Stats>)
    requires Lists(es, table) && e.key !in table
    ensures Lists(es + [e], table[e.key := e.stats])
  {
    var es', table' := es + [e], table[e.key := e.stats];
    forall i | 0 <= i < |es| ensures es'[i] == es[i] && es[i].key != e.key {
      assert es[i].key in KeysOf(es);
    }
    assert es'[|es|] == e;
    assert KeysOf(es') == KeysOf(es) + {e.key} by {
      forall x | x in KeysOf(es) ensures x in KeysOf(es') {
        var i :| 0 <= i < |es| && es[i].key == x;
        assert es'[i] == es[i];
      }
    }
  }

  /** Strictly increasing keys are distinct. */
  lemma SortedDistinct(es: seq<Entry>)
    requires StrictlySorted(es)
    ensures DistinctKeys(es)
  {
    forall i, j | 0 <= i < j < |es| ensures es[i].key != es[j].key {
      LessIrreflexive(es[i].key);
    }
  }

  /** Sorting a drained table (each key once, with its record) gives its summary. */
  lemma SortedSummary(es: seq<Entry>, table: map<seq<byte>, Stats>)
    requires Lists(es, table)
    ensures Summarises(SortByKey(es), table)
  {
    var r := SortByKey(es);
    SortedDistinct(r);
    PermutationKeys(r, es);
    forall i | 0 <= i < |r| ensures r[i].key in table && r[i].stats == table[r[i].key] {
      var j := IndexOf(r[i], es);
      assert es[j].key in KeysOf(es);
    }
  }

  lemma TailSummarises(es: seq<Entry>, table: map<seq<byte>, Stats>)
    requires es != [] && Summarises(es, table)
    ensures Summarises(es[1..], table - {es[0].key})
  {
    var k := es[0].key;
    forall i | 0 <= i < |es[1..]| ensures es[1..][i].key != k {
      assert Less(k, es[i + 1].key);
      LessIrreflexive(k);
    }
    assert KeysOf(es[1..]) == KeysOf(es) - {k} by {
      forall x | x in KeysOf(es) && x != k ensures x in KeysOf(es[1..]) {
        var i :| 0 <= i < |es| && es[i].key == x;
        assert es[1..][i - 1] == es[i];
      }
    }
  }

  lemma KeysOfEmpty(es: seq<Entry>)
    ensures KeysOf(es) == {} <==> es == []
  {
    if es != [] {
      assert es[0].key in KeysOf(es);
    }
  }

  /**
   * The summary of a table is unique: whatever order the table is drained in,
   * sorting yields the same vector.
   */
  lemma {:induction false} SummaryUnique(a: seq<Entry>, b: seq<Entry>, table: map<seq<byte>, Stats>)
    requires Summarises(a, table) && Summarises(b, table)
    ensures a == b
    decreases |a|
  {
    KeysOfEmpty(a);
    KeysOfEmpty(b);
    if a != [] && b != [] {
      SameHead(a, b, table);
      TailSummarises(a, table);
      TailSummarises(b, table);
      SummaryUnique(a[1..], b[1..], table - {a[0].key});
      HeadTail(a);
      HeadTail(b);
    }
  }

  /** Two summaries of one table start with the same entry: the least key and its record. */
  lemma SameHead(a: seq<Entry>, b: seq<Entry>, table: map<seq<byte>, Stats>)
    requires a != [] && b != [] && Summarises(a, table) && Summarises(b, table)
    ensures a[0] == b[0]
  {
    var ka, kb := a[0].key, b[0].key;
    assert ka in KeysOf(a) && kb in KeysOf(b);
    var j :| 0 <= j < |b| && b[j].key == ka;
    var i :| 0 <= i < |a| && a[i].key == kb;
    if ka != kb {
      assert Less(ka, a[i].key) && Less(kb, b[j].key);
      LessAsymmetric(ka, kb);
    }
  }

  lemma HeadTail(s: seq<Entry>)
    requires s != []
    ensures s == [s[0]] + s[1..]
  {
  }
}
