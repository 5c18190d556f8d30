/**
 * The aggregation table of `read_mmap`: `map.entry(city).or_default().update(meas)`
 * once per line, as a function of the observations seen so far.
 */
module Aggregator {
  import opened Bytes
  import opened CityStats
  import opened Decoder
  import opened Scanner

  /** One parsed line: the key and its decoded (scaled) measurement. */
  datatype Observation = Observation(key: seq<byte>, value: int)

  /** The observations the loop feeds to the table, one per scanned line. */
  function Measure(lines: seq<Line>): seq<Observation>
  {
    seq(|lines|, i requires 0 <= i < |lines| => Observation(lines[i].key, Decode(lines[i].numeric)))
  }

  /** The record for `key`, or a default record when the key is absent (`or_default`). */
  function Lookup(table: map<seq<byte>, Stats>, key: seq<byte>): Stats
  {
    if key in table then table[key] else Default()
  }

  /** The table after observing `obs` in order, starting from the empty table. */
  function Aggregate(obs: seq<Observation>): map<seq<byte>, Stats>
  {
    if obs == [] then map[]
    else
      var table, o := Aggregate(obs[..|obs| - 1]), obs[|obs| - 1];
      table[o.key := Updated(Lookup(table, o.key), o.value)]
  }

  /** The measurements observed for `key`, in input order. */
  function ValuesOf(obs: seq<Observation>, key: seq<byte>): seq<int>
  {
    if obs == [] then []
    else
      var o := obs[|obs| - 1];
      ValuesOf(obs[..|obs| - 1], key) + (if o.key == key then [o.value] else [])
  }

  /** The keys that occur in `obs`. */
  function Keys(obs: seq<Observation>): set<seq<byte>>
  {
    set i | 0 <= i < |obs| :: obs[i].key
  }

  predicate ValuesInI16(obs: seq<Observation>)
  {
    forall i :: 0 <= i < |obs| ==> InI16(obs[i].value)
  }

  /**
   * Rust's `i32` sum and `u32` count never overflow: after every prefix of the
   * input, every record's running sum and count fit their widths.
   */
  predicate RunningTotalsFit(obs: seq<Observation>)
  {
    forall n | 0 <= n <= |obs| ::
      forall key | key in Aggregate(obs[..n]) ::
        InI32(Aggregate(obs[..n])[key].sum) && Aggregate(obs[..n])[key].count <= U32_MAX
  }

  /**
   * The table holds exactly the keys observed, and each key's record is the
   * fold of `update` over that key's measurements: none dropped, none counted twice.
   */
  lemma {:induction false} AggregateIsFold(obs: seq<Observation>, key: seq<byte>)
    ensures key in Aggregate(obs) <==> ValuesOf(obs, key) != []
    ensures Lookup(Aggregate(obs), key) == Fold(ValuesOf(obs, key))
  {
    if obs != [] {
      var init, o := obs[..|obs| - 1], obs[|obs| - 1];
      AggregateIsFold(init, key);
      var vs := ValuesOf(init, key);
      if o.key == key {
        assert ValuesOf(obs, key) == vs + [o.value];
        assert (vs + [o.value])[..|vs|] == vs;
      } else {
        assert ValuesOf(obs, key) == vs + [] == vs;
      }
    }
  }

  lemma {:induction false} ValuesOfOccurs(obs: seq<Observation>, key: seq<byte>)
    ensures ValuesOf(obs, key) != [] <==> key in Keys(obs)
  {
    if obs != [] {
      var init, o := obs[..|obs| - 1], obs[|obs| - 1];
      ValuesOfOccurs(init, key);
      assert Keys(obs) == Keys(init) + {o.key} by {
        forall k | k in Keys(obs) ensures k in Keys(init) + {o.key} {
          var i :| 0 <= i < |obs| && obs[i].key == k;
          if i < |init| {
            assert init[i] == obs[i];
          }
        }
        forall k | k in Keys(init) ensures k in Keys(obs) {
          var i :| 0 <= i < |init| && init[i].key == k;
          assert obs[i] == init[i];
        }
        assert o.key == obs[|obs| - 1].key;
      }
    }
  }

  /** The table's keys are exactly the keys of the input. */
  lemma AggregateKeys(obs: seq<Observation>)
    ensures Aggregate(obs).Keys == Keys(obs)
  {
    forall key | key in Aggregate(obs).Keys + Keys(obs)
      ensures key in Aggregate(obs).Keys <==> key in Keys(obs)
    {
      AggregateIsFold(obs, key);
      ValuesOfOccurs(obs, key);
    }
  }

  /** Every record in the table has seen at least one measurement; its minimum is at most its maximum. */
  lemma AggregateRecords(obs: seq<Observation>, key: seq<byte>)
    requires ValuesInI16(obs) && key in Aggregate(obs)
    ensures Aggregate(obs)[key].count >= 1
    ensures Aggregate(obs)[key].min <= Aggregate(obs)[key].max
  {
    AggregateIsFold(obs, key);
    ValuesOfInI16(obs, key);
    FoldSummarises(ValuesOf(obs, key));
    FoldBounds(ValuesOf(obs, key));
  }

  /** How often `v` is observed for `key` is how often the observation `(key, v)` occurs. */
  lemma {:induction false} ValuesOfCount(obs: seq<Observation>, key: seq<byte>, v: int)
    ensures multiset(ValuesOf(obs, key))[v] == multiset(obs)[Observation(key, v)]
  {
    if obs != [] {
      var init, o := obs[..|obs| - 1], obs[|obs| - 1];
      ValuesOfCount(init, key, v);
      assert obs == init + [o];
      assert multiset(obs) == multiset(init) + multiset{o};
    }
  }

  lemma ValuesOfInI16(obs: seq<Observation>, key: seq<byte>)
    requires ValuesInI16(obs)
    ensures AllInI16(ValuesOf(obs, key))
  {
    var vs := ValuesOf(obs, key);
    forall i | 0 <= i < |vs| ensures InI16(vs[i]) {
      ValuesOfCount(obs, key, vs[i]);
      assert vs[i] in multiset(vs);
      assert Observation(key, vs[i]) in multiset(obs);
      var j :| 0 <= j < |obs| && obs[j] == Observation(key, vs[i]);
    }
  }

  /**
   * Order independence: any permutation of the same observations yields the
   * same table (the same min, max, sum and count for every key).
   */
  lemma AggregatePermutation(obs: seq<Observation>, obs': seq<Observation>)
    requires multiset(obs) == multiset(obs') && ValuesInI16(obs)
    ensures Aggregate(obs) == Aggregate(obs')
  {
    forall key
      ensures key in Aggregate(obs) <==> key in Aggregate(obs')
      ensures key in Aggregate(obs) ==> Aggregate(obs)[key] == Aggregate(obs')[key]
    {
      SameRecord(obs, obs', key);
    }
  }

  /** A key's record is the same in two tables built from the same observations in any order. */
  lemma SameRecord(obs: seq<Observation>, obs': seq<Observation>, key: seq<byte>)
    requires multiset(obs) == multiset(obs') && ValuesInI16(obs)
    ensures key in Aggregate(obs) <==> key in Aggregate(obs')
    ensures Lookup(Aggregate(obs), key) == Lookup(Aggregate(obs'), key)
  {
    AggregateIsFold(obs, key);
    AggregateIsFold(obs', key);
    var vs, ws := ValuesOf(obs, key), ValuesOf(obs', key);
    SameValues(obs, obs', key);
    assert |vs| == |multiset(vs)| == |multiset(ws)| == |ws|;
    ValuesOfInI16(obs, key);
    FoldPermutation(vs, ws);
  }

  lemma SameValues(obs: seq<Observation>, obs': seq<Observation>, key: seq<byte>)
    requires multiset(obs) == multiset(obs')
    ensures multiset(ValuesOf(obs, key)) == multiset(ValuesOf(obs', key))
  {
    forall v ensures multiset(ValuesOf(obs, key))[v] == multiset(ValuesOf(obs', key))[v] {
      ValuesOfCount(obs, key, v);
      ValuesOfCount(obs', key, v);
    }
  }
}
