/**
 * `read_mmap` and `read_mmap_unsafe`: walk the mapped file line by line with
 * `memchr`, feed each measurement to its city's record, then drain and sort.
 * The file contents are the parameter `buf`; the table is a map from keys to
 * `CityDetails` objects that the loop updates in place.
 */
module Reader {
  import opened Wrappers
  import opened Bytes
  import opened CityStats
  import opened Decoder
  import opened Scanner
  import opened Aggregator
  import opened Finalizer

  /** The observations the loop makes on `buf`: one per line read before the end or the first error. */
  function Observations(buf: seq<byte>): seq<Observation>
  {
    Measure(ScanAll(buf).lines)
  }

  /** The table that reading `buf` builds. */
  function Summary(buf: seq<byte>): map<seq<byte>, Stats>
  {
    Aggregate(Observations(buf))
  }

  /**
   * The arithmetic of the source does not overflow on `buf`: every
   * `parse_digits` accumulator fits an `i16`, every running sum an `i32` and
   * every count a `u32`.
   */
  predicate Fits(buf: seq<byte>)
  {
    var lines := ScanAll(buf).lines;
    && (forall i :: 0 <= i < |lines| ==> DigitsValue(lines[i].numeric) <= I16_MAX)
    && RunningTotalsFit(Measure(lines))
  }

  /**
   * The two `memchr` calls of one loop iteration, on the slices the source
   * hands them, read the same line (or fail at the same place) as `Step`.
   */
  lemma StepByMemChr(buf: seq<byte>, pos: nat)
    requires pos < |buf|
    ensures Step(buf, pos) ==
              match MemChr(SEMICOLON, buf[pos..])
              case None => Err(MissingFieldDelimiter(pos))
              case Some(i) =>
                match MemChr(NEWLINE, buf[pos + i + 1..])
                case None => Err(MissingLineDelimiter(pos + i + 1))
                case Some(j) => Ok((Line(buf[pos..pos + i], buf[pos + i + 1..pos + i + 1 + j]), pos + i + 1 + j + 1))
  {
    MemChrOfSuffix(SEMICOLON, buf, pos);
    var semi := MemChrFrom(SEMICOLON, buf, pos);
    if semi.Some? {
      MemChrOfSuffix(NEWLINE, buf, semi.value + 1);
    }
  }

  /** One step of the scan from `pos` consumes line `n` of the whole scan, or is where it stops. */
  lemma Advance(buf: seq<byte>, pos: nat, all: Scan, n: nat)
    requires pos < |buf| && n <= |all.lines|
    requires ScanFrom(buf, pos) == Scan(all.lines[n..], all.stop)
    ensures match Step(buf, pos)
            case Err(e) => all.stop == Some(e)
            case Ok((line, next)) =>
              n < |all.lines| && all.lines[n] == line && ScanFrom(buf, next) == Scan(all.lines[n + 1..], all.stop)
  {
    if Step(buf, pos).Ok? {
      var (line, next) := Step(buf, pos).value;
      ScanFromStep(buf, pos, line, next);
      assert all.lines[n..][0] == line;
      assert all.lines[n + 1..] == all.lines[n..][1..];
    }
  }

  /**
   * The delimiter search of one loop iteration: `memchr` for `;` from
   * `city_start`, then for `\n` after it; the key and the numeric field are
   * the bytes before each, and the next line starts after the `\n`. A search
   * that finds nothing is the `unwrap` that panics.
   */
  method NextLine(buf: seq<byte>, cityStart: nat) returns (r: Result<(Line, nat), ScanError>)
    requires cityStart < |buf|
    ensures r == Step(buf, cityStart)
  {
    StepByMemChr(buf, cityStart);
    var i := MemChr(SEMICOLON, buf[cityStart..]);
    if i.None? {
      return Err(MissingFieldDelimiter(cityStart));
    }
    var city := buf[cityStart..cityStart + i.value];
    var numericStart := cityStart + i.value + 1;
    var j := MemChr(NEWLINE, buf[numericStart..]);
    if j.None? {
      return Err(MissingLineDelimiter(numericStart));
    }
    var numeric := buf[numericStart..numericStart + j.value];
    return Ok((Line(city, numeric), numericStart + j.value + 1));
  }

  /**
   * The same search with `get_unchecked` and `unwrap_unchecked`: defined
   * only where both delimiters are present.
   */
  method NextLineUnchecked(buf: seq<byte>, cityStart: nat) returns (line: Line, next: nat)
    requires cityStart < |buf| && Step(buf, cityStart).Ok?
    ensures Step(buf, cityStart) == Ok((line, next))
  {
    StepByMemChr(buf, cityStart);
    var i := MemChr(SEMICOLON, buf[cityStart..]).value;
    var city := buf[cityStart..cityStart + i];
    var numericStart := cityStart + i + 1;
    var j := MemChr(NEWLINE, buf[numericStart..]).value;
    var numeric := buf[numericStart..numericStart + j];
    return Line(city, numeric), numericStart + j + 1;
  }

  lemma LineFits(buf: seq<byte>, all: Scan, n: nat)
    requires Fits(buf) && all == ScanAll(buf) && n < |all.lines|
    ensures DigitsValue(all.lines[n].numeric) <= I16_MAX
  {
  }

  /** The running totals after observation `n` fit, so `update` does not overflow on it. */
  lemma TotalsFitStep(obs: seq<Observation>, n: nat)
    requires RunningTotalsFit(obs) && n < |obs|
    ensures var r := Lookup(Aggregate(obs[..n]), obs[n].key);
            InI32(r.sum + obs[n].value) && r.count < U32_MAX
  {
    AggregateStep(obs, n);
    assert obs[n].key in Aggregate(obs[..n + 1]);
  }

  /** One more observation updates one record of the table and leaves the rest. */
  lemma AggregateStep(obs: seq<Observation>, n: nat)
    requires n < |obs|
    ensures Aggregate(obs[..n + 1]) ==
              Aggregate(obs[..n])[obs[n].key := Updated(Lookup(Aggregate(obs[..n]), obs[n].key), obs[n].value)]
  {
    assert obs[..n + 1][..n] == obs[..n];
  }

  /** The records the table's objects hold. */
  function Records(table: map<seq<byte>, CityDetails>): (m: map<seq<byte>, Stats>)
    reads table.Values
    ensures m.Keys == table.Keys
  {
    map k | k in table :: table[k].Value()
  }

  lemma RestoreKey(records: map<seq<byte>, Stats>, keys: set<seq<byte>>, k: seq<byte>)
    requires k in keys && k in records
    ensures (records - keys)[k := records[k]] == records - (keys - {k})
  {
  }

  /**
   * `map.into_iter().collect::<Vec<_>>()`: every key of the table once,
   * with the record its object holds, in an unspecified order.
   */
  method Drain(table: map<seq<byte>, CityDetails>) returns (es: seq<Entry>)
    ensures Lists(es, Records(table))
  {
    ghost var records := Records(table);
    es := [];
    var rest := table;
    while rest.Keys != {}
      invariant rest.Keys <= table.Keys
      invariant forall k :: k in rest ==> rest[k] == table[k]
      invariant Lists(es, records - rest.Keys)
      decreases rest.Keys
    {
      var k :| k in rest.Keys;
      var e := Entry(k, rest[k].Value());
      ListsAppend(es, e, records - rest.Keys);
      RestoreKey(records, rest.Keys, k);
      es := es + [e];
      rest := rest - {k};
    }
    assert records - {} == records;
  }

  /**
   * The table of objects holds, key for key, the records of `agg`, each in an
   * object of its own.
   */
  predicate Mirrors(table: map<seq<byte>, CityDetails>, agg: map<seq<byte>, Stats>)
    reads table.Values
  {
    && table.Keys == agg.Keys
    && (forall k :: k in table ==> table[k].Value() == agg[k])
    && Separate(table)
  }

  /** No two keys share one object. */
  predicate Separate(table: map<seq<byte>, CityDetails>)
  {
    forall k, k' :: k in table && k' in table && k != k' ==> table[k] != table[k']
  }

  lemma MirrorsRecords(table: map<seq<byte>, CityDetails>, agg: map<seq<byte>, Stats>)
    requires Mirrors(table, agg)
    ensures Records(table) == agg
  {
  }

  /**
   * `map.entry(city).or_default().update(meas)`: the record of `city`, a fresh
   * default one if it had none, takes in `meas`; no other record changes.
   */
  method Record(table: map<seq<byte>, CityDetails>, city: seq<byte>, meas: i16, ghost agg: map<seq<byte>, Stats>)
    returns (table': map<seq<byte>, CityDetails>)
    requires Mirrors(table, agg)
    requires InI32(Lookup(agg, city).sum + meas as int) && Lookup(agg, city).count < U32_MAX
    modifies if city in table then {table[city]} else {}
    ensures Mirrors(table', agg[city := Updated(Lookup(agg, city), meas as int)])
    ensures forall k :: k in table' ==> (k in table && table'[k] == table[k]) || fresh(table'[k])
  {
    if city in table {
      table' := table;
      UpdateHeld(table, city, meas, agg);
    } else {
      var details := new CityDetails();
      details.Update(meas);
      table' := table[city := details];
      MirrorsAdd(table, agg, city, details);
    }
  }

  /** The existing record of `city` takes in `meas`; the others keep theirs. */
  method UpdateHeld(table: map<seq<byte>, CityDetails>, city: seq<byte>, meas: i16, ghost agg: map<seq<byte>, Stats>)
    requires Mirrors(table, agg) && city in table
    requires InI32(agg[city].sum + meas as int) && agg[city].count < U32_MAX
    modifies table[city]
    ensures Mirrors(table, agg[city := Updated(agg[city], meas as int)])
  {
    var details := table[city];
    ghost var agg' := agg[city := Updated(agg[city], meas as int)];
    details.Update(meas);
    forall k | k in table ensures table[k].Value() == agg'[k] {
      if k != city {
        assert table[k] != details;
      }
    }
  }

  /** A table that mirrors `agg` still does with one more key bound to an object of its own. */
  lemma MirrorsAdd(table: map<seq<byte>, CityDetails>, agg: map<seq<byte>, Stats>, city: seq<byte>, details: CityDetails)
    requires Mirrors(table, agg) && city !in table && details !in table.Values
    ensures Mirrors(table[city := details], agg[city := details.Value()])
  {
  }

  /**
   * The end of both readers: the table drained into a vector and sorted by
   * key, `sort_unstable_by(|a, b| a.0.cmp(b.0))`.
   */
  method Finish(table: map<seq<byte>, CityDetails>, ghost agg: map<seq<byte>, Stats>) returns (r: seq<Entry>)
    requires Mirrors(table, agg)
    ensures Summarises(r, agg)
    ensures agg == map[] ==> r == []
  {
    MirrorsRecords(table, agg);
    var es := Drain(table);
    SortedSummary(es, agg);
    r := SortByKey(es);
    KeysOfEmpty(r);
  }

  /** An empty file has an empty summary. */
  lemma EmptySummary(buf: seq<byte>)
    ensures buf == [] ==> Summary(buf) == map[]
  {
    if buf == [] {
      EmptyBuffer();
    }
  }

  /**
   * The end of one iteration, `let meas = parse_digits(numeric);` then
   * `map.entry(city).or_default().update(meas)`: the table now mirrors one
   * more observation.
   */
  method Ingest(table: map<seq<byte>, CityDetails>, city: seq<byte>, numeric: seq<byte>, ghost obs: seq<Observation>, ghost n: nat)
    returns (table': map<seq<byte>, CityDetails>)
    requires n < |obs| && obs[n] == Observation(city, Decode(numeric))
    requires DigitsValue(numeric) <= I16_MAX && RunningTotalsFit(obs)
    requires Mirrors(table, Aggregate(obs[..n]))
    modifies table.Values
    ensures Mirrors(table', Aggregate(obs[..n + 1]))
    ensures forall k :: k in table' ==> (k in table && table'[k] == table[k]) || fresh(table'[k])
  {
    var meas := ParseDigits(numeric);
    TotalsFitStep(obs, n);
    AggregateStep(obs, n);
    table' := Record(table, city, meas, Aggregate(obs[..n]));
  }

  /**
   * `read_mmap`: on a file whose every line is `key;numeric\n` the result is
   * the sorted summary of the file; otherwise the `unwrap` of the first
   * `memchr` that finds nothing panics, here the error of that position.
   */
  method ReadMmap(buf: seq<byte>) returns (r: Result<seq<Entry>, ScanError>)
    requires Fits(buf)
    ensures r.Ok? <==> ScanAll(buf).stop == None
    ensures r.Ok? ==> Summarises(r.value, Summary(buf))
    ensures r.Err? ==> ScanAll(buf).stop == Some(r.error)
    ensures buf == [] ==> r == Ok([])
  {
    ghost var all := ScanAll(buf);
    ghost var obs := Observations(buf);
    ghost var n := 0;
    var table: map<seq<byte>, CityDetails> := map[];
    var cityStart := 0;
    while cityStart < |buf|
      invariant cityStart <= |buf| && n <= |all.lines|
      invariant ScanFrom(buf, cityStart) == Scan(all.lines[n..], all.stop)
      invariant Mirrors(table, Aggregate(obs[..n]))
      invariant forall k :: k in table ==> fresh(table[k])
      decreases |buf| - cityStart
    {
      var step := NextLine(buf, cityStart);
      Advance(buf, cityStart, all, n);
      if step.Err? {
        return Err(step.error);
      }
      var (line, next) := step.value;
      var city, numeric := line.key, line.numeric;
      cityStart := next;
      LineFits(buf, all, n);
      table := Ingest(table, city, numeric, obs, n);
      n := n + 1;
    }
    assert all.lines[n..] == [] && all.stop == None;
    assert obs[..n] == obs;
    EmptySummary(buf);
    var es := Finish(table, Summary(buf));
    return Ok(es);
  }

  /**
   * `read_mmap_unsafe`: sound only on a file with no missing delimiter, where
   * it returns the sorted summary of the file.
   */
  method ReadMmapUnsafe(buf: seq<byte>) returns (r: seq<Entry>)
    requires Fits(buf) && ScanAll(buf).stop == None
    ensures Summarises(r, Summary(buf))
  {
    ghost var all := ScanAll(buf);
    ghost var obs := Observations(buf);
    ghost var n := 0;
    var table: map<seq<byte>, CityDetails> := map[];
    var cityStart := 0;
    while cityStart < |buf|
      invariant cityStart <= |buf| && n <= |all.lines|
      invariant ScanFrom(buf, cityStart) == Scan(all.lines[n..], all.stop)
      invariant Mirrors(table, Aggregate(obs[..n]))
      invariant forall k :: k in table ==> fresh(table[k])
      decreases |buf| - cityStart
    {
      Advance(buf, cityStart, all, n);
      var line, next := NextLineUnchecked(buf, cityStart);
      var city, numeric := line.key, line.numeric;
      cityStart := next;
      LineFits(buf, all, n);
      table := Ingest(table, city, numeric, obs, n);
      n := n + 1;
    }
    assert all.lines[n..] == [];
    assert obs[..n] == obs;
    r := Finish(table, Summary(buf));
  }

  /** On a file with every delimiter present, the checked and the unchecked readers agree. */
  method ReadersAgree(buf: seq<byte>) returns (checked: Result<seq<Entry>, ScanError>, unchecked: seq<Entry>)
    requires Fits(buf) && ScanAll(buf).stop == None
    ensures checked == Ok(unchecked)
  {
    checked := ReadMmap(buf);
    unchecked := ReadMmapUnsafe(buf);
    SummaryUnique(checked.value, unchecked, Summary(buf));
  }

  /**
   * From file to observations: on a file made of readable lines, the `i`-th
   * observation is the `i`-th line's key with ten times the real value of a
   * well-formed measurement text.
   */
  lemma ObservationsOfJoin(lines: seq<Line>, i: nat, negative: bool, whole: seq<byte>, tenth: byte)
    requires AllReadable(lines) && i < |lines|
    requires WellFormedMeasurement(negative, whole, tenth) && lines[i].numeric == Format(negative, whole, tenth)
    ensures |Observations(Join(lines))| == |lines|
    ensures Observations(Join(lines))[i] == Observation(lines[i].key, (if negative then -1 else 1) * (Number(whole) * 10 + (tenth - ZERO) as int))
    ensures Observations(Join(lines))[i].value as real == 10.0 * RealValue(negative, whole, tenth)
  {
    ScanOfJoin(lines);
    DecodeFormat(negative, whole, tenth);
  }

  /** Every decoded measurement of a file that fits lies in the `i16` range. */
  lemma ObservationsInI16(buf: seq<byte>)
    requires Fits(buf)
    ensures ValuesInI16(Observations(buf))
  {
    var lines := ScanAll(buf).lines;
    forall i | 0 <= i < |lines| ensures InI16(Decode(lines[i].numeric)) {
      assert DigitsValue(lines[i].numeric) <= I16_MAX;
    }
  }

  /**
   * The records of the returned vector: each is the fold of `update` over
   * its key's measurements in file order, with a count of at least one and
   * a minimum no larger than the maximum.
   */
  lemma SummaryRecords(buf: seq<byte>, es: seq<Entry>)
    requires Fits(buf) && Summarises(es, Summary(buf))
    ensures forall i :: 0 <= i < |es| ==>
              es[i].stats == Fold(ValuesOf(Observations(buf), es[i].key))
              && es[i].stats.count >= 1 && es[i].stats.min <= es[i].stats.max
  {
    var obs := Observations(buf);
    ObservationsInI16(buf);
    forall i | 0 <= i < |es|
      ensures es[i].stats == Fold(ValuesOf(obs, es[i].key)) && es[i].stats.count >= 1 && es[i].stats.min <= es[i].stats.max
    {
      AggregateIsFold(obs, es[i].key);
      AggregateRecords(obs, es[i].key);
    }
  }

  /**
   * The keys of the returned vector: exactly the keys of the lines read,
   * each once, in increasing byte order.
   */
  lemma SummaryKeys(buf: seq<byte>, es: seq<Entry>)
    requires Summarises(es, Summary(buf))
    ensures forall i, j :: 0 <= i < j < |es| ==> Less(es[i].key, es[j].key)
    ensures forall k :: k in KeysOf(es) <==> exists l :: l in ScanAll(buf).lines && l.key == k
  {
    var obs := Observations(buf);
    var lines := ScanAll(buf).lines;
    AggregateKeys(obs);
    assert KeysOf(es) == Keys(obs);
    forall k | k in KeysOf(es) ensures exists l :: l in lines && l.key == k {
      var m :| 0 <= m < |obs| && obs[m].key == k;
      assert lines[m] in lines;
    }
    forall k | exists l :: l in lines && l.key == k ensures k in KeysOf(es) {
      var l :| l in lines && l.key == k;
      var m :| 0 <= m < |lines| && lines[m] == l;
      assert obs[m].key == k;
    }
  }
}
