# 1BRC core, modelled in Dafny

The 1BRC program reads a file of `city;measurement\n` lines. Every
measurement has one decimal digit. For each city the program computes the
minimum, mean and maximum, and prints the cities in byte order. This project
models the library core of the Rust implementation, `rust/src/lib.rs`, and
proves what it computes:

- **`CityDetails`** (module `CityStats`, `city_details.dfy`) is the per-city
  record.
  - It holds `min`, `max` and `sum` scaled by ten, and a `count`, at the
    source's widths: `i16`, `i16`, `i32`, `u32`.
  - It is a class whose `Update` changes its fields in place, as `update`
    does.
  - Its value, `Stats`, is specified by `Default`, `Updated` and the
    left-to-right fold `Fold` over a list of measurements.
- **`parse_digits`** (module `Decoder`) is a loop.
  - It builds the value from the digit bytes and negates it when a `-`
    appears anywhere.
  - It is specified by `Decode`.
  - `Decode` is related to an independent positional reading of a
    well-formed measurement (`Format`, `Number`, `RealValue`).
- **The scanning loop** of `read_mmap` (module `Scanner`).
  - `Step` is one iteration: `memchr` for `;`, then for `\n`.
  - `ScanFrom`/`ScanAll` list the lines the loop visits, and say whether an
    `unwrap` on a missing delimiter stops it.
  - `Encode`/`Join` lay lines out as the input format.
- **The aggregation table** (module `Aggregator`).
  - `Aggregate` is the map that `map.entry(city).or_default().update(meas)`
    builds, as a function of the observations seen so far.
- **Draining and sorting** (module `Finalizer`).
  - `SortByKey` models sorting by key with `<[u8] as Ord>::cmp` (`Less`).
  - `Summarises` is the property of the returned vector: strictly sorted,
    the same keys as the table, the same records.
- **The two readers** (module `Reader`), `ReadMmap` and `ReadMmapUnsafe`.
  - Each has a `while` loop over a table of `CityDetails` objects, proved
    against the specification above.
  - The mapped file is the parameter `buf`.
  - The checked reader's panics (`unwrap` on a `memchr` that returns
    `None`) are an `Err` that carries the offset where the failing search
    started.

Two behaviours follow the code.

- A final line without `\n` is not accepted. The checked reader fails just
  after that line's `;` (`Scanner.UnterminatedLastLine`). The code has no
  end-of-buffer case for the numeric field.
- The scanner splits only on `;` in the key and `\n` in the value. A key that
  contains `\n` is read as part of the key (`Scanner.Readable`).

## Model

| member | source | states |
|---|---|---|
| CityStats.Default | rust/src/lib.rs:36-45 | the default record has min = `i16::MAX`, max = `i16::MIN`, sum 0, count 0 |
| CityStats.CityDetails.constructor | rust/src/lib.rs:36-45 | a new `CityDetails` holds those sentinel fields, i.e. the value `Default()` |
| CityStats.Updated | rust/src/lib.rs:60-69 | after `update(meas)`, min is the smaller of the old min and meas and is one of them; max likewise; sum grows by meas; count grows by one |
| CityStats.CityDetails.Update | rust/src/lib.rs:60-69 | the object's fields change in place to `Updated(old value, meas)`; the sum must fit an `i32` and the count a `u32` |
| CityStats.FoldSummarises | rust/src/lib.rs:21-34 | folding `update` over a non-empty list of `i16` values gives count = length, sum = the list's sum, and min/max that occur in the list and bound every element |
| CityStats.FoldBounds | rust/src/lib.rs:21-34 | for a non-empty fold, min ≤ max and min·count ≤ sum ≤ max·count (the mean lies between min and max) |
| CityStats.SumPermutation | rust/src/lib.rs:67 | the accumulated sum does not depend on the order of the measurements |
| CityStats.FoldPermutation | rust/src/lib.rs:60-69 | the record obtained by folding `update` depends only on the multiset of measurements, not on their order |
| Decoder.ParseDigits | rust/src/lib.rs:104-122 | the loop returns `Decode(bytes)`: the sign (−1 if any `-`) times the digits read left to right, when the digits fit an `i16` |
| Decoder.DecodeIgnoresOtherBytes | rust/src/lib.rs:117-118 | a byte that is neither a digit nor `-` can be inserted anywhere without changing the result |
| Decoder.DecodeFormat | rust/src/lib.rs:104-122 | on a well-formed text `[-]d…d.d`, the result is ±(whole·10 + tenth), which is exactly ten times the real value the text denotes |
| Decoder.DigitsValueIsNumber | rust/src/lib.rs:107-110 | the accumulator loop over all-digit bytes computes the positional decimal number |
| Scanner.Step | rust/src/lib.rs:142-147 | a successful iteration moves the cursor forward, within the buffer |
| Scanner.StepReadsOneLine | rust/src/lib.rs:142-147 | a successful iteration consumes exactly one encoded line, `key;numeric\n`, whose key has no `;` and whose value has no `\n` |
| Scanner.StepEncoded | rust/src/lib.rs:142-147 | on an encoded line the iteration reads back exactly that key and value and moves past its `\n` |
| Scanner.ScanJoin | rust/src/lib.rs:141-151 | on a run of encoded lines, the loop visits exactly those lines, in order, and then carries on after them |
| Scanner.ScanOfJoin | rust/src/lib.rs:141-151 | on a file made of encoded lines, the loop visits exactly those lines and ends without error |
| Scanner.ScanIsJoin | rust/src/lib.rs:141-151 | conversely, a scan that ends without error has consumed the file as a concatenation of the lines it visited |
| Scanner.UnterminatedLastLine | rust/src/lib.rs:145 | a final line without `\n` makes the scan fail just after its `;`, having visited all the lines before it |
| Scanner.MissingSemicolon | rust/src/lib.rs:142 | trailing bytes without any `;` make the scan fail at the start of that line, having visited all the lines before it |
| Scanner.EmptyBuffer | rust/src/lib.rs:141 | an empty file has no lines and no error |
| Aggregator.AggregateIsFold | rust/src/lib.rs:150 | a key is in the table iff it was observed, and its record is the fold of `update` over its values in file order |
| Aggregator.AggregateKeys | rust/src/lib.rs:150 | the table's keys are exactly the observed keys |
| Aggregator.AggregateRecords | rust/src/lib.rs:150 | every record in the table has count ≥ 1 and min ≤ max |
| Aggregator.AggregatePermutation | rust/src/lib.rs:150 | reordering the observations yields the same table |
| Finalizer.Insert | rust/src/lib.rs:154 | inserting an entry with a fresh key into a strictly sorted vector keeps it strictly sorted and adds just that entry |
| Finalizer.SortByKey | rust/src/lib.rs:154 | sorting entries with distinct keys gives a strictly sorted permutation of them |
| Finalizer.ListsAppend | rust/src/lib.rs:153 | appending a new key's entry to a listing of a table lists the table with that key added |
| Finalizer.SortedSummary | rust/src/lib.rs:153-154 | sorting a drained table lists every key once, in strictly increasing byte order, with its record |
| Finalizer.SummaryUnique | rust/src/lib.rs:153-154 | two vectors that both summarise the same table are equal, so the result is determined whatever the hash-map iteration order |
| Reader.NextLine | rust/src/lib.rs:142-147 | the two `memchr` calls on `mmap[city_start..]` and `mmap[numeric_start..]` compute `Step`, failing where an `unwrap` would panic |
| Reader.StepByMemChr | rust/src/lib.rs:142-147 | a `memchr` on a suffix slice, offset back to the whole buffer, is the search from that offset |
| Reader.NextLineUnchecked | rust/src/lib.rs:172-177 | where both delimiters are present, the `get_unchecked`/`unwrap_unchecked` search reads the same line and cursor as `Step` |
| Reader.Record | rust/src/lib.rs:150 | `entry(city).or_default().update(meas)`: only the city's record changes (a fresh default one if it was missing), and the table still mirrors the updated aggregate |
| Reader.UpdateHeld | rust/src/lib.rs:150 | an existing city's object takes in `meas`, and every other object keeps its record |
| Reader.Ingest | rust/src/lib.rs:149-150 | one iteration's `parse_digits` and update make the table mirror one more observation |
| Reader.Drain | rust/src/lib.rs:153 | `into_iter().collect()` lists every key of the table exactly once with the record its object holds |
| Reader.Finish | rust/src/lib.rs:153-155 | draining and sorting a table that mirrors `agg` returns a vector that summarises `agg`, and the empty vector for an empty table |
| Finalizer.SortedDistinct | rust/src/lib.rs:154 | strictly increasing keys are distinct, so each key occurs once in the sorted vector |
| Reader.ReadMmap | rust/src/lib.rs:134-156 | it succeeds iff every visited line has both delimiters; then the result is strictly sorted by key and holds exactly the file's keys, each with its aggregated record; otherwise the error is where the scan stops; an empty file gives an empty vector |
| Reader.ReadMmapUnsafe | rust/src/lib.rs:163-187 | on a file with no missing delimiter, the result summarises the file in the same way |
| Reader.ReadersAgree | rust/src/lib.rs:163-187 | on such a file the checked reader returns `Ok` of exactly what the unchecked reader returns |
| Reader.ObservationsOfJoin | rust/src/lib.rs:141-150 | on a file made of readable lines, observation `i` is line `i`'s key with ±(whole·10 + tenth), and that value is exactly ten times the real value of its well-formed measurement text |
| Reader.EmptySummary | rust/src/lib.rs:141 | an empty file builds an empty table |
| Reader.ObservationsInI16 | rust/src/lib.rs:104-122 | on a file whose digits fit, every decoded measurement is an `i16` |
| Reader.SummaryRecords | rust/src/lib.rs:134-156 | each returned record is the fold of `update` over its key's measurements in file order, with count ≥ 1 and min ≤ max |
| Reader.SummaryKeys | rust/src/lib.rs:134-156 | the returned keys are strictly increasing, and a key appears iff some line of the file has it |
| Bytes.MemChrFirst | rust/src/lib.rs:142 | `memchr` returns the first occurrence of the needle, or `None` iff it does not occur |
| Bytes.LessTotal | rust/src/lib.rs:154 | the byte order used to sort is total on distinct keys |
| Bytes.LessTransitive | rust/src/lib.rs:154 | the byte order used to sort is transitive |

## Left out

- `read_naive` is not modelled: it parses measurements as `f64`, and floating point is outside the model.
- The `Display` impl and `print` are not modelled: they format floats to standard output.
- `rust/src/main.rs` is not part of this model: it opens and memory-maps the file, does I/O and times the run. The mapped bytes are the parameter `buf`.
- `FxHashMap` hashing is not modelled. The table is a Dafny `map` from keys to objects, and its iteration order is left arbitrary (`Drain` picks keys with `:|`). The result does not depend on that order (`Finalizer.SummaryUnique`).
- `memchr` and `sort_unstable_by` are library code. They are modelled by their results: first occurrence, and a sorted permutation (an insertion sort), not by their algorithms.
- Borrowing is not modelled. Keys and fields are `&BStr` views into the mapping; here they are copies of the bytes (`seq<byte>`), which have no aliasing.
- Reader.ReadMmapUnsafe: requires that no delimiter is missing, because on other input the unchecked reads are undefined behaviour. There is no result to model.
- Reader.ReadMmap: requires `Fits(buf)`. The debug build panics on overflow and the release build wraps, and neither is modelled. `Fits` means that every `parse_digits` accumulator fits an `i16`, and every running sum an `i32` and count a `u32`. Valid 1BRC data (at most 99.9 in magnitude) always meets the first part. The `i32` sum can still overflow for a city with more than about 2.15 million readings near 99.9. That case is excluded, not modelled.
- Reader.ReadMmapUnsafe: requires `Fits(buf)` for the same reason.
- Decoder.ParseDigits: requires that the digits spell at most `i16::MAX`. The accumulator's overflow (a panic or a wrap) is not modelled.
- CityStats.CityDetails.Update: requires that sum + meas fits an `i32` and count + 1 a `u32`. It does not model overflow.
- Reader.ReadMmap: the panic of `.unwrap()` on a `memchr` that returns `None` is modelled as a returned `Err` holding the offset where that search started (the line start for `;`, the byte after `;` for `\n`), not as a process abort.
