/**
 * What the scanning loop of `read_mmap` sees: from the cursor `city_start`,
 * the key runs to the first `;`, the numeric field from there to the first
 * `\n`, and the cursor moves past that `\n`.
 */
module Scanner {
  import opened Wrappers
  import opened Bytes

  datatype Line = Line(key: seq<byte>, numeric: seq<byte>)

  /**
   * Why the checked reader panics (`unwrap` on `memchr`'s `None`): no `;` from
   * the start of a line, or no `\n` after the field delimiter.  Offsets are
   * into the whole buffer.
   */
  datatype ScanError =
    | MissingFieldDelimiter(lineStart: nat)
    | MissingLineDelimiter(numericStart: nat)

  /** The lines scanned from some offset on, and the error that stopped the scan, if any. */
  datatype Scan = Scan(lines: seq<Line>, stop: Option<ScanError>)

  /**
   * One iteration of the loop at cursor `pos`: the line found and where the
   * cursor moves, or the failure.  `memchr` on `buf[pos..]` is the search
   * from `pos` (`MemChrOfSuffix`), so offsets here are absolute.
   */
  function Step(buf: seq<byte>, pos: nat): (r: Result<(Line, nat), ScanError>)
    requires pos < |buf|
    ensures r.Ok? ==> pos < r.value.1 <= |buf|
  {
    match MemChrFrom(SEMICOLON, buf, pos)
    case None => Err(MissingFieldDelimiter(pos))
    case Some(semi) =>
      match MemChrFrom(NEWLINE, buf, semi + 1)
      case None => Err(MissingLineDelimiter(semi + 1))
      case Some(nl) => Ok((Line(buf[pos..semi], buf[semi + 1..nl]), nl + 1))
  }

  /** All the lines the loop visits from cursor `pos` until the cursor reaches the end or a step fails. */
  function ScanFrom(buf: seq<byte>, pos: nat): Scan
    requires pos <= |buf|
    decreases |buf| - pos
  {
    if pos == |buf| then Scan([], None)
    else match Step(buf, pos)
      case Err(e) => Scan([], Some(e))
      case Ok((line, next)) =>
        var rest := ScanFrom(buf, next);
        Scan([line] + rest.lines, rest.stop)
  }

  function ScanAll(buf: seq<byte>): Scan
  {
    ScanFrom(buf, 0)
  }

  /** The scan from `pos` is the line `Step` reads there followed by the scan from where it moves. */
  lemma ScanFromStep(buf: seq<byte>, pos: nat, line: Line, next: nat)
    requires pos < |buf| && Step(buf, pos) == Ok((line, next))
    ensures ScanFrom(buf, pos) == Scan([line] + ScanFrom(buf, next).lines, ScanFrom(buf, next).stop)
  {
  }

  // The input format: a concatenation of `key;value\n` lines.

  function Encode(line: Line): seq<byte>
  {
    line.key + [SEMICOLON] + line.numeric + [NEWLINE]
  }

  function Join(lines: seq<Line>): seq<byte>
  {
    if lines == [] then [] else Encode(lines[0]) + Join(lines[1..])
  }

  /**
   * What the scanner needs of a line to read it back: no `;` in the key and
   * no `\n` in the value.  (A `\n` in a key is read as part of the key.)
   */
  predicate Readable(line: Line)
  {
    SEMICOLON !in line.key && NEWLINE !in line.numeric
  }

  predicate AllReadable(lines: seq<Line>)
  {
    forall i :: 0 <= i < |lines| ==> Readable(lines[i])
  }

  /** A successful step has read one readable line and nothing else. */
  lemma StepReadsOneLine(buf: seq<byte>, pos: nat)
    requires pos < |buf| && Step(buf, pos).Ok?
    ensures var (line, next) := Step(buf, pos).value;
            Readable(line) && buf[pos..next] == Encode(line)
  {
    var semi := MemChrFrom(SEMICOLON, buf, pos).value;
    var nl := MemChrFrom(NEWLINE, buf, semi + 1).value;
    MemChrFromFirst(SEMICOLON, buf, pos);
    MemChrFromFirst(NEWLINE, buf, semi + 1);
    var line := Line(buf[pos..semi], buf[semi + 1..nl]);
    Pieces(buf, pos, semi, nl);
    FieldFree(SEMICOLON, buf, pos, semi);
    FieldFree(NEWLINE, buf, semi + 1, nl);
  }

  /** A slice cut at a `;` and a `\n` is the encoding of the two fields between them. */
  lemma Pieces(buf: seq<byte>, pos: nat, semi: nat, nl: nat)
    requires pos <= semi < nl < |buf| && buf[semi] == SEMICOLON && buf[nl] == NEWLINE
    ensures buf[pos..nl + 1] == buf[pos..semi] + [SEMICOLON] + buf[semi + 1..nl] + [NEWLINE]
  {
    var whole, key, numeric := buf[pos..nl + 1], buf[pos..semi], buf[semi + 1..nl];
    var pieced := key + [SEMICOLON] + numeric + [NEWLINE];
    assert |whole| == |pieced|;
    forall x | 0 <= x < |whole| ensures whole[x] == pieced[x] {
      assert whole[x] == buf[pos + x];
    }
  }

  /** A slice the search runs through without a match holds no `delim`. */
  lemma FieldFree(delim: byte, buf: seq<byte>, from: nat, to: nat)
    requires from <= to <= |buf| && forall j :: from <= j < to ==> buf[j] != delim
    ensures delim !in buf[from..to]
  {
    forall x | 0 <= x < to - from ensures buf[from..to][x] != delim {
      assert buf[from..to][x] == buf[from + x];
    }
  }

  /** Where the buffer holds an encoded readable line, one step reads that line back and moves past it. */
  lemma StepEncoded(buf: seq<byte>, pos: nat, line: Line)
    requires Readable(line)
    requires pos + |Encode(line)| <= |buf| && buf[pos..pos + |Encode(line)|] == Encode(line)
    ensures Step(buf, pos) == Ok((line, pos + |Encode(line)|))
  {
    EncodedParts(buf, pos, line);
    StepAt(buf, pos, line);
  }

  /** The bytes of an encoded line in the buffer: key, `;`, numeric field, `\n`. */
  lemma EncodedParts(buf: seq<byte>, pos: nat, line: Line)
    requires pos + |Encode(line)| <= |buf| && buf[pos..pos + |Encode(line)|] == Encode(line)
    ensures var semi, nl := pos + |line.key|, pos + |line.key| + 1 + |line.numeric|;
            && nl < |buf| && |Encode(line)| == nl + 1 - pos
            && buf[pos..semi] == line.key && buf[semi] == SEMICOLON
            && buf[semi + 1..nl] == line.numeric && buf[nl] == NEWLINE
  {
    var enc := Encode(line);
    var k, n := |line.key|, |line.numeric|;
    EncodeFields(line);
    SubSlice(buf, pos, |enc|, 0, k);
    SubSlice(buf, pos, |enc|, k + 1, k + 1 + n);
    assert buf[pos + k] == buf[pos..pos + |enc|][k];
    assert buf[pos + k + 1 + n] == buf[pos..pos + |enc|][k + 1 + n];
  }

  lemma EncodeFields(line: Line)
    ensures var enc, k, n := Encode(line), |line.key|, |line.numeric|;
            && |enc| == k + 1 + n + 1
            && enc[..k] == line.key && enc[k] == SEMICOLON
            && enc[k + 1..k + 1 + n] == line.numeric && enc[k + 1 + n] == NEWLINE
  {
  }

  lemma SubSlice(buf: seq<byte>, pos: nat, len: nat, i: nat, j: nat)
    requires pos + len <= |buf| && i <= j <= len
    ensures buf[pos + i..pos + j] == buf[pos..pos + len][i..j]
  {
    var a, b := buf[pos + i..pos + j], buf[pos..pos + len][i..j];
    forall x | 0 <= x < |a| ensures a[x] == b[x] {
      assert b[x] == buf[pos..pos + len][i + x];
    }
  }

  lemma StepAt(buf: seq<byte>, pos: nat, line: Line)
    requires Readable(line)
    requires var semi, nl := pos + |line.key|, pos + |line.key| + 1 + |line.numeric|;
             && nl < |buf|
             && buf[pos..semi] == line.key && buf[semi] == SEMICOLON
             && buf[semi + 1..nl] == line.numeric && buf[nl] == NEWLINE
    ensures Step(buf, pos) == Ok((line, pos + |line.key| + 1 + |line.numeric| + 1))
  {
    var semi := pos + |line.key|;
    FieldEnds(SEMICOLON, buf, pos, line.key);
    FieldEnds(NEWLINE, buf, semi + 1, line.numeric);
  }

  /** A field free of `delim` followed by `delim` ends where the search from its start stops. */
  lemma FieldEnds(delim: byte, buf: seq<byte>, pos: nat, field: seq<byte>)
    requires delim !in field
    requires pos + |field| < |buf| && buf[pos..pos + |field|] == field && buf[pos + |field|] == delim
    ensures MemChrFrom(delim, buf, pos) == Some(pos + |field|)
  {
    forall j | pos <= j < pos + |field| ensures buf[j] != delim {
      assert buf[j] == field[j - pos];
    }
    MemChrFromAt(delim, buf, pos, pos + |field|);
  }

  lemma SliceSplit(buf: seq<byte>, pos: nat, a: seq<byte>, b: seq<byte>)
    requires pos + |a| + |b| <= |buf| && buf[pos..pos + |a| + |b|] == a + b
    ensures buf[pos..pos + |a|] == a
    ensures buf[pos + |a|..pos + |a| + |b|] == b
  {
    assert buf[pos..pos + |a|] == buf[pos..pos + |a| + |b|][..|a|];
    assert buf[pos + |a|..pos + |a| + |b|] == buf[pos..pos + |a| + |b|][|a|..];
  }

  lemma ConsAppend<T>(xs: seq<T>, ys: seq<T>)
    requires xs != []
    ensures xs + ys == [xs[0]] + (xs[1..] + ys)
  {
  }

  /** The buffer holds the readable `lines`, encoded one after another, from `pos` on. */
  predicate LaidOut(buf: seq<byte>, pos: nat, lines: seq<Line>)
    decreases lines
  {
    lines == [] ||
    (Readable(lines[0]) && pos + |Encode(lines[0])| <= |buf|
     && buf[pos..pos + |Encode(lines[0])|] == Encode(lines[0])
     && LaidOut(buf, pos + |Encode(lines[0])|, lines[1..]))
  }

  /** The first of the encoded lines lies at `pos`, the rest right after it. */
  lemma JoinFirst(buf: seq<byte>, pos: nat, lines: seq<Line>)
    requires lines != [] && AllReadable(lines)
    requires pos + |Join(lines)| <= |buf| && buf[pos..pos + |Join(lines)|] == Join(lines)
    ensures var next := pos + |Encode(lines[0])|;
            && Readable(lines[0]) && AllReadable(lines[1..])
            && next <= |buf| && buf[pos..next] == Encode(lines[0])
            && next + |Join(lines[1..])| <= |buf| && buf[next..next + |Join(lines[1..])|] == Join(lines[1..])
  {
    var line, more := lines[0], lines[1..];
    var a, b := Encode(line), Join(more);
    assert Join(lines) == a + b;
    SliceSplit(buf, pos, a, b);
    assert Readable(line) && AllReadable(more) by {
      assert lines[0] == line;
      forall i | 0 <= i < |more| ensures Readable(more[i]) {
        assert more[i] == lines[i + 1];
      }
    }
  }

  /** Readable lines joined in the buffer from `pos` on are laid out one after another. */
  lemma {:induction false} JoinLaidOut(buf: seq<byte>, pos: nat, lines: seq<Line>)
    requires AllReadable(lines)
    requires pos + |Join(lines)| <= |buf| && buf[pos..pos + |Join(lines)|] == Join(lines)
    ensures LaidOut(buf, pos, lines)
    decreases lines
  {
    if lines != [] {
      JoinFirst(buf, pos, lines);
      JoinLaidOut(buf, pos + |Encode(lines[0])|, lines[1..]);
    }
  }

  /**
   * Where the buffer holds `lines` laid out from `pos` on, the scan from `pos`
   * visits exactly `lines`, in order, and then carries on after them.
   */
  lemma {:induction false} ScanLaidOut(buf: seq<byte>, pos: nat, lines: seq<Line>)
    requires pos + |Join(lines)| <= |buf| && LaidOut(buf, pos, lines)
    ensures var rest := ScanFrom(buf, pos + |Join(lines)|);
            ScanFrom(buf, pos) == Scan(lines + rest.lines, rest.stop)
    decreases lines
  {
    var end := pos + |Join(lines)|;
    var rest := ScanFrom(buf, end);
    if lines == [] {
      assert end == pos;
      assert lines + rest.lines == rest.lines;
      assert rest == Scan(rest.lines, rest.stop);
    } else {
      var line, more := lines[0], lines[1..];
      var next := pos + |Encode(line)|;
      assert Join(lines) == Encode(line) + Join(more);
      assert Readable(line) && buf[pos..next] == Encode(line) && LaidOut(buf, next, more);
      StepEncoded(buf, pos, line);
      ScanFromStep(buf, pos, line, next);
      assert next + |Join(more)| == end;
      ScanLaidOut(buf, next, more);
      var after := ScanFrom(buf, next);
      assert after == Scan(more + rest.lines, rest.stop);
      ConsAppend(lines, rest.lines);
      assert ScanFrom(buf, pos) == Scan([line] + after.lines, after.stop);
    }
  }

  /**
   * Where the buffer holds `Join(lines)` from `pos` on, the scan from `pos`
   * visits exactly `lines`, in order, and then carries on after them.
   */
  lemma ScanJoin(buf: seq<byte>, pos: nat, lines: seq<Line>)
    requires AllReadable(lines)
    requires pos + |Join(lines)| <= |buf| && buf[pos..pos + |Join(lines)|] == Join(lines)
    ensures var rest := ScanFrom(buf, pos + |Join(lines)|);
            ScanFrom(buf, pos) == Scan(lines + rest.lines, rest.stop)
  {
    JoinLaidOut(buf, pos, lines);
    ScanLaidOut(buf, pos, lines);
  }

  /** A buffer made of readable lines is scanned back into exactly those lines, without error. */
  lemma ScanOfJoin(lines: seq<Line>)
    requires AllReadable(lines)
    ensures ScanAll(Join(lines)) == Scan(lines, None)
  {
    var buf := Join(lines);
    assert buf[0..|buf|] == buf;
    ScanJoin(buf, 0, lines);
    assert lines + [] == lines;
  }

  /** Conversely, a scan that ends without error has consumed a concatenation of readable lines. */
  lemma {:induction false} ScanIsJoin(buf: seq<byte>, pos: nat)
    requires pos <= |buf| && ScanFrom(buf, pos).stop == None
    ensures AllReadable(ScanFrom(buf, pos).lines)
    ensures Join(ScanFrom(buf, pos).lines) == buf[pos..]
    decreases |buf| - pos
  {
    if pos < |buf| {
      var (line, next) := Step(buf, pos).value;
      ScanFromStep(buf, pos, line, next);
      StepReadsOneLine(buf, pos);
      ScanIsJoin(buf, next);
      var more := ScanFrom(buf, next).lines;
      JoinCons(line, more);
      SuffixSplit(buf, pos, next);
    }
  }

  lemma JoinCons(line: Line, more: seq<Line>)
    ensures Join([line] + more) == Encode(line) + Join(more)
    ensures Readable(line) && AllReadable(more) ==> AllReadable([line] + more)
  {
    assert ([line] + more)[1..] == more;
  }

  lemma SuffixSplit(buf: seq<byte>, pos: nat, next: nat)
    requires pos <= next <= |buf|
    ensures buf[pos..] == buf[pos..next] + buf[next..]
  {
  }

  /** At a line holding a `;` but no `\n` after it, the step fails just after the `;`. */
  lemma StepUnterminated(buf: seq<byte>, pos: nat, key: seq<byte>, numeric: seq<byte>)
    requires pos <= |buf| && buf[pos..] == key + [SEMICOLON] + numeric
    requires SEMICOLON !in key && NEWLINE !in numeric
    ensures pos < |buf| && Step(buf, pos) == Err(MissingLineDelimiter(pos + |key| + 1))
  {
    var t := buf[pos..];
    assert forall j :: 0 <= j < |t| ==> buf[pos + j] == t[j];
    assert forall j :: 0 <= j < |key| ==> t[j] == key[j];
    assert t[|key|] == SEMICOLON;
    MemChrFromAt(SEMICOLON, buf, pos, pos + |key|);
    assert forall j :: |key| + 1 <= j < |t| ==> t[j] == numeric[j - |key| - 1];
    MemChrFromNone(NEWLINE, buf, pos + |key| + 1);
  }

  /** A buffer that starts with readable lines is scanned as those lines first. */
  lemma ScanJoinPrefix(buf: seq<byte>, lines: seq<Line>)
    requires AllReadable(lines)
    requires |Join(lines)| <= |buf| && buf[..|Join(lines)|] == Join(lines)
    ensures var rest := ScanFrom(buf, |Join(lines)|);
            ScanAll(buf) == Scan(lines + rest.lines, rest.stop)
  {
    assert buf[0..|Join(lines)|] == Join(lines);
    ScanJoin(buf, 0, lines);
  }

  /** The bytes after a prefix. */
  lemma Halves(pre: seq<byte>, tail: seq<byte>)
    ensures (pre + tail)[..|pre|] == pre && (pre + tail)[|pre|..] == tail
  {
  }

  /** A final line without its `\n` makes the checked scan fail just after its `;`. */
  lemma UnterminatedLastLine(lines: seq<Line>, key: seq<byte>, numeric: seq<byte>)
    requires AllReadable(lines) && SEMICOLON !in key && NEWLINE !in numeric
    ensures var s := ScanAll(Join(lines) + (key + [SEMICOLON] + numeric));
            s.lines == lines && s.stop == Some(MissingLineDelimiter(|Join(lines)| + |key| + 1))
  {
    var tail := key + [SEMICOLON] + numeric;
    var buf := Join(lines) + tail;
    Halves(Join(lines), tail);
    ScanJoinPrefix(buf, lines);
    UnterminatedFrom(buf, |Join(lines)|, key, numeric);
    assert lines + [] == lines;
  }

  lemma UnterminatedFrom(buf: seq<byte>, p: nat, key: seq<byte>, numeric: seq<byte>)
    requires p <= |buf| && buf[p..] == key + [SEMICOLON] + numeric
    requires SEMICOLON !in key && NEWLINE !in numeric
    ensures ScanFrom(buf, p) == Scan([], Some(MissingLineDelimiter(p + |key| + 1)))
  {
    StepUnterminated(buf, p, key, numeric);
  }

  /** Trailing bytes without any `;` make the checked scan fail at the start of that last line. */
  lemma MissingSemicolon(lines: seq<Line>, tail: seq<byte>)
    requires AllReadable(lines) && tail != [] && SEMICOLON !in tail
    ensures var s := ScanAll(Join(lines) + tail);
            s.lines == lines && s.stop == Some(MissingFieldDelimiter(|Join(lines)|))
  {
    var buf := Join(lines) + tail;
    Halves(Join(lines), tail);
    ScanJoinPrefix(buf, lines);
    NoSemicolonFrom(buf, |Join(lines)|);
    assert lines + [] == lines;
  }

  lemma NoSemicolonFrom(buf: seq<byte>, p: nat)
    requires p < |buf| && SEMICOLON !in buf[p..]
    ensures ScanFrom(buf, p) == Scan([], Some(MissingFieldDelimiter(p)))
  {
    forall j | p <= j < |buf| ensures buf[j] != SEMICOLON {
      assert buf[j] == buf[p..][j - p];
    }
    MemChrFromNone(SEMICOLON, buf, p);
  }

  lemma EmptyBuffer()
    ensures ScanAll([]) == Scan([], None)
  {
  }
}
