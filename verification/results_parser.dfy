/**
  The NetworkX results parser: it reads the log written by the path-finding
  runs line by line, collects four fields of one record block (algorithm,
  input file name, path length, elapsed time) and writes one CSV row each
  time all four are present. The input is a sequence of lines and the
  output the sequence of CSV lines; opening and writing files is outside
  the model.
*/
module ResultsParser {
  import opened Options
  import opened Text

  const Header := "ALGORITHM,FILE_NAME,PATH_LENGTH,ELAPSED_TIME,MEMORY_CONSUMED\n"

  /** The memory column: initialised once and never reset, so it is the same on every row. */
  const MemoryConsumed := "0.0"

  const AlgorithmTag := "ALGORITHM|"
  const InFileTag := "INFILENAME|"
  const ResultsTag := "RESULTS|"
  const PathLengthKey := "pathLength"
  const ElapsedTimeKey := "elapsedTime(ms)"

  /**
    `line.split(delimiter)[index]`, with Python's negative indices counting
    from the end; None where Python raises IndexError.
  */
  function ParseLine(line: string, index: int, delim: char): (r: Option<string>)
    ensures r.Some? <==> -|Split(line, delim)| <= index < |Split(line, delim)|
    ensures r.Some? ==> delim !in r.value
    ensures 0 <= index < |Split(line, delim)| ==> r == Some(Split(line, delim)[index])
    ensures -|Split(line, delim)| <= index < 0 ==> r == Some(Split(line, delim)[|Split(line, delim)| + index])
  {
    var fields := Split(line, delim);
    SplitFieldsWithoutDelim(line, delim);
    if 0 <= index < |fields| then Some(fields[index])
    else if -|fields| <= index < 0 then Some(fields[|fields| + index])
    else None
  }

  /** Picking a field of delimiter-free fields joined with the delimiter gives that field back. */
  lemma ParseLineJoin(fs: seq<string>, i: int, d: char)
    requires 0 <= i < |fs|
    requires forall j | 0 <= j < |fs| :: d !in fs[j]
    ensures ParseLine(Join(fs, d), i, d) == Some(fs[i])
  {
    SplitJoin(fs, d);
  }

  /** No field produced by split contains the delimiter. */
  lemma {:induction false} SplitFieldsWithoutDelim(s: string, d: char)
    ensures forall i | 0 <= i < |Split(s, d)| :: d !in Split(s, d)[i]
  {
    if |s| > 0 {
      SplitFieldsWithoutDelim(s[1..], d);
      var rest := Split(s[1..], d);
      if s[0] != d {
        assert [s[0]] + rest[0] == Split(s, d)[0];
      }
    }
  }

  /** A field written before a delimiter is the first field, and what follows is split on its own. */
  lemma SplitAfterField(p: string, rest: string, d: char)
    requires d !in p
    ensures Split(p + [d] + rest, d) == [p] + Split(rest, d)
  {
    SplitConcat(p, rest, d);
    SplitNoDelim(p, d);
  }

  /**
    A line "INFILENAME|<rest>" has a field 1, which is the text of rest up
    to its first '|'.
  */
  lemma InFileFields(line: string)
    requires StartsWith(line, InFileTag)
    ensures |Split(line, '|')| >= 2
    ensures Split(line, '|')[1] == Split(line[|InFileTag|..], '|')[0]
  {
    var rest := line[|InFileTag|..];
    assert line == "INFILENAME" + ['|'] + rest;
    SplitAfterField("INFILENAME", rest, '|');
  }

  /**
    A line "RESULTS|<algorithm>|<key>|<rest>" has a field 3, which is the
    text of rest up to its first '|' when the algorithm name has no '|'.
  */
  lemma ResultsFields(line: string, algorithm: string, key: string)
    requires '|' !in key
    requires StartsWith(line, ResultsTag + algorithm + "|" + key + "|")
    ensures |Split(line, '|')| >= 4
    ensures '|' !in algorithm ==>
      Split(line, '|')[3] == Split(line[|ResultsTag + algorithm + "|" + key + "|"|..], '|')[0]
  {
    var prefix := ResultsTag + algorithm + "|" + key + "|";
    var rest := line[|prefix|..];
    var afterAlgorithm := key + ['|'] + rest;
    var afterTag := algorithm + ['|'] + afterAlgorithm;
    assert line == prefix + rest;
    assert prefix + rest == "RESULTS" + ['|'] + afterTag;
    SplitAfterField("RESULTS", afterTag, '|');
    SplitConcat(algorithm, afterAlgorithm, '|');
    SplitAfterField(key, rest, '|');
    var fields := Split(line, '|');
    assert fields == ["RESULTS"] + (Split(algorithm, '|') + ([key] + Split(rest, '|')));
    if '|' !in algorithm {
      SplitNoDelim(algorithm, '|');
      assert fields[3] == Split(rest, '|')[0];
    }
  }

  /** The four fields collected for the current record block. */
  datatype Record = Record(algName: string, graphFileName: string, pathLength: string, elapsedTime: string)

  const Blank := Record("", "", "", "")

  /** All four fields are present: the moment a row is written. */
  predicate Complete(r: Record)
  {
    IsNotEmpty(r.algName) && IsNotEmpty(r.graphFileName) && IsNotEmpty(r.pathLength) && IsNotEmpty(r.elapsedTime)
  }

  /** The CSV row written for a complete record. */
  function RowOf(r: Record): (row: string)
  {
    r.algName + "," + r.graphFileName + "," + r.pathLength + "," + r.elapsedTime + "," + MemoryConsumed + "\n"
  }

  /**
    The effect of one input line on the record: the line is stripped and
    the first matching prefix of the elif chain updates one field.
  */
  function Absorb(r: Record, raw: string, algorithm: string): (r': Record)
  {
    var line := Strip(raw);
    if StartsWith(line, AlgorithmTag + algorithm) then
      r.(algName := algorithm)
    else if StartsWith(line, InFileTag) then
      InFileFields(line);
      r.(graphFileName := ParseLine(line, 1, '|').value)
    else if StartsWith(line, ResultsTag + algorithm + "|" + PathLengthKey + "|") then
      ResultsFields(line, algorithm, PathLengthKey);
      r.(pathLength := ParseLine(line, 3, '|').value)
    else if StartsWith(line, ResultsTag + algorithm + "|" + ElapsedTimeKey + "|") then
      ResultsFields(line, algorithm, ElapsedTimeKey);
      r.(elapsedTime := ParseLine(line, 3, '|').value)
    else
      r
  }

  /** Parser state between lines: the pending record and the records written so far. */
  datatype State = State(pending: Record, written: seq<Record>)

  /** The CSV rows of the written records, in order. */
  function Rows(recs: seq<Record>): (rows: seq<string>)
  {
    seq(|recs|, i requires 0 <= i < |recs| => RowOf(recs[i]))
  }

  /** One iteration of the loop: absorb the line, then write and reset a complete record. */
  function Step(s: State, raw: string, algorithm: string): (s': State)
  {
    var r := Absorb(s.pending, raw, algorithm);
    if Complete(r) then State(Blank, s.written + [r]) else State(r, s.written)
  }

  /** The state after the given lines, starting from a blank record and no rows. */
  function Run(lines: seq<string>, algorithm: string): (s: State)
  {
    if |lines| == 0 then State(Blank, [])
    else Step(Run(lines[..|lines| - 1], algorithm), lines[|lines| - 1], algorithm)
  }

  /**
    The elif chain of parseFile on one line, updating the four collected
    fields. The source updates four local variables in place inside its
    loop, so the chain is kept here as statements; Absorb is the same
    chain as a function of the record, which the lemmas use.
  */
  method AbsorbLine(algName: string, graphFileName: string, pathLength: string, elapsedTime: string,
                    raw: string, algorithm: string)
    returns (algName': string, graphFileName': string, pathLength': string, elapsedTime': string)
    ensures Record(algName', graphFileName', pathLength', elapsedTime') ==
      Absorb(Record(algName, graphFileName, pathLength, elapsedTime), raw, algorithm)
  {
    algName', graphFileName', pathLength', elapsedTime' := algName, graphFileName, pathLength, elapsedTime;
    var line := Strip(raw);
    if StartsWith(line, AlgorithmTag + algorithm) {
      algName' := algorithm;
    } else if StartsWith(line, InFileTag) {
      InFileFields(line);
      graphFileName' := ParseLine(line, 1, '|').value;
    } else if StartsWith(line, ResultsTag + algorithm + "|" + PathLengthKey + "|") {
      ResultsFields(line, algorithm, PathLengthKey);
      pathLength' := ParseLine(line, 3, '|').value;
    } else if StartsWith(line, ResultsTag + algorithm + "|" + ElapsedTimeKey + "|") {
      ResultsFields(line, algorithm, ElapsedTimeKey);
      elapsedTime' := ParseLine(line, 3, '|').value;
    }
  }

  /** parseFile: the header line followed by every row the loop writes. */
  method ParseFile(lines: seq<string>, algorithm: string) returns (output: seq<string>)
    ensures output == [Header] + Rows(Run(lines, algorithm).written)
  {
    output := [Header];
    var algName, graphFileName, pathLength, elapsedTime := "", "", "", "";
    var memoryConsumed := MemoryConsumed;
    for i := 0 to |lines|
      invariant |output| >= 1 && output[0] == Header
      invariant Run(lines[..i], algorithm).pending == Record(algName, graphFileName, pathLength, elapsedTime)
      invariant output == [Header] + Rows(Run(lines[..i], algorithm).written)
    {
      assert lines[..i + 1][..i] == lines[..i];
      algName, graphFileName, pathLength, elapsedTime :=
        AbsorbLine(algName, graphFileName, pathLength, elapsedTime, lines[i], algorithm);
      if IsNotEmpty(algName) && IsNotEmpty(graphFileName) && IsNotEmpty(pathLength) && IsNotEmpty(elapsedTime) {
        ghost var done := Run(lines[..i], algorithm).written;
        ghost var r := Record(algName, graphFileName, pathLength, elapsedTime);
        assert Rows(done + [r]) == Rows(done) + [RowOf(r)];
        output := output + [algName + "," + graphFileName + "," + pathLength + "," + elapsedTime + "," + memoryConsumed + "\n"];
        algName, graphFileName, pathLength, elapsedTime := "", "", "", "";
      }
    }
    assert lines[..|lines|] == lines;
  }

  /**
    Between lines the pending record is never complete (a complete one is
    written and reset at once), and its algorithm is either unset or the
    requested one.
  */
  lemma {:induction false} RunPending(lines: seq<string>, algorithm: string)
    ensures !Complete(Run(lines, algorithm).pending)
    ensures Run(lines, algorithm).pending.algName in {"", algorithm}
  {
    if |lines| > 0 {
      RunPending(lines[..|lines| - 1], algorithm);
    }
  }

  /**
    Every record written was complete and names the requested algorithm, so
    every row has four non-blank fields, the algorithm first, and ends with
    the constant memory column.
  */
  lemma {:induction false} RunRows(lines: seq<string>, algorithm: string)
    ensures forall i | 0 <= i < |Run(lines, algorithm).written| ::
      Complete(Run(lines, algorithm).written[i]) && Run(lines, algorithm).written[i].algName == algorithm
  {
    if |lines| > 0 {
      RunRows(lines[..|lines| - 1], algorithm);
      RunPending(lines[..|lines| - 1], algorithm);
    }
  }

  /** A row's text starts with the algorithm and a comma and ends with the memory column. */
  lemma RowOfShape(r: Record)
    ensures StartsWith(RowOf(r), r.algName + ",")
    ensures |RowOf(r)| >= 5 && RowOf(r)[|RowOf(r)| - 5..] == ",0.0\n"
  {
    var s := RowOf(r);
    assert s == (r.algName + ",") + (r.graphFileName + "," + r.pathLength + "," + r.elapsedTime + "," + MemoryConsumed + "\n");
    var body := r.algName + "," + r.graphFileName + "," + r.pathLength + "," + r.elapsedTime;
    assert s == body + ",0.0\n";
    assert s[|body|..] == ",0.0\n";
  }

  /** With a blank algorithm argument no record ever completes, so only the header is written. */
  lemma {:induction false} BlankAlgorithmNoRows(lines: seq<string>, algorithm: string)
    requires !IsNotEmpty(algorithm)
    ensures Run(lines, algorithm).written == []
  {
    if |lines| > 0 {
      RunPending(lines[..|lines| - 1], algorithm);
      BlankAlgorithmNoRows(lines[..|lines| - 1], algorithm);
    }
  }

  /** At most one row per input line. */
  lemma {:induction false} RunRowCount(lines: seq<string>, algorithm: string)
    ensures |Run(lines, algorithm).written| <= |lines|
  {
    if |lines| > 0 {
      RunRowCount(lines[..|lines| - 1], algorithm);
    }
  }

  /** Number of fields that differ between two records. */
  function ChangedFields(a: Record, b: Record): (n: nat)
  {
    (if a.algName != b.algName then 1 else 0) + (if a.graphFileName != b.graphFileName then 1 else 0) +
    (if a.pathLength != b.pathLength then 1 else 0) + (if a.elapsedTime != b.elapsedTime then 1 else 0)
  }

  /** The elif chain updates at most one field per line. */
  lemma AbsorbChangesOneField(r: Record, raw: string, algorithm: string)
    ensures ChangedFields(r, Absorb(r, raw, algorithm)) <= 1
  {
  }

  /**
    Every INFILENAME line sets the file name, whichever algorithm the block
    belongs to: the name is the text after the tag up to the next '|'.
  */
  lemma InFileNameOverwrites(r: Record, raw: string, algorithm: string)
    requires StartsWith(Strip(raw), InFileTag)
    ensures Absorb(r, raw, algorithm) == r.(graphFileName := Split(Strip(raw)[|InFileTag|..], '|')[0])
  {
    var line := Strip(raw);
    assert line[0] == 'I';
    InFileFields(line);
  }

  /**
    A pathLength result line of the requested algorithm sets the path
    length to the text after the key up to the next '|'.
  */
  lemma PathLengthRecorded(r: Record, raw: string, algorithm: string)
    requires '|' !in algorithm
    requires StartsWith(Strip(raw), ResultsTag + algorithm + "|" + PathLengthKey + "|")
    ensures Absorb(r, raw, algorithm) ==
      r.(pathLength := Split(Strip(raw)[|ResultsTag + algorithm + "|" + PathLengthKey + "|"|..], '|')[0])
  {
    var line := Strip(raw);
    assert line[0] == 'R';
    ResultsFields(line, algorithm, PathLengthKey);
  }

  /**
    An elapsedTime result line of the requested algorithm sets the elapsed
    time to the text after the key up to the next '|'.
  */
  lemma ElapsedTimeRecorded(r: Record, raw: string, algorithm: string)
    requires '|' !in algorithm
    requires StartsWith(Strip(raw), ResultsTag + algorithm + "|" + ElapsedTimeKey + "|")
    ensures Absorb(r, raw, algorithm) ==
      r.(elapsedTime := Split(Strip(raw)[|ResultsTag + algorithm + "|" + ElapsedTimeKey + "|"|..], '|')[0])
  {
    var line := Strip(raw);
    assert line[0] == 'R';
    assert !StartsWith(line, ResultsTag + algorithm + "|" + PathLengthKey + "|") by {
      var n := |ResultsTag + algorithm + "|"|;
      assert line[n] == 'e';
    }
    ResultsFields(line, algorithm, ElapsedTimeKey);
  }

  /** A prefix of a line is a prefix of every longer prefix's line. */
  lemma StartsWithShorter(line: string, p: string, q: string)
    requires StartsWith(line, p + q)
    ensures StartsWith(line, p)
  {
    assert line[..|p|] == (p + q)[..|p|];
  }

  /**
    An ALGORITHM line for another algorithm matches no branch of the elif
    chain: the record is left as it was.
  */
  lemma OtherAlgorithmIgnored(r: Record, raw: string, algorithm: string)
    requires StartsWith(Strip(raw), AlgorithmTag) && !StartsWith(Strip(raw), AlgorithmTag + algorithm)
    ensures Absorb(r, raw, algorithm) == r
  {
    var line := Strip(raw);
    assert line[0] == 'A';
  }

  /**
    A RESULTS line for another algorithm matches no branch of the elif
    chain: the record is left as it was.
  */
  lemma OtherResultsIgnored(r: Record, raw: string, algorithm: string)
    requires StartsWith(Strip(raw), ResultsTag) && !StartsWith(Strip(raw), ResultsTag + algorithm + "|")
    ensures Absorb(r, raw, algorithm) == r
  {
    var line := Strip(raw);
    assert line[0] == 'R';
    if StartsWith(line, ResultsTag + algorithm + "|" + PathLengthKey + "|") {
      StartsWithShorter(line, ResultsTag + algorithm + "|", PathLengthKey + "|");
      assert false;
    }
    if StartsWith(line, ResultsTag + algorithm + "|" + ElapsedTimeKey + "|") {
      StartsWithShorter(line, ResultsTag + algorithm + "|", ElapsedTimeKey + "|");
      assert false;
    }
  }

  /** A non-empty value without surrounding whitespace and without the '|' delimiter. */
  predicate PlainValue(v: string)
  {
    |v| > 0 && !IsWhitespace(v[0]) && !IsWhitespace(v[|v| - 1]) && '|' !in v
  }

  lemma PlainValueNotEmpty(v: string)
    requires PlainValue(v)
    ensures IsNotEmpty(v)
  {
    StripTrimmed(v);
  }

  /** A tagged line whose value is plain is its own strip. */
  lemma TaggedLineTrimmed(tag: string, v: string)
    requires |tag| > 0 && !IsWhitespace(tag[0]) && PlainValue(v)
    ensures Strip(tag + v) == tag + v
  {
    StripTrimmed(tag + v);
  }

  lemma AlgorithmLineSets(r: Record, a: string)
    requires PlainValue(a)
    ensures Absorb(r, AlgorithmTag + a, a) == r.(algName := a)
  {
    TaggedLineTrimmed(AlgorithmTag, a);
    PrefixOf(AlgorithmTag + a, "");
    assert AlgorithmTag + a + "" == AlgorithmTag + a;
  }

  lemma InFileLineSets(r: Record, a: string, n: string)
    requires PlainValue(n)
    ensures Absorb(r, InFileTag + n, a) == r.(graphFileName := n)
  {
    TaggedLineTrimmed(InFileTag, n);
    PrefixOf(InFileTag, n);
    InFileNameOverwrites(r, InFileTag + n, a);
    SplitNoDelim(n, '|');
  }

  lemma PathLengthLineSets(r: Record, a: string, v: string)
    requires PlainValue(a) && PlainValue(v)
    ensures Absorb(r, ResultsTag + a + "|" + PathLengthKey + "|" + v, a) == r.(pathLength := v)
  {
    var prefix := ResultsTag + a + "|" + PathLengthKey + "|";
    TaggedLineTrimmed(prefix, v);
    PrefixOf(prefix, v);
    PathLengthRecorded(r, prefix + v, a);
    SplitNoDelim(v, '|');
  }

  lemma ElapsedTimeLineSets(r: Record, a: string, t: string)
    requires PlainValue(a) && PlainValue(t)
    ensures Absorb(r, ResultsTag + a + "|" + ElapsedTimeKey + "|" + t, a) == r.(elapsedTime := t)
  {
    var prefix := ResultsTag + a + "|" + ElapsedTimeKey + "|";
    TaggedLineTrimmed(prefix, t);
    PrefixOf(prefix, t);
    ElapsedTimeRecorded(r, prefix + t, a);
    SplitNoDelim(t, '|');
  }

  /**
    A record block of the documented form, "ALGORITHM|a", "INFILENAME|n",
    "RESULTS|a|pathLength|v" and "RESULTS|a|elapsedTime(ms)|t", yields
    exactly one row, a,n,v,t,0.0, and leaves a blank record behind.
  */
  lemma RecordBlock(a: string, n: string, v: string, t: string)
    requires PlainValue(a) && PlainValue(n) && PlainValue(v) && PlainValue(t)
    ensures Run([AlgorithmTag + a,
                 InFileTag + n,
                 ResultsTag + a + "|" + PathLengthKey + "|" + v,
                 ResultsTag + a + "|" + ElapsedTimeKey + "|" + t], a)
      == State(Blank, [Record(a, n, v, t)])
  {
    var l0, l1 := AlgorithmTag + a, InFileTag + n;
    var l2 := ResultsTag + a + "|" + PathLengthKey + "|" + v;
    var l3 := ResultsTag + a + "|" + ElapsedTimeKey + "|" + t;
    var r0 := Record(a, "", "", "");
    var r1 := r0.(graphFileName := n);
    var r2 := r1.(pathLength := v);
    var r3 := r2.(elapsedTime := t);
    assert Step(State(Blank, []), l0, a) == State(r0, []) by {
      AlgorithmLineSets(Blank, a);
    }
    assert Step(State(r0, []), l1, a) == State(r1, []) by {
      InFileLineSets(r0, a, n);
    }
    assert Step(State(r1, []), l2, a) == State(r2, []) by {
      PathLengthLineSets(r1, a, v);
    }
    assert Step(State(r2, []), l3, a) == State(Blank, [r3]) by {
      ElapsedTimeLineSets(r2, a, t);
      PlainValueNotEmpty(a);
      PlainValueNotEmpty(n);
      PlainValueNotEmpty(v);
      PlainValueNotEmpty(t);
    }
    RunSnoc([], l0, a);
    assert [] + [l0] == [l0];
    RunSnoc([l0], l1, a);
    assert [l0] + [l1] == [l0, l1];
    RunSnoc([l0, l1], l2, a);
    assert [l0, l1] + [l2] == [l0, l1, l2];
    RunSnoc([l0, l1, l2], l3, a);
    assert [l0, l1, l2] + [l3] == [l0, l1, l2, l3];
  }

  /** Run over one more line is one more Step. */
  lemma RunSnoc(lines: seq<string>, l: string, algorithm: string)
    ensures Run(lines + [l], algorithm) == Step(Run(lines, algorithm), l, algorithm)
  {
    assert (lines + [l])[..|lines|] == lines;
  }

  /** The command-line algorithm code, clamped to 1..3, and its name. */
  function AlgorithmName(code: int): (name: string)
    ensures name in {"A-star", "Bellman-Ford", "Dijkstra"}
    ensures code <= 1 <==> name == "A-star"
    ensures code == 2 <==> name == "Bellman-Ford"
    ensures code >= 3 <==> name == "Dijkstra"
  {
    var c := if code < 1 then 1 else if code > 3 then 3 else code;
    if c == 1 then "A-star"
    else if c == 2 then "Bellman-Ford"
    else if c == 3 then "Dijkstra"
    else "Unknown"
  }
}
