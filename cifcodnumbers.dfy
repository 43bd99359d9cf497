/**
 * The parser of the `cif_cod_numbers` tool's output: standard output lists one
 * candidate duplicate per line as `formula codid count ...`, standard error is
 * passed on line by line, and both end up in the one `output` parameter node.
 */
module CifCodNumbers {
  import opened Wrappers
  import opened PyLines
  import opened PySplit
  import opened PyInt

  /** One `{'formula': ..., 'codid': ..., 'count': ...}` dictionary. */
  datatype Duplicate = Duplicate(formula: string, codid: string, count: int)

  /** The `{'duplicates': ..., 'errors': ...}` dictionary of the parameter node. */
  datatype Parameters = Parameters(duplicates: seq<Duplicate>, errors: seq<string>)

  /** A `(link name, node)` pair of the returned list. */
  datatype OutputNode = OutputNode(name: string, parameters: Parameters)

  /** The exceptions that escape the parser. */
  datatype Exception = IndexError

  /** What one line of standard output does in the loop body of `_get_output_nodes`. */
  datatype Outcome =
    | Short                      // fewer than three fields: `fields[2]` raises `IndexError`
    | Skipped                    // `int(fields[2])` raised `ValueError`, or gave 0
    | Recorded(record: Duplicate) // appended to `duplicates`

  /** `count = int(fields[2])` and the truthiness test on it, for the fields of one line. */
  function FromFields(fields: seq<string>): (o: Outcome)
    ensures o.Short? <==> |fields| < 3
    ensures o.Recorded? ==> o.record.count != 0
  {
    if |fields| < 3 then Short
    else
      match ParseInt(fields[2])
      case None => Skipped
      case Some(count) => if count != 0 then Recorded(Duplicate(fields[0], fields[1], count)) else Skipped
  }

  /** Splits the line at runs of whitespace and tries `int` on its third field. */
  function Classify(line: string): Outcome
  {
    FromFields(SplitWs(line))
  }

  /** The outcome of each line, in order. */
  function Outcomes(lines: seq<string>): (outs: seq<Outcome>)
    ensures |outs| == |lines|
    ensures forall k :: 0 <= k < |lines| ==> outs[k] == Classify(lines[k])
  {
    if lines == [] then [] else [Classify(lines[0])] + Outcomes(lines[1..])
  }

  /**
   * The duplicates loop, one outcome after the other: the first short line
   * ends it with `IndexError`.
   */
  function Scan(outs: seq<Outcome>): Result<seq<Duplicate>, Exception>
  {
    if outs == [] then Ok([])
    else
      match Scan(outs[..|outs| - 1])
      case Err(e) => Err(e)
      case Ok(ds) =>
        match outs[|outs| - 1]
        case Short => Err(IndexError)
        case Skipped => Ok(ds)
        case Recorded(d) => Ok(ds + [d])
  }

  /** The `duplicates` list for the standard output, if there is one. */
  function ParseOutput(output: Option<string>): Result<seq<Duplicate>, Exception>
  {
    match output
    case None => Ok([])
    case Some(content) => Scan(Outcomes(Lines(content)))
  }

  /** The `errors` list for the standard error, if there is one. */
  function ParseErrors(error: Option<string>): seq<string>
  {
    match error
    case None => []
    case Some(content) => Lines(content)
  }

  /** What `_get_output_nodes` returns, or the exception it raises. */
  function OutputNodes(output: Option<string>, error: Option<string>): Result<seq<OutputNode>, Exception>
  {
    match ParseOutput(output)
    case Err(e) => Err(e)
    case Ok(duplicates) => Ok([OutputNode("output", Parameters(duplicates, ParseErrors(error)))])
  }

  /**
   * `_get_output_nodes` on the contents of the two files (`None` for a path
   * that is `None`): the loop appends records one line at a time.
   */
  method GetOutputNodes(outputContent: Option<string>, errorContent: Option<string>)
    returns (r: Result<seq<OutputNode>, Exception>)
    ensures r == OutputNodes(outputContent, errorContent)
  {
    var duplicates: seq<Duplicate> := [];
    if outputContent.Some? {
      var lines := Lines(outputContent.value);
      ghost var outs := Outcomes(lines);
      for i := 0 to |lines|
        invariant Scan(outs[..i]) == Ok(duplicates)
      {
        var fields := SplitWs(lines[i]);
        var count: Option<int> := None;
        ScanStep(outs, i);
        assert outs[i] == FromFields(fields);
        if |fields| < 3 {
          ScanSticky(outs[..i + 1], outs[i + 1..]);
          assert outs[..i + 1] + outs[i + 1..] == outs;
          return Err(IndexError);
        }
        count := ParseInt(fields[2]);
        if count.Some? && count.value != 0 {
          duplicates := duplicates + [Duplicate(fields[0], fields[1], count.value)];
        }
      }
      assert outs[..|lines|] == outs;
    }
    var errors: seq<string> := [];
    if errorContent.Some? {
      errors := errors + Lines(errorContent.value);
      assert errors == Lines(errorContent.value);
    }
    r := Ok([OutputNode("output", Parameters(duplicates, errors))]);
  }

  /** `Scan` on one more outcome. */
  lemma ScanStep(outs: seq<Outcome>, i: nat)
    requires i < |outs|
    ensures Scan(outs[..i + 1]) ==
      match Scan(outs[..i])
      case Err(e) => Err(e)
      case Ok(ds) =>
        match outs[i]
        case Short => Err(IndexError)
        case Skipped => Ok(ds)
        case Recorded(d) => Ok(ds + [d])
  {
    assert outs[..i + 1][..i] == outs[..i];
  }

  /** Once the loop has raised, later lines change nothing. */
  lemma {:induction false} ScanSticky(a: seq<Outcome>, b: seq<Outcome>)
    requires Scan(a).Err?
    ensures Scan(a + b) == Scan(a)
    decreases |b|
  {
    if b != [] {
      var c := b[..|b| - 1];
      ScanSticky(a, c);
      assert (a + b)[..|a + b| - 1] == a + c;
    } else {
      assert a + b == a;
    }
  }

  /** The records among the outcomes, first line first. */
  function Kept(outs: seq<Outcome>): (ds: seq<Duplicate>)
    ensures |ds| <= |outs|
  {
    if outs == [] then []
    else (if outs[0].Recorded? then [outs[0].record] else []) + Kept(outs[1..])
  }

  /** `Kept` of two blocks of lines is the records of the first block, then those of the second. */
  lemma {:induction false} KeptAppend(a: seq<Outcome>, b: seq<Outcome>)
    ensures Kept(a + b) == Kept(a) + Kept(b)
    decreases |a|
  {
    if a != [] {
      KeptAppend(a[1..], b);
      assert (a + b)[1..] == a[1..] + b;
    } else {
      assert a + b == b;
    }
  }

  lemma KeptOne(o: Outcome)
    ensures Kept([o]) == if o.Recorded? then [o.record] else []
  {
    assert [o][1..] == [];
  }

  /**
   * The loop fails exactly when some line has fewer than three fields; when
   * none has, it yields the records of the lines in line order.
   */
  lemma {:induction false} ScanSpec(outs: seq<Outcome>)
    ensures Scan(outs) == if Short in outs then Err(IndexError) else Ok(Kept(outs))
    decreases |outs|
  {
    if outs != [] {
      var n := |outs| - 1;
      var init := outs[..n];
      ScanSpec(init);
      assert outs == init + [outs[n]];
      KeptAppend(init, [outs[n]]);
      KeptOne(outs[n]);
      assert Kept(init) + [] == Kept(init);
    }
  }

  /** A duplicate is kept exactly when some line has it as its record. */
  lemma {:induction false} KeptMembers(outs: seq<Outcome>, d: Duplicate)
    ensures d in Kept(outs) <==> Recorded(d) in outs
    decreases |outs|
  {
    if outs != [] {
      KeptMembers(outs[1..], d);
      assert outs == [outs[0]] + outs[1..];
    }
  }

  /** A line whose third field is not an integer, or is zero, adds nothing and does not stop later lines. */
  lemma SkippedLine(a: seq<Outcome>, b: seq<Outcome>)
    ensures Scan(a + [Skipped] + b) == Scan(a + b)
  {
    ScanSpec(a + b);
    ScanSpec(a + [Skipped] + b);
    KeptAppend(a, b);
    KeptAppend(a, [Skipped]);
    KeptAppend(a + [Skipped], b);
    KeptOne(Skipped);
    assert Kept(a) + [] == Kept(a);
  }

  /** A line with fewer than three fields makes the whole call fail, wherever it is. */
  lemma ShortLineFails(a: seq<Outcome>, b: seq<Outcome>)
    ensures Scan(a + [Short] + b) == Err(IndexError)
  {
    ScanSpec(a + [Short] + b);
    assert (a + [Short] + b)[|a|] == Short;
  }

  // Lines and their fields

  /** A line made of well-formed fields glued with whitespace is classified by those fields. */
  lemma ClassifyInterleave(fields: seq<string>, seps: seq<string>)
    requires |fields| == |seps| + 1 && WellSplit(fields) && Runs(seps)
    ensures Classify(Interleave(fields, seps)) == FromFields(fields)
  {
    SplitWsInterleave(fields, seps);
  }

  /** Only the first three fields matter: anything after the count is ignored. */
  lemma ExtraFieldsIgnored(fields: seq<string>, more: seq<string>)
    requires |fields| >= 3
    ensures FromFields(fields + more) == FromFields(fields)
  {
    assert (fields + more)[..3] == fields[..3];
  }

  /**
   * Whitespace before the first field adds an empty first field: the formula
   * becomes `""` and every other field moves one place to the right.
   */
  lemma LeadingWhitespace(sep: string, fields: seq<string>, seps: seq<string>)
    requires |fields| == |seps| + 1 && WellSplit(fields) && Runs(seps) && fields[0] != []
    requires sep != [] && AllSpace(sep)
    ensures Classify(sep + Interleave(fields, seps)) == FromFields([""] + fields)
  {
    var fs, ss := [""] + fields, [sep] + seps;
    assert fs[1..] == fields && ss[1..] == seps;
    assert Interleave(fs, ss) == "" + sep + Interleave(fields, seps);
    assert "" + sep == sep;
    assert forall k :: 0 < k < |fs| ==> fs[k] == fields[k - 1];
    assert forall k :: 0 < k < |ss| ==> ss[k] == seps[k - 1];
    ClassifyInterleave(fs, ss);
  }

  /**
   * Whitespace after the last field, a '\r' included, adds an empty last
   * field, which `int` rejects when it is the third one.
   */
  lemma TrailingWhitespace(fields: seq<string>, seps: seq<string>, sep: string)
    requires |fields| == |seps| + 1 && WellSplit(fields) && Runs(seps) && fields[|fields| - 1] != []
    requires sep != [] && AllSpace(sep)
    ensures Classify(Interleave(fields, seps) + sep) == FromFields(fields + [""])
  {
    InterleaveSnoc(fields, seps, sep);
    var fs, ss := fields + [""], seps + [sep];
    assert forall k :: 0 <= k < |fields| ==> fs[k] == fields[k];
    assert forall k :: 0 <= k < |seps| ==> ss[k] == seps[k];
    ClassifyInterleave(fs, ss);
  }

  /** Gluing one more run and an empty field on the end. */
  lemma {:induction false} InterleaveSnoc(fields: seq<string>, seps: seq<string>, sep: string)
    requires |fields| == |seps| + 1
    ensures Interleave(fields + [""], seps + [sep]) == Interleave(fields, seps) + sep
    decreases |seps|
  {
    var fs, ss := fields + [""], seps + [sep];
    if seps == [] {
      assert fs[1..] == [""] && ss[1..] == [];
      assert fields[0] + sep + "" == fields[0] + sep;
    } else {
      InterleaveSnoc(fields[1..], seps[1..], sep);
      assert fs[1..] == fields[1..] + [""] && ss[1..] == seps[1..] + [sep];
    }
  }

  /** A zero count, however it is spelt (`0`, `-0`, `+000`), is dropped by the truthiness test. */
  lemma ZeroCountSkipped(fields: seq<string>)
    requires |fields| >= 3 && fields[2] != []
    requires var d := if IsSign(fields[2][0]) then fields[2][1..] else fields[2];
      d != [] && forall k :: 0 <= k < |d| ==> d[k] == '0'
    ensures FromFields(fields) == Skipped
  {
    ParseIntZero(fields[2]);
  }

  /** A third field that `int` reads as a non-zero count keeps the line's record. */
  lemma ParsedCountKept(fields: seq<string>, count: int)
    requires |fields| >= 3 && count != 0 && ParseInt(fields[2]) == Some(count)
    ensures FromFields(fields) == Recorded(Duplicate(fields[0], fields[1], count))
  {
  }

  /**
   * Every non-zero integer, negative ones included, written as `str()` writes
   * it, is kept as the count, with the first two fields as formula and codid.
   */
  lemma NonZeroCountKept(fields: seq<string>, n: int)
    requires |fields| >= 3 && n != 0 && fields[2] == IntToDecimal(n)
    ensures FromFields(fields) == Recorded(Duplicate(fields[0], fields[1], n))
  {
    IntToDecimalRoundTrip(n);
  }

  // Whole outputs

  /** The outcomes of two blocks of lines are those of the first block, then those of the second. */
  lemma OutcomesAppend(a: seq<string>, b: seq<string>)
    ensures Outcomes(a + b) == Outcomes(a) + Outcomes(b)
  {
  }

  /**
   * Records come out in line order, one for each line that has one, with no
   * merging of equal records: the records of two blocks of lines are those
   * of the first block followed by those of the second.
   */
  lemma RecordsInLineOrder(a: seq<string>, b: seq<string>)
    ensures Kept(Outcomes(a + b)) == Kept(Outcomes(a)) + Kept(Outcomes(b))
  {
    OutcomesAppend(a, b);
    KeptAppend(Outcomes(a), Outcomes(b));
  }

  /** The standard output of a tool that wrote the lines `ls` is parsed line by line. */
  lemma OutputOfLines(ls: seq<string>)
    requires forall k :: 0 <= k < |ls| ==> NoNewline(ls[k])
    ensures ParseOutput(Some(Unlines(ls))) == Scan(Outcomes(ls))
  {
    UnlinesRoundTrip(ls);
  }

  /**
   * Parsing standard output fails exactly when one of its lines has fewer
   * than three fields; otherwise it yields the records of its lines in order.
   */
  lemma ParseOutputSpec(content: string)
    ensures ParseOutput(Some(content)) ==
      if exists k :: 0 <= k < |Lines(content)| && |SplitWs(Lines(content)[k])| < 3
      then Err(IndexError)
      else Ok(Kept(Outcomes(Lines(content))))
  {
    var lines := Lines(content);
    var outs := Outcomes(lines);
    ScanSpec(outs);
    if exists k :: 0 <= k < |lines| && |SplitWs(lines[k])| < 3 {
      var k :| 0 <= k < |lines| && |SplitWs(lines[k])| < 3;
      assert outs[k] == Short;
    }
    if Short in outs {
      var k :| 0 <= k < |outs| && outs[k] == Short;
      assert |SplitWs(lines[k])| < 3;
    }
  }

  /** The line has a third field, and its fields give the duplicate `d`. */
  predicate Yields(line: string, d: Duplicate)
  {
    var fields := SplitWs(line);
    |fields| >= 3 && d.formula == fields[0] && d.codid == fields[1] &&
    ParseInt(fields[2]) == Some(d.count) && d.count != 0
  }

  /**
   * On success, a duplicate is reported exactly when some line of standard
   * output has it: formula and codid are the line's first two fields and the
   * count is its third field read by `int`, never zero.
   */
  lemma DuplicatesFromLines(content: string, d: Duplicate)
    requires ParseOutput(Some(content)).Ok?
    ensures d in ParseOutput(Some(content)).value <==>
      exists k :: 0 <= k < |Lines(content)| && Yields(Lines(content)[k], d)
  {
    var lines := Lines(content);
    var outs := Outcomes(lines);
    ScanSpec(outs);
    KeptMembers(outs, d);
    forall k | 0 <= k < |lines| ensures outs[k] == Recorded(d) <==> Yields(lines[k], d) {
      RecordedIff(lines[k], d);
    }
  }

  lemma RecordedIff(line: string, d: Duplicate)
    ensures Classify(line) == Recorded(d) <==> Yields(line, d)
  {
  }

  // Standard error

  /**
   * `errors` has one entry per line of standard error, in order, each the
   * line without its '\n'; written back with a '\n' after each entry they
   * give the file again (plus the '\n' a last unterminated line lacked).
   */
  lemma ErrorsVerbatim(content: string)
    ensures |ParseErrors(Some(content))| == |ReadLines(content)|
    ensures forall k :: 0 <= k < |ReadLines(content)| ==>
      ParseErrors(Some(content))[k] == DropTerminator(ReadLines(content)[k])
    ensures Unlines(ParseErrors(Some(content))) ==
      if content == [] || EndsWithNewline(content) then content else content + "\n"
  {
    ReadLinesAreLines(content);
    forall k | 0 <= k < |ReadLines(content)|
      ensures ParseErrors(Some(content))[k] == DropTerminator(ReadLines(content)[k])
    {
      StripReadLine(ReadLines(content)[k]);
    }
    LinesRoundTrip(content);
  }

  /** Nothing is filtered: the lines a tool wrote to standard error, empty ones included, are `errors`. */
  lemma ErrorsOfLines(ls: seq<string>)
    requires forall k :: 0 <= k < |ls| ==> NoNewline(ls[k])
    ensures ParseErrors(Some(Unlines(ls))) == ls
  {
    UnlinesRoundTrip(ls);
  }

  // The whole call

  /**
   * The call fails only when standard output makes it fail; on success it
   * returns exactly one `output` node, whose duplicates depend only on
   * standard output and whose errors only on standard error, each empty
   * when its file is absent.
   */
  lemma OutputNodesShape(output: Option<string>, error: Option<string>)
    ensures OutputNodes(output, error).Ok? <==> ParseOutput(output).Ok?
    ensures output.None? ==> OutputNodes(output, error).Ok?
    ensures OutputNodes(output, error).Ok? ==>
      var nodes := OutputNodes(output, error).value;
      |nodes| == 1 && nodes[0].name == "output" &&
      nodes[0].parameters.duplicates == ParseOutput(output).value &&
      nodes[0].parameters.errors == ParseErrors(error) &&
      (output.None? ==> nodes[0].parameters.duplicates == []) &&
      (error.None? ==> nodes[0].parameters.errors == [])
  {
  }

  /** Standard error never changes whether the call fails, nor the duplicates it reports. */
  lemma ErrorFileIndependent(output: Option<string>, error1: Option<string>, error2: Option<string>)
    ensures OutputNodes(output, error1).Ok? == OutputNodes(output, error2).Ok?
    ensures OutputNodes(output, error1).Ok? ==>
      OutputNodes(output, error1).value[0].parameters.duplicates ==
      OutputNodes(output, error2).value[0].parameters.duplicates
  {
  }

  /** Standard output never changes the errors reported. */
  lemma OutputFileIndependent(output1: Option<string>, output2: Option<string>, error: Option<string>)
    requires OutputNodes(output1, error).Ok? && OutputNodes(output2, error).Ok?
    ensures OutputNodes(output1, error).value[0].parameters.errors ==
      OutputNodes(output2, error).value[0].parameters.errors
  {
  }
}
