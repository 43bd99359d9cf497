/**
 * Worked inputs for the parser: whole files and the corner cases
 * of its line handling, each derived from the general lemmas. Each input is
 * a parameter fixed by a `requires`, so that the proof goes through the
 * general lemmas rather than through evaluation of the literal.
 */
module Scenarios {
  import opened Wrappers
  import opened PyLines
  import opened PySplit
  import opened PyInt
  import opened CifCodNumbers

  // Building blocks

  lemma Glue2(a: string, b: string, s: string)
    ensures Interleave([a, b], [s]) == a + s + b
  {
    assert [a, b][1..] == [b] && [s][1..] == [];
  }

  lemma Glue3(a: string, b: string, c: string, s1: string, s2: string)
    ensures Interleave([a, b, c], [s1, s2]) == a + s1 + b + s2 + c
  {
    assert [a, b, c][1..] == [b, c] && [s1, s2][1..] == [s2];
    Glue2(b, c, s2);
    assert a + s1 + (b + s2 + c) == a + s1 + b + s2 + c;
  }

  /** A line of three fields glued with whitespace is classified by those fields. */
  lemma Line3(a: string, b: string, c: string, s1: string, s2: string)
    requires NoSpace(a) && NoSpace(b) && NoSpace(c) && b != []
    requires s1 != [] && AllSpace(s1) && s2 != [] && AllSpace(s2)
    ensures Classify(a + s1 + b + s2 + c) == FromFields([a, b, c])
  {
    Glue3(a, b, c, s1, s2);
    ClassifyInterleave([a, b, c], [s1, s2]);
  }

  /** A line of three fields whose count is a non-zero integer. */
  lemma RecordLine(line: string, a: string, b: string, c: string, s1: string, s2: string, n: int)
    requires line == a + s1 + b + s2 + c
    requires NoSpace(a) && NoSpace(b) && NoSpace(c) && b != []
    requires s1 != [] && AllSpace(s1) && s2 != [] && AllSpace(s2)
    requires ParseInt(c) == Some(n) && n != 0
    ensures Classify(line) == Recorded(Duplicate(a, b, n))
  {
    Line3(a, b, c, s1, s2);
    ParsedCountKept([a, b, c], n);
  }

  /** A line of three fields whose third field is not an integer, or is zero. */
  lemma SkipLine(line: string, a: string, b: string, c: string, s1: string, s2: string)
    requires line == a + s1 + b + s2 + c
    requires NoSpace(a) && NoSpace(b) && NoSpace(c) && b != []
    requires s1 != [] && AllSpace(s1) && s2 != [] && AllSpace(s2)
    requires ParseInt(c).None? || ParseInt(c) == Some(0)
    ensures Classify(line) == Skipped
  {
    Line3(a, b, c, s1, s2);
  }

  /** A file of one line. */
  lemma OneLineOutput(line: string)
    requires NoNewline(line)
    ensures ParseOutput(Some(line + "\n")) == Scan([Classify(line)])
  {
    OutputOfLines([line]);
    UnlinesCons([line], line, []);
    assert line + "\n" + [] == line + "\n";
  }

  /** A file of two lines. */
  lemma TwoLineOutput(line1: string, line2: string)
    requires NoNewline(line1) && NoNewline(line2)
    ensures ParseOutput(Some(line1 + "\n" + line2 + "\n")) == Scan([Classify(line1), Classify(line2)])
  {
    var ls := [line1, line2];
    OutputOfLines(ls);
    UnlinesCons(ls, line1, [line2]);
    UnlinesCons([line2], line2, []);
    assert line1 + "\n" + (line2 + "\n" + []) == line1 + "\n" + line2 + "\n";
    assert Outcomes(ls) == [Classify(line1), Classify(line2)];
  }

  lemma ScanOne(o: Outcome)
    ensures Scan([o]) == if o == Short then Err(IndexError) else Ok(Kept([o]))
  {
    ScanSpec([o]);
  }

  lemma ScanTwo(o1: Outcome, o2: Outcome)
    ensures Scan([o1, o2]) == if o1 == Short || o2 == Short then Err(IndexError) else Ok(Kept([o1]) + Kept([o2]))
  {
    ScanSpec([o1, o2]);
    assert [o1, o2] == [o1] + [o2];
    KeptAppend([o1], [o2]);
  }

  /** The call on a standard output of one line and no standard error. */
  lemma OneLineFile(content: string, line: string, o: Outcome)
    requires content == line + "\n" && NoNewline(line) && Classify(line) == o
    ensures OutputNodes(Some(content), None) ==
      match o
      case Short => Err(IndexError)
      case Skipped => Ok([OutputNode("output", Parameters([], []))])
      case Recorded(d) => Ok([OutputNode("output", Parameters([d], []))])
  {
    OneLineOutput(line);
    ScanOne(o);
    KeptOne(o);
  }

  /** The call on a standard output of two lines and no standard error. */
  lemma TwoLineFile(content: string, line1: string, line2: string, o1: Outcome, o2: Outcome)
    requires content == line1 + "\n" + line2 + "\n" && NoNewline(line1) && NoNewline(line2)
    requires Classify(line1) == o1 && Classify(line2) == o2
    ensures OutputNodes(Some(content), None) ==
      if o1 == Short || o2 == Short then Err(IndexError)
      else Ok([OutputNode("output", Parameters(Kept([o1]) + Kept([o2]), []))])
  {
    TwoLineOutput(line1, line2);
    ScanTwo(o1, o2);
  }

  // Whole files

  /** One well-formed line gives one duplicate. */
  lemma ScenarioOneLine(line: string)
    requires line == "H2O  1000001  3"
    ensures OutputNodes(Some(line + "\n"), None) ==
      Ok([OutputNode("output", Parameters([Duplicate("H2O", "1000001", 3)], []))])
  {
    RecordLine(line, "H2O", "1000001", "3", "  ", "  ", 3);
    OneLineFile(line + "\n", line, Recorded(Duplicate("H2O", "1000001", 3)));
  }

  lemma ZeroCountLine(line: string)
    requires line == "CO2  2000002  0"
    ensures NoNewline(line) && Classify(line) == Skipped
  {
    assert ParseInt("0") == Some(0);
    SkipLine(line, "CO2", "2000002", "0", "  ", "  ");
  }

  lemma NaClLine(line: string)
    requires line == "NaCl 3000003  5"
    ensures NoNewline(line) && Classify(line) == Recorded(Duplicate("NaCl", "3000003", 5))
  {
    RecordLine(line, "NaCl", "3000003", "5", " ", "  ", 5);
  }

  /** A line whose count is 0 is dropped and the line after it is still read. */
  lemma ScenarioZeroCount(line1: string, line2: string)
    requires line1 == "CO2  2000002  0" && line2 == "NaCl 3000003  5"
    ensures OutputNodes(Some(line1 + "\n" + line2 + "\n"), None) ==
      Ok([OutputNode("output", Parameters([Duplicate("NaCl", "3000003", 5)], []))])
  {
    ZeroCountLine(line1);
    NaClLine(line2);
    SkipThenRecord(line1, line2, Duplicate("NaCl", "3000003", 5));
  }

  lemma SkipThenRecord(line1: string, line2: string, d: Duplicate)
    requires NoNewline(line1) && NoNewline(line2)
    requires Classify(line1) == Skipped && Classify(line2) == Recorded(d)
    ensures OutputNodes(Some(line1 + "\n" + line2 + "\n"), None) == Ok([OutputNode("output", Parameters([d], []))])
  {
    TwoLineFile(line1 + "\n" + line2 + "\n", line1, line2, Skipped, Recorded(d));
    KeptOne(Skipped);
    KeptOne(Recorded(d));
    assert [] + [d] == [d];
  }

  /** Standard error alone: its line, without the newline, is the one error. */
  lemma ScenarioErrorsOnly(content: string)
    requires content == "tool: warning: skipped line 4\n"
    ensures OutputNodes(None, Some(content)) ==
      Ok([OutputNode("output", Parameters([], ["tool: warning: skipped line 4"]))])
  {
    var line := "tool: warning: skipped line 4";
    assert content == line + "\n";
    UnlinesCons([line], line, []);
    assert line + "\n" + [] == line + "\n";
    ErrorsOfLines([line]);
  }

  /**
   * A line of one field has no `fields[2]`: the whole call raises
   * `IndexError`, whatever standard error holds.
   */
  lemma ScenarioOneField(content: string, error: Option<string>)
    requires content == "X\n"
    ensures OutputNodes(Some(content), error) == Err(IndexError)
  {
    var line := "X";
    assert content == line + "\n";
    assert Interleave([line], []) == line;
    ClassifyInterleave([line], []);
    OneLineOutput(line);
    ScanOne(Short);
  }

  // Corner cases of the line handling

  /** Leading whitespace shifts the fields: formula `""`, codid `H2O`, count 1. */
  lemma LeadingWhitespaceExample(line: string)
    requires line == "  H2O 1 3"
    ensures Classify(line) == Recorded(Duplicate("", "H2O", 1))
  {
    var fields, seps := ["H2O", "1", "3"], [" ", " "];
    Glue3("H2O", "1", "3", " ", " ");
    assert line == "  " + Interleave(fields, seps);
    LeadingWhitespace("  ", fields, seps);
    assert [""] + fields == ["", "H2O", "1", "3"];
    assert ParseInt("1") == Some(1);
    ParsedCountKept(["", "H2O", "1", "3"], 1);
  }

  /** Trailing whitespace after two fields gives an empty third field, which `int` rejects: the line is skipped. */
  lemma TrailingWhitespaceExample(line: string)
    requires line == "a b "
    ensures Classify(line) == Skipped
  {
    Glue2("a", "b", " ");
    assert line == Interleave(["a", "b"], [" "]) + " ";
    TrailingWhitespace(["a", "b"], [" "], " ");
    assert ["a", "b"] + [""] == ["a", "b", ""];
  }

  /** A '\r' before the newline is whitespace to the split: it only adds an empty fourth field. */
  lemma CarriageReturnExample(line: string)
    requires line == "C 100 3\r"
    ensures Classify(line) == Recorded(Duplicate("C", "100", 3))
  {
    var fields, seps := ["C", "100", "3"], [" ", " "];
    Glue3("C", "100", "3", " ", " ");
    assert line == Interleave(fields, seps) + "\r";
    TrailingWhitespace(fields, seps, "\r");
    ExtraFieldsIgnored(fields, [""]);
    assert ParseInt("3") == Some(3);
    ParsedCountKept(fields, 3);
  }

  /** `int` reads a sign, so a negative count is truthy and kept. */
  lemma NegativeCountExample(line: string)
    requires line == "C 100 -2"
    ensures Classify(line) == Recorded(Duplicate("C", "100", -2))
  {
    assert line == "C" + " " + "100" + " " + "-2";
    Line3("C", "100", "-2", " ", " ");
    assert ("-2")[1..] == "2";
    assert ParseInt("-2") == Some(-2);
    ParsedCountKept(["C", "100", "-2"], -2);
  }

  /** A signed zero is still zero, and dropped. */
  lemma SignedZeroExample(line: string)
    requires line == "C 100 -00"
    ensures Classify(line) == Skipped
  {
    assert line == "C" + " " + "100" + " " + "-00";
    Line3("C", "100", "-00", " ", " ");
    assert ("-00")[1..] == "00";
    ZeroCountSkipped(["C", "100", "-00"]);
  }

  /** A third field that is not a number is skipped. */
  lemma NotANumberExample(line: string)
    requires line == "C 100 abc"
    ensures Classify(line) == Skipped
  {
    assert line == "C" + " " + "100" + " " + "abc";
    Line3("C", "100", "abc", " ", " ");
    assert !IsDigit('a');
  }

  lemma BlankLine(line: string)
    requires line == ""
    ensures NoNewline(line) && Classify(line) == Short
  {
    assert Interleave([line], []) == line;
    ClassifyInterleave([line], []);
  }

  /** An empty line, such as a blank line at the end of the file, makes the whole call fail. */
  lemma BlankLineExample(line1: string, line2: string)
    requires line1 == "NaCl 3000003  5" && line2 == ""
    ensures OutputNodes(Some(line1 + "\n" + line2 + "\n"), None) == Err(IndexError)
  {
    NaClLine(line1);
    BlankLine(line2);
    TwoLineFile(line1 + "\n" + line2 + "\n", line1, line2, Classify(line1), Short);
  }

  /** Equal lines are not merged: each gives its own record. */
  lemma RepeatedLineExample(line: string)
    requires line == "NaCl 3000003  5"
    ensures OutputNodes(Some(line + "\n" + line + "\n"), None) ==
      Ok([OutputNode("output", Parameters([Duplicate("NaCl", "3000003", 5), Duplicate("NaCl", "3000003", 5)], []))])
  {
    NaClLine(line);
    RecordTwice(line, Duplicate("NaCl", "3000003", 5));
  }

  lemma RecordTwice(line: string, d: Duplicate)
    requires NoNewline(line) && Classify(line) == Recorded(d)
    ensures OutputNodes(Some(line + "\n" + line + "\n"), None) == Ok([OutputNode("output", Parameters([d, d], []))])
  {
    TwoLineFile(line + "\n" + line + "\n", line, line, Recorded(d), Recorded(d));
    KeptOne(Recorded(d));
    assert [d] + [d] == [d, d];
  }

  /** Error lines are kept as they are: a '\r' stays, and so does an empty line. */
  lemma ErrorLinesExample(content: string)
    requires content == "oops\r\n\nend\n"
    ensures ParseErrors(Some(content)) == ["oops\r", "", "end"]
  {
    var ls := ["oops\r", "", "end"];
    assert ls[1..] == ["", "end"] && ls[1..][1..] == ["end"] && ls[1..][1..][1..] == [];
    assert Unlines(ls) == "oops\r" + "\n" + ("" + "\n" + ("end" + "\n" + []));
    assert content == Unlines(ls);
    ErrorsOfLines(ls);
  }
}
