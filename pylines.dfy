/**
 * The line handling the parser takes from Python 2: `file.readlines()` on a
 * file opened in text mode without universal newlines on a POSIX system (only
 * '\n' ends a line, '\r' is an ordinary character), and `str.strip('\n')`
 * applied to each line read.
 */
module PyLines {

  /** Index of the first '\n' of `s`, or `|s|` when there is none. */
  function FindNewline(s: string): (i: nat)
    ensures i <= |s|
    ensures i < |s| ==> s[i] == '\n'
  {
    if s == [] || s[0] == '\n' then 0 else 1 + FindNewline(s[1..])
  }

  /** No '\n' comes before the one `FindNewline` finds. */
  lemma {:induction false} FindNewlineFirst(s: string)
    ensures forall k :: 0 <= k < FindNewline(s) ==> s[k] != '\n'
  {
    if s != [] && s[0] != '\n' {
      FindNewlineFirst(s[1..]);
      assert forall k :: 1 <= k < FindNewline(s) ==> s[k] == s[1..][k - 1];
    }
  }

  /**
   * `readlines()`: the text is cut after every '\n'; every line keeps its '\n',
   * and a last segment without one is a line when it is not empty.
   */
  function ReadLines(s: string): seq<string>
    decreases |s|
  {
    if s == [] then []
    else
      var i := FindNewline(s);
      if i == |s| then [s] else [s[..i + 1]] + ReadLines(s[i + 1..])
  }

  /** Concatenation of a sequence of strings. */
  function Concat(ls: seq<string>): string
  {
    if ls == [] then [] else ls[0] + Concat(ls[1..])
  }

  /** A line as `readlines()` returns it: not empty, and a '\n' only as its last character. */
  predicate IsReadLine(l: string)
  {
    l != [] && forall k :: 0 <= k < |l| - 1 ==> l[k] != '\n'
  }

  predicate EndsWithNewline(s: string)
  {
    s != [] && s[|s| - 1] == '\n'
  }

  /** A text with a '\n' reads as its first line, up to and including that '\n', then the rest. */
  lemma ReadLinesFirst(s: string)
    requires FindNewline(s) < |s|
    ensures ReadLines(s) != [] && ReadLines(s)[0] == s[..FindNewline(s) + 1]
    ensures ReadLines(s)[1..] == ReadLines(s[FindNewline(s) + 1..])
  {
  }

  /** Reading the lines of a text loses nothing: they concatenate back to the text. */
  lemma {:induction false} ReadLinesConcat(s: string)
    ensures Concat(ReadLines(s)) == s
    decreases |s|
  {
    if s != [] {
      var i := FindNewline(s);
      if i < |s| {
        var rest := s[i + 1..];
        ReadLinesConcat(rest);
        ReadLinesFirst(s);
        assert s == s[..i + 1] + rest;
      }
    }
  }

  /** The first line of a text with a '\n', up to and including it, is a line. */
  lemma FirstLineIsReadLine(s: string)
    requires FindNewline(s) < |s|
    ensures IsReadLine(s[..FindNewline(s) + 1]) && EndsWithNewline(s[..FindNewline(s) + 1])
  {
    FindNewlineFirst(s);
  }

  /** A text without '\n' that is not empty is a line. */
  lemma LastLineIsReadLine(s: string)
    requires s != [] && FindNewline(s) == |s|
    ensures IsReadLine(s) && !EndsWithNewline(s)
  {
    FindNewlineFirst(s);
  }

  /** Every line `readlines()` returns is a line as `IsReadLine` describes it. */
  lemma {:induction false} ReadLinesAreLines(s: string)
    ensures forall k :: 0 <= k < |ReadLines(s)| ==> IsReadLine(ReadLines(s)[k])
    decreases |s|
  {
    if s != [] {
      if FindNewline(s) < |s| {
        ReadLinesAreLines(s[FindNewline(s) + 1..]);
        ReadLinesFirst(s);
        FirstLineIsReadLine(s);
        ConsAll(ReadLines(s), ReadLines(s[FindNewline(s) + 1..]));
      } else {
        LastLineIsReadLine(s);
      }
    }
  }

  /** A sequence of lines whose head is a line and whose tail consists of lines. */
  lemma ConsAll(ls: seq<string>, rest: seq<string>)
    requires ls != [] && IsReadLine(ls[0]) && ls[1..] == rest
    requires forall k :: 0 <= k < |rest| ==> IsReadLine(rest[k])
    ensures forall k :: 0 <= k < |ls| ==> IsReadLine(ls[k])
  {
    forall k | 1 <= k < |ls| ensures IsReadLine(ls[k]) {
      assert ls[k] == rest[k - 1];
    }
  }

  /**
   * All lines `readlines()` returns but the last are terminated, and the last
   * is terminated exactly when the text is; there are none only for the empty
   * text.
   */
  lemma {:induction false} ReadLinesTerminated(s: string)
    ensures ReadLines(s) == [] <==> s == []
    ensures forall k :: 0 <= k < |ReadLines(s)| - 1 ==> EndsWithNewline(ReadLines(s)[k])
    ensures ReadLines(s) != [] ==> (EndsWithNewline(ReadLines(s)[|ReadLines(s)| - 1]) <==> EndsWithNewline(s))
    decreases |s|
  {
    if s != [] {
      if FindNewline(s) < |s| {
        var rest := s[FindNewline(s) + 1..];
        ReadLinesTerminated(rest);
        ReadLinesFirst(s);
        FirstLineIsReadLine(s);
        ConsTerminated(ReadLines(s), ReadLines(rest));
        if rest != [] {
          SuffixLast(s, rest);
        }
      } else {
        LastLineIsReadLine(s);
      }
    }
  }

  lemma ConsTerminated(ls: seq<string>, rest: seq<string>)
    requires ls != [] && EndsWithNewline(ls[0]) && ls[1..] == rest
    requires forall k :: 0 <= k < |rest| - 1 ==> EndsWithNewline(rest[k])
    ensures forall k :: 0 <= k < |ls| - 1 ==> EndsWithNewline(ls[k])
    ensures rest != [] ==> ls[|ls| - 1] == rest[|rest| - 1]
  {
    forall k | 1 <= k < |ls| - 1 ensures EndsWithNewline(ls[k]) {
      assert ls[k] == rest[k - 1];
    }
    if rest != [] {
      assert ls[|ls| - 1] == rest[|rest| - 1];
    }
  }

  /** A non-empty suffix ends as the text does. */
  lemma SuffixLast(s: string, rest: string)
    requires rest != [] && |rest| <= |s| && rest == s[|s| - |rest|..]
    ensures EndsWithNewline(s) <==> EndsWithNewline(rest)
  {
    assert s[|s| - 1] == rest[|rest| - 1];
  }

  /** Drops every leading '\n'. */
  function StripLeading(l: string): string
  {
    if l != [] && l[0] == '\n' then StripLeading(l[1..]) else l
  }

  /** Drops every trailing '\n'. */
  function StripTrailing(l: string): string
  {
    if l != [] && l[|l| - 1] == '\n' then StripTrailing(l[..|l| - 1]) else l
  }

  /** `l.strip('\n')`: removes the '\n' characters at both ends of `l`. */
  function StripNewlines(l: string): string
  {
    StripTrailing(StripLeading(l))
  }

  /** The line without its terminator, if it has one. */
  function DropTerminator(l: string): string
  {
    if EndsWithNewline(l) then l[..|l| - 1] else l
  }

  /**
   * On a line that `readlines()` produced, `strip('\n')` removes exactly the
   * terminating '\n' and nothing else: a line that is only "\n" becomes "".
   */
  lemma StripReadLine(l: string)
    requires IsReadLine(l)
    ensures StripNewlines(l) == DropTerminator(l)
    ensures forall k :: 0 <= k < |StripNewlines(l)| ==> StripNewlines(l)[k] != '\n'
  {
    if l[0] == '\n' {
      assert |l| == 1;
      assert StripLeading(l) == StripLeading(l[1..]) == [];
    } else {
      assert StripLeading(l) == l;
      if EndsWithNewline(l) {
        var d := l[..|l| - 1];
        assert StripTrailing(d) == d by {
          assert d == [] || d[|d| - 1] != '\n';
        }
      }
    }
  }

  /** `[x.strip('\n') for x in content]` */
  function StripAll(content: seq<string>): (r: seq<string>)
    ensures |r| == |content|
    ensures forall k :: 0 <= k < |content| ==> r[k] == StripNewlines(content[k])
  {
    if content == [] then [] else [StripNewlines(content[0])] + StripAll(content[1..])
  }

  lemma StripAllCons(c: seq<string>, first: string, rest: seq<string>)
    requires c != [] && StripNewlines(c[0]) == first && c[1..] == rest
    ensures StripAll(c) == [first] + StripAll(rest)
  {
  }

  /** The lines of a text as the parser sees them: read, then stripped of '\n'. */
  function Lines(s: string): seq<string>
  {
    StripAll(ReadLines(s))
  }

  /** Writes each line followed by '\n'. */
  function Unlines(ls: seq<string>): string
  {
    if ls == [] then [] else ls[0] + "\n" + Unlines(ls[1..])
  }

  /** No line of `Lines(s)` contains a '\n'. */
  lemma LinesHaveNoNewline(s: string)
    ensures forall k, j :: 0 <= k < |Lines(s)| && 0 <= j < |Lines(s)[k]| ==> Lines(s)[k][j] != '\n'
  {
    ReadLinesAreLines(s);
    forall k | 0 <= k < |Lines(s)|
      ensures forall j :: 0 <= j < |Lines(s)[k]| ==> Lines(s)[k][j] != '\n'
    {
      StripReadLine(ReadLines(s)[k]);
    }
  }

  /** Cutting the first line off a text that has a '\n'. */
  lemma StripFirstLine(s: string)
    requires FindNewline(s) < |s|
    ensures StripNewlines(s[..FindNewline(s) + 1]) == s[..FindNewline(s)]
  {
    FirstLineIsReadLine(s);
    StripTerminatedLine(s[..FindNewline(s) + 1], s[..FindNewline(s)]);
  }

  lemma StripTerminatedLine(l: string, body: string)
    requires IsReadLine(l) && EndsWithNewline(l) && body == l[..|l| - 1]
    ensures StripNewlines(l) == body
  {
    StripReadLine(l);
  }

  /** A text with a '\n' has as lines its first line, stripped, then the lines of the rest. */
  lemma LinesStep(s: string)
    requires FindNewline(s) < |s|
    ensures Lines(s) == [s[..FindNewline(s)]] + Lines(s[FindNewline(s) + 1..])
  {
    ReadLinesFirst(s);
    StripFirstLine(s);
    StripAllCons(ReadLines(s), s[..FindNewline(s)], ReadLines(s[FindNewline(s) + 1..]));
  }

  /**
   * Writing the lines of a text back, each followed by '\n', gives the text
   * again, with one '\n' added when the text did not end in one: together with
   * `LinesHaveNoNewline` this says that `Lines` drops the terminators and
   * nothing else.
   */
  lemma {:induction false} LinesRoundTrip(s: string)
    ensures Unlines(Lines(s)) == if s == [] || EndsWithNewline(s) then s else s + "\n"
    decreases |s|
  {
    if s != [] {
      if FindNewline(s) == |s| {
        LastLine(s);
        UnlinesCons([s], s, []);
        assert s + "\n" + [] == s + "\n";
      } else {
        var rest := s[FindNewline(s) + 1..];
        LinesRoundTrip(rest);
        LinesStep(s);
        UnlinesCons(Lines(s), s[..FindNewline(s)], Lines(rest));
        SplitAtNewline(s);
        if rest != [] {
          SuffixLast(s, rest);
        }
      }
    }
  }

  /** A text without '\n' that is not empty is one line. */
  lemma LastLine(s: string)
    requires s != [] && FindNewline(s) == |s|
    ensures Lines(s) == [s] && !EndsWithNewline(s)
  {
    LastLineIsReadLine(s);
    StripReadLine(s);
    assert ReadLines(s) == [s];
  }

  lemma UnlinesCons(ls: seq<string>, first: string, rest: seq<string>)
    requires ls != [] && ls[0] == first && ls[1..] == rest
    ensures Unlines(ls) == first + "\n" + Unlines(rest)
  {
  }

  /** A text is its first line, the '\n' that ends it, and the rest. */
  lemma SplitAtNewline(s: string)
    requires FindNewline(s) < |s|
    ensures s == s[..FindNewline(s)] + "\n" + s[FindNewline(s) + 1..]
  {
    var i := FindNewline(s);
    assert s == s[..i] + [s[i]] + s[i + 1..];
  }

  predicate NoNewline(l: string)
  {
    forall j :: 0 <= j < |l| ==> l[j] != '\n'
  }

  /**
   * Reading back what `Unlines` wrote gives the same lines, empty ones
   * included, as long as no line holds a '\n' of its own.
   */
  lemma {:induction false} UnlinesRoundTrip(ls: seq<string>)
    requires forall k :: 0 <= k < |ls| ==> NoNewline(ls[k])
    ensures Lines(Unlines(ls)) == ls
    decreases |ls|
  {
    if ls != [] {
      var rest := ls[1..];
      UnlinesRoundTrip(rest);
      JoinedLine(ls[0], Unlines(rest), rest);
    }
  }

  lemma JoinedLine(l: string, t: string, rest: seq<string>)
    requires NoNewline(l) && Lines(t) == rest
    ensures Lines(l + "\n" + t) == [l] + rest
  {
    var s := l + "\n" + t;
    FindNewlineIs(l, t);
    LinesStep(s);
    assert s[..|l|] == l;
    assert s[|l| + 1..] == t;
  }

  /** The first '\n' of `l + "\n" + t` is the one after `l` when `l` has none. */
  lemma {:induction false} FindNewlineIs(l: string, t: string)
    requires NoNewline(l)
    ensures FindNewline(l + "\n" + t) == |l|
    decreases |l|
  {
    if l != [] {
      FindNewlineIs(l[1..], t);
      assert (l + "\n" + t)[1..] == l[1..] + "\n" + t;
    }
  }
}
