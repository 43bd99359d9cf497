/**
 * `re.split('\s+', line)` for a byte string in Python 2: the line is cut at
 * every maximal run of ASCII whitespace. A line that begins (ends) with
 * whitespace yields an empty first (last) field, and the empty line yields
 * the single field "".
 */
module PySplit {

  /** The characters `\s` matches in a byte-string pattern: space, \t, \n, \r, \f and \v. */
  predicate IsSpace(c: char)
  {
    c == ' ' || c == '\t' || c == '\n' || c == '\r' || c == '\U{000C}' || c == '\U{000B}'
  }

  predicate NoSpace(s: string)
  {
    forall k :: 0 <= k < |s| ==> !IsSpace(s[k])
  }

  predicate AllSpace(s: string)
  {
    forall k :: 0 <= k < |s| ==> IsSpace(s[k])
  }

  /** The first whitespace character of `s` at or after `i`, or `|s|`. */
  function SpaceFrom(s: string, i: nat): (j: nat)
    requires i <= |s|
    ensures i <= j <= |s|
    ensures j < |s| ==> IsSpace(s[j])
    ensures forall k :: i <= k < j ==> !IsSpace(s[k])
    decreases |s| - i
  {
    if i == |s| || IsSpace(s[i]) then i else SpaceFrom(s, i + 1)
  }

  /** The first character of `s` at or after `i` that is not whitespace, or `|s|`. */
  function NonSpaceFrom(s: string, i: nat): (j: nat)
    requires i <= |s|
    ensures i <= j <= |s|
    ensures j < |s| ==> !IsSpace(s[j])
    ensures forall k :: i <= k < j ==> IsSpace(s[k])
    decreases |s| - i
  {
    if i == |s| || !IsSpace(s[i]) then i else NonSpaceFrom(s, i + 1)
  }

  /** The fields of `s[start..]`, where `start` is 0 or the end of a run of whitespace. */
  function SplitFrom(s: string, start: nat): seq<string>
    requires start <= |s|
    decreases |s| - start
  {
    var i := SpaceFrom(s, start);
    if i == |s| then [s[start..]] else [s[start..i]] + SplitFrom(s, NonSpaceFrom(s, i))
  }

  /** The runs of whitespace `SplitFrom` cuts `s[start..]` at, in order. */
  function GapsFrom(s: string, start: nat): seq<string>
    requires start <= |s|
    decreases |s| - start
  {
    var i := SpaceFrom(s, start);
    if i == |s| then [] else [s[i..NonSpaceFrom(s, i)]] + GapsFrom(s, NonSpaceFrom(s, i))
  }

  /** `re.split('\s+', s)`: the fields between the runs of whitespace. */
  function SplitWs(s: string): seq<string>
  {
    SplitFrom(s, 0)
  }

  /** The runs of whitespace between the fields of `s`. */
  function Gaps(s: string): seq<string>
  {
    GapsFrom(s, 0)
  }

  /** Fields glued together with the separators between them. */
  function Interleave(fields: seq<string>, seps: seq<string>): string
    requires |fields| == |seps| + 1
  {
    if |fields| == 1 then fields[0] else fields[0] + seps[0] + Interleave(fields[1..], seps[1..])
  }

  /**
   * What `re.split('\s+', ...)` can return: at least one field, no field
   * holds whitespace, and only the first and the last field may be empty.
   */
  predicate WellSplit(fields: seq<string>)
  {
    |fields| >= 1 &&
    (forall k :: 0 <= k < |fields| ==> NoSpace(fields[k])) &&
    (forall k :: 0 < k < |fields| - 1 ==> fields[k] != [])
  }

  /** Separators that are runs of whitespace. */
  predicate Runs(seps: seq<string>)
  {
    forall k :: 0 <= k < |seps| ==> seps[k] != [] && AllSpace(seps[k])
  }

  /**
   * Every text is its fields glued together with its runs of whitespace, and
   * its fields are as `WellSplit` says.
   */
  lemma SplitWsDecomposes(s: string)
    ensures |SplitWs(s)| == |Gaps(s)| + 1
    ensures s == Interleave(SplitWs(s), Gaps(s))
    ensures WellSplit(SplitWs(s)) && Runs(Gaps(s))
  {
    SplitFromDecomposes(s, 0);
  }

  /**
   * `SplitWsDecomposes` for the text from `start` on; a text that starts after
   * a run of whitespace has a first field that is empty only if it is the last.
   */
  lemma {:induction false} SplitFromDecomposes(s: string, start: nat)
    requires start <= |s|
    ensures |SplitFrom(s, start)| == |GapsFrom(s, start)| + 1
    ensures s[start..] == Interleave(SplitFrom(s, start), GapsFrom(s, start))
    ensures WellSplit(SplitFrom(s, start)) && Runs(GapsFrom(s, start))
    decreases |s| - start
  {
    var i := SpaceFrom(s, start);
    if i == |s| {
      FieldHasNoSpace(s, start, i);
    } else {
      var j := NonSpaceFrom(s, i);
      SplitFromDecomposes(s, j);
      FieldHasNoSpace(s, start, i);
      RunIsSpace(s, i, j);
      NextFieldNotEmpty(s, j);
      ConsSplit(s[start..i], s[i..j], SplitFrom(s, j), GapsFrom(s, j));
      ThreeParts(s, start, i, j);
    }
  }

  lemma FieldHasNoSpace(s: string, start: nat, i: nat)
    requires start <= |s| && i == SpaceFrom(s, start)
    ensures NoSpace(s[start..i])
  {
    forall k | 0 <= k < i - start ensures !IsSpace(s[start..i][k]) {
      assert s[start..i][k] == s[start + k];
    }
  }

  lemma RunIsSpace(s: string, i: nat, j: nat)
    requires i < |s| && IsSpace(s[i]) && j == NonSpaceFrom(s, i)
    ensures s[i..j] != [] && AllSpace(s[i..j])
  {
    forall k | 0 <= k < j - i ensures IsSpace(s[i..j][k]) {
      assert s[i..j][k] == s[i + k];
    }
  }

  /** After a run of whitespace, the next field is empty only at the end of the text. */
  lemma NextFieldNotEmpty(s: string, j: nat)
    requires j <= |s|
    requires j < |s| ==> !IsSpace(s[j])
    ensures |SplitFrom(s, j)| > 1 ==> SplitFrom(s, j)[0] != []
  {
    if j < |s| {
      assert SpaceFrom(s, j) > j;
    }
  }

  lemma ThreeParts(s: string, a: nat, i: nat, j: nat)
    requires a <= i <= j <= |s|
    ensures s[a..] == s[a..i] + s[i..j] + s[j..]
  {
  }

  /** Putting a field and a run of whitespace in front of a split. */
  lemma ConsSplit(f: string, sep: string, fields: seq<string>, seps: seq<string>)
    requires NoSpace(f) && sep != [] && AllSpace(sep)
    requires |fields| == |seps| + 1 && WellSplit(fields) && Runs(seps)
    requires |fields| > 1 ==> fields[0] != []
    ensures Interleave([f] + fields, [sep] + seps) == f + sep + Interleave(fields, seps)
    ensures WellSplit([f] + fields) && Runs([sep] + seps)
  {
    var fs, ss := [f] + fields, [sep] + seps;
    assert fs[1..] == fields && ss[1..] == seps;
    forall k | 1 <= k < |fs| ensures NoSpace(fs[k]) {
      assert fs[k] == fields[k - 1];
    }
    forall k | 1 <= k < |ss| ensures ss[k] != [] && AllSpace(ss[k]) {
      assert ss[k] == seps[k - 1];
    }
    forall k | 0 < k < |fs| - 1 ensures fs[k] != [] {
      assert fs[k] == fields[k - 1];
    }
  }

  /**
   * Splitting undoes gluing: fields that `WellSplit` admits, glued with any
   * runs of whitespace, split back into exactly those fields.
   */
  lemma SplitWsInterleave(fields: seq<string>, seps: seq<string>)
    requires |fields| == |seps| + 1 && WellSplit(fields) && Runs(seps)
    ensures SplitWs(Interleave(fields, seps)) == fields
  {
    var s := Interleave(fields, seps);
    assert s[0..] == s;
    SplitFromInterleave(s, 0, fields, seps);
  }

  /** `SplitWsInterleave` for a glued text that starts at offset `a` of `s`. */
  lemma {:induction false} SplitFromInterleave(s: string, a: nat, fields: seq<string>, seps: seq<string>)
    requires a <= |s| && |fields| == |seps| + 1 && WellSplit(fields) && Runs(seps)
    requires s[a..] == Interleave(fields, seps)
    ensures SplitFrom(s, a) == fields
    decreases |fields|
  {
    if |fields| == 1 {
      SplitFromLast(s, a, fields[0]);
    } else {
      var f, sep, r := fields[0], seps[0], Interleave(fields[1..], seps[1..]);
      TailWellSplit(fields, seps);
      InterleaveHead(fields[1..], seps[1..]);
      InterleaveCons(fields, seps);
      var i, j := Pieces(s, a, f, sep, r);
      SpaceFromSlice(s, a, i);
      NonSpaceFromSlice(s, i, j);
      SplitFromInterleave(s, j, fields[1..], seps[1..]);
      SplitFromField(s, a, i, j, f);
      HeadTail(fields);
    }
  }

  /** Where the field, the run of whitespace and the rest of `f + sep + r` sit in `s`. */
  lemma Pieces(s: string, a: nat, f: string, sep: string, r: string) returns (i: nat, j: nat)
    requires a <= |s| && s[a..] == f + sep + r && sep != [] && AllSpace(sep)
    requires r == [] || !IsSpace(r[0])
    ensures i == a + |f| && j == i + |sep| && i < j <= |s|
    ensures s[a..i] == f && s[i..j] == sep && s[j..] == r
    ensures IsSpace(s[i]) && (j < |s| ==> !IsSpace(s[j]))
  {
    i, j := a + |f|, a + |f| + |sep|;
    var t := s[a..];
    assert t[..|f|] == f;
    assert s[a..i] == t[..|f|];
    assert t[|f|..|f| + |sep|] == sep;
    assert s[i..j] == t[|f|..|f| + |sep|];
    assert t[|f| + |sep|..] == r;
    assert s[j..] == t[|f| + |sep|..];
    assert s[i] == sep[0];
    if j < |s| {
      assert s[j] == r[0];
    }
  }

  lemma InterleaveCons(fields: seq<string>, seps: seq<string>)
    requires |fields| == |seps| + 1 && |fields| > 1
    ensures Interleave(fields, seps) == fields[0] + seps[0] + Interleave(fields[1..], seps[1..])
  {
  }

  lemma HeadTail(fields: seq<string>)
    requires fields != []
    ensures fields == [fields[0]] + fields[1..]
  {
  }

  lemma SplitFromStep(s: string, start: nat, i: nat, j: nat)
    requires start <= |s| && i == SpaceFrom(s, start) && i < |s| && j == NonSpaceFrom(s, i)
    ensures SplitFrom(s, start) == [s[start..i]] + SplitFrom(s, j)
  {
  }

  /** `SplitFromStep` with the field's text given. */
  lemma SplitFromField(s: string, start: nat, i: nat, j: nat, f: string)
    requires start <= |s| && i == SpaceFrom(s, start) && i < |s| && j == NonSpaceFrom(s, i)
    requires s[start..i] == f
    ensures SplitFrom(s, start) == [f] + SplitFrom(s, j)
  {
    SplitFromStep(s, start, i, j);
  }

  /** From the start of a last field without whitespace, the split is that field. */
  lemma SplitFromLast(s: string, a: nat, f: string)
    requires a <= |s| && s[a..] == f && NoSpace(f)
    ensures SplitFrom(s, a) == [f]
  {
    forall k | a <= k < |s| ensures !IsSpace(s[k]) {
      assert s[k] == f[k - a];
    }
    SpaceFromIs(s, a, |s|);
  }

  /** A field without whitespace, followed by whitespace, ends where that whitespace starts. */
  lemma SpaceFromSlice(s: string, a: nat, i: nat)
    requires a <= i < |s| && NoSpace(s[a..i]) && IsSpace(s[i])
    ensures SpaceFrom(s, a) == i
  {
    forall k | a <= k < i ensures !IsSpace(s[k]) {
      assert s[k] == s[a..i][k - a];
    }
    SpaceFromIs(s, a, i);
  }

  /** A run of whitespace followed by no whitespace ends there. */
  lemma NonSpaceFromSlice(s: string, i: nat, j: nat)
    requires i <= j <= |s| && AllSpace(s[i..j]) && (j < |s| ==> !IsSpace(s[j]))
    ensures NonSpaceFrom(s, i) == j
  {
    forall k | i <= k < j ensures IsSpace(s[k]) {
      assert s[k] == s[i..j][k - i];
    }
    NonSpaceFromIs(s, i, j);
  }

  /** `SpaceFrom` finds `m` when nothing from `i` up to `m` is whitespace and `m` is. */
  lemma {:induction false} SpaceFromIs(s: string, i: nat, m: nat)
    requires i <= m <= |s|
    requires forall k :: i <= k < m ==> !IsSpace(s[k])
    requires m < |s| ==> IsSpace(s[m])
    ensures SpaceFrom(s, i) == m
    decreases m - i
  {
    if i < m {
      SpaceFromIs(s, i + 1, m);
    }
  }

  /** `NonSpaceFrom` finds `m` when everything from `i` up to `m` is whitespace and `m` is not. */
  lemma {:induction false} NonSpaceFromIs(s: string, i: nat, m: nat)
    requires i <= m <= |s|
    requires forall k :: i <= k < m ==> IsSpace(s[k])
    requires m < |s| ==> !IsSpace(s[m])
    ensures NonSpaceFrom(s, i) == m
    decreases m - i
  {
    if i < m {
      NonSpaceFromIs(s, i + 1, m);
    }
  }

  lemma TailWellSplit(fields: seq<string>, seps: seq<string>)
    requires |fields| == |seps| + 1 && |fields| > 1 && WellSplit(fields) && Runs(seps)
    ensures WellSplit(fields[1..]) && Runs(seps[1..])
    ensures |fields| > 2 ==> fields[1] != []
    ensures NoSpace(fields[0]) && seps[0] != [] && AllSpace(seps[0])
  {
    var rest := fields[1..];
    forall k | 0 <= k < |rest| ensures NoSpace(rest[k]) {
      assert rest[k] == fields[k + 1];
    }
    forall k | 0 < k < |rest| - 1 ensures rest[k] != [] {
      assert rest[k] == fields[k + 1];
    }
    forall k | 0 <= k < |seps| - 1 ensures seps[1..][k] != [] && AllSpace(seps[1..][k]) {
      assert seps[1..][k] == seps[k + 1];
    }
  }

  /** The glued text starts with its first field, which has no whitespace. */
  lemma InterleaveHead(fields: seq<string>, seps: seq<string>)
    requires |fields| == |seps| + 1 && WellSplit(fields) && Runs(seps)
    requires |fields| > 1 ==> fields[0] != []
    ensures Interleave(fields, seps) == [] || !IsSpace(Interleave(fields, seps)[0])
  {
    if fields[0] != [] {
      assert !IsSpace(fields[0][0]);
      assert Interleave(fields, seps)[0] == fields[0][0];
    }
  }
}
