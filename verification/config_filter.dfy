/** The filter-and-transform step of the exporter: every line the
    configuration dump prints is split into a key and a value, and the pair is
    kept when the key starts with one of the requested path prefixes.
    (magento-config-exporter.py, lines 129-143.) */
module ConfigFilter {
  import opened Wrappers
  import opened Text

  /** What separates a key from its value on one line of the dump. */
  const Separator: string := " - "

  /** One configuration value: its path and its value, both trimmed. */
  datatype Entry = Entry(key: string, value: string)

  /** One line of the dump: a line without the separator gives nothing;
      otherwise the line is cut at the first separator and both halves are
      trimmed. */
  function ParseLine(line: string): (r: Option<Entry>)
    ensures r.None? <==> !Contains(line, Separator)
    ensures r.Some? ==>
      exists i: nat :: FirstOccurrence(line, Separator, i)
                    && r.value == Entry(Strip(line[..i]), Strip(line[i + |Separator|..]))
  {
    match SplitOnce(line, Separator)
    case None => None
    case Some((k, v)) =>
      assert line[..|k|] == k && line[|k| + |Separator|..] == v by {
        assert line == k + Separator + v;
      }
      assert FirstOccurrence(line, Separator, |k|);
      Some(Entry(Strip(k), Strip(v)))
  }

  /** Where the first separator stands decides the entry. */
  lemma ParseAt(line: string, i: nat)
    requires FirstOccurrence(line, Separator, i)
    ensures ParseLine(line) == Some(Entry(Strip(line[..i]), Strip(line[i + |Separator|..])))
  {
    SplitAtFirst(line, Separator, i);
  }

  /** A parsed line carries the key `key`. */
  predicate HasKey(parsed: Option<Entry>, key: string) {
    parsed.Some? && parsed.value.key == key
  }

  /** Line `line` yields an entry whose (trimmed) key is `key`. */
  predicate Produces(line: string, key: string) {
    HasKey(ParseLine(line), key)
  }

  /** The key starts with at least one of the requested prefixes. */
  predicate MatchesAny(paths: seq<string>, key: string) {
    exists i :: 0 <= i < |paths| && StartsWith(key, paths[i])
  }

  /** The inner loop of the script: for every requested prefix the key starts
      with, the entry is stored (again). The net effect is one store exactly
      when some prefix matches. */
  function StoreForPaths(m: map<string, string>, e: Entry, paths: seq<string>): (r: map<string, string>)
    ensures r == if MatchesAny(paths, e.key) then m[e.key := e.value] else m
    decreases |paths|
  {
    if |paths| == 0 then m
    else
      var m' := if StartsWith(e.key, paths[0]) then m[e.key := e.value] else m;
      var r := StoreForPaths(m', e, paths[1..]);
      assert MatchesAny(paths, e.key) <==> StartsWith(e.key, paths[0]) || MatchesAny(paths[1..], e.key) by {
        if MatchesAny(paths[1..], e.key) {
          var i :| 0 <= i < |paths[1..]| && StartsWith(e.key, paths[1..][i]);
          assert paths[i + 1] == paths[1..][i];
        }
        if MatchesAny(paths, e.key) && !StartsWith(e.key, paths[0]) {
          var i :| 0 <= i < |paths| && StartsWith(e.key, paths[i]);
          assert i > 0 && paths[1..][i - 1] == paths[i];
        }
      }
      r
  }

  /** The effect of one parsed line on the map being built. */
  function Step(m: map<string, string>, parsed: Option<Entry>, paths: seq<string>): (r: map<string, string>)
    ensures forall k :: k in r <==> k in m || (HasKey(parsed, k) && MatchesAny(paths, k))
    ensures forall k :: k in r && !(HasKey(parsed, k) && MatchesAny(paths, k)) ==> r[k] == m[k]
    ensures forall k :: HasKey(parsed, k) && MatchesAny(paths, k) ==> r[k] == parsed.value.value
  {
    match parsed
    case None => m
    case Some(e) => StoreForPaths(m, e, paths)
  }

  /** The parsed form of every line, in order: each line is parsed on its
      own, whatever stands before or after it. */
  function ParseLines(lines: seq<string>): (r: seq<Option<Entry>>)
    ensures |r| == |lines|
    ensures forall i :: 0 <= i < |lines| ==> r[i] == ParseLine(lines[i])
    decreases |lines|
  {
    if |lines| == 0 then []
    else ParseLines(lines[..|lines| - 1]) + [ParseLine(lines[|lines| - 1])]
  }

  /** The map built from parsed lines, first line first. Every key it holds
      matches a prefix. */
  function Fold(parsed: seq<Option<Entry>>, paths: seq<string>): (r: map<string, string>)
    ensures forall k :: k in r ==> MatchesAny(paths, k)
    decreases |parsed|
  {
    if |parsed| == 0 then map[]
    else Step(Fold(parsed[..|parsed| - 1], paths), parsed[|parsed| - 1], paths)
  }

  /** The result of the script's loop over the dump. */
  function Collect(lines: seq<string>, paths: seq<string>): map<string, string> {
    Fold(ParseLines(lines), paths)
  }

  /** The script's loops as written: lines in order, and for each line that
      parses, the requested prefixes in order. */
  method FilterLines(lines: seq<string>, paths: seq<string>) returns (m: map<string, string>)
    ensures m == Collect(lines, paths)
  {
    m := map[];
    var i := 0;
    while i < |lines|
      invariant 0 <= i <= |lines|
      invariant m == Fold(ParseLines(lines[..i]), paths)
    {
      var parsed := ParseLine(lines[i]);
      FoldNextLine(lines, i, paths);
      match parsed {
        case None =>
        case Some(e) =>
          m := StoreMatching(m, e, paths);
      }
      i := i + 1;
    }
    assert lines[..|lines|] == lines;
  }

  /** The inner loop as written: the entry is stored once for every prefix its
      key starts with. */
  method StoreMatching(m0: map<string, string>, e: Entry, paths: seq<string>) returns (m: map<string, string>)
    ensures m == StoreForPaths(m0, e, paths)
  {
    m := m0;
    var j := 0;
    while j < |paths|
      invariant 0 <= j <= |paths|
      invariant StoreForPaths(m, e, paths[j..]) == StoreForPaths(m0, e, paths)
    {
      if StartsWith(e.key, paths[j]) {
        m := m[e.key := e.value];
      }
      assert paths[j..][1..] == paths[j + 1..];
      j := j + 1;
    }
  }

  /** Parsing works line by line. */
  lemma ParseLinesAppend(a: seq<string>, b: seq<string>)
    ensures ParseLines(a + b) == ParseLines(a) + ParseLines(b)
  {
    var l, r := ParseLines(a + b), ParseLines(a) + ParseLines(b);
    forall i | 0 <= i < |l| ensures l[i] == r[i] {
      if i < |a| {
        assert (a + b)[i] == a[i];
      } else {
        assert (a + b)[i] == b[i - |a|];
      }
    }
  }

  /** One more line of the dump applies that line's step. */
  lemma FoldNextLine(lines: seq<string>, i: nat, paths: seq<string>)
    requires i < |lines|
    ensures Fold(ParseLines(lines[..i + 1]), paths)
            == Step(Fold(ParseLines(lines[..i]), paths), ParseLine(lines[i]), paths)
  {
    assert lines[..i + 1] == lines[..i] + [lines[i]];
    ParseLinesAppend(lines[..i], [lines[i]]);
    assert ParseLines([lines[i]]) == [ParseLine(lines[i])];
    FoldSnoc(ParseLines(lines[..i]), ParseLine(lines[i]), paths);
  }

  /** Appending a parsed line applies its step to the map built so far. */
  lemma FoldSnoc(init: seq<Option<Entry>>, parsed: Option<Entry>, paths: seq<string>)
    ensures Fold(init + [parsed], paths) == Step(Fold(init, paths), parsed, paths)
  {
    assert (init + [parsed])[..|init|] == init;
  }

  /** The keys of the fold are the keys of the parsed lines that match a prefix. */
  lemma {:induction false} FoldKeys(parsed: seq<Option<Entry>>, paths: seq<string>, k: string)
    ensures k in Fold(parsed, paths) <==>
            MatchesAny(paths, k) && exists i :: 0 <= i < |parsed| && HasKey(parsed[i], k)
    decreases |parsed|
  {
    if |parsed| > 0 {
      var init := parsed[..|parsed| - 1];
      FoldKeys(init, paths, k);
      if exists i :: 0 <= i < |init| && HasKey(init[i], k) {
        var i :| 0 <= i < |init| && HasKey(init[i], k);
        assert parsed[i] == init[i];
      }
      if exists i :: 0 <= i < |parsed| && HasKey(parsed[i], k) {
        var i :| 0 <= i < |parsed| && HasKey(parsed[i], k);
        if i < |init| {
          assert init[i] == parsed[i];
        }
      }
    }
  }

  /** In the fold, the last matching entry for a key decides its value. */
  lemma {:induction false} FoldLastWins(parsed: seq<Option<Entry>>, paths: seq<string>, i: nat)
    requires i < |parsed| && parsed[i].Some? && MatchesAny(paths, parsed[i].value.key)
    requires forall j :: i < j < |parsed| ==> !HasKey(parsed[j], parsed[i].value.key)
    ensures parsed[i].value.key in Fold(parsed, paths)
    ensures Fold(parsed, paths)[parsed[i].value.key] == parsed[i].value.value
    decreases |parsed|
  {
    var init := parsed[..|parsed| - 1];
    if i < |parsed| - 1 {
      assert init[i] == parsed[i];
      FoldLastWins(init, paths, i);
    }
  }

  /** The fold depends on the prefixes only through which keys they match. */
  lemma {:induction false} FoldSameMatches(parsed: seq<Option<Entry>>, paths: seq<string>, paths': seq<string>)
    requires forall k :: MatchesAny(paths, k) <==> MatchesAny(paths', k)
    ensures Fold(parsed, paths) == Fold(parsed, paths')
    decreases |parsed|
  {
    if |parsed| > 0 {
      FoldSameMatches(parsed[..|parsed| - 1], paths, paths');
    }
  }

  /** A line that yields no entry leaves the fold unchanged, wherever it stands. */
  lemma {:induction false} FoldSkipsNone(before: seq<Option<Entry>>, after: seq<Option<Entry>>, paths: seq<string>)
    ensures Fold(before + [None] + after, paths) == Fold(before + after, paths)
    decreases |after|
  {
    if |after| == 0 {
      assert before + [None] + after == before + [None];
      assert before + after == before;
      FoldSnoc(before, None, paths);
    } else {
      var init := after[..|after| - 1];
      var last := after[|after| - 1];
      FoldSkipsNone(before, init, paths);
      assert before + [None] + after == (before + [None] + init) + [last];
      assert before + after == (before + init) + [last];
      FoldSnoc(before + [None] + init, last, paths);
      FoldSnoc(before + init, last, paths);
    }
  }

  /** The keys of the result are exactly the trimmed keys some line produces
      that start with a requested prefix. */
  lemma CollectKeys(lines: seq<string>, paths: seq<string>, k: string)
    ensures k in Collect(lines, paths) <==>
            MatchesAny(paths, k) && exists i :: 0 <= i < |lines| && Produces(lines[i], k)
  {
    var parsed := ParseLines(lines);
    FoldKeys(parsed, paths, k);
    if exists i :: 0 <= i < |parsed| && HasKey(parsed[i], k) {
      var i :| 0 <= i < |parsed| && HasKey(parsed[i], k);
      assert Produces(lines[i], k);
    }
    if exists i :: 0 <= i < |lines| && Produces(lines[i], k) {
      var i :| 0 <= i < |lines| && Produces(lines[i], k);
      assert HasKey(parsed[i], k);
    }
  }

  /** Last write wins: a line whose key matches a prefix and that no later line
      repeats decides the stored value. */
  lemma LastWriteWins(lines: seq<string>, paths: seq<string>, i: nat, k: string)
    requires i < |lines| && Produces(lines[i], k) && MatchesAny(paths, k)
    requires forall j :: i < j < |lines| ==> !Produces(lines[j], k)
    ensures k in Collect(lines, paths) && Collect(lines, paths)[k] == ParseLine(lines[i]).value.value
  {
    var parsed := ParseLines(lines);
    forall j | i < j < |parsed| ensures !HasKey(parsed[j], k) {
      assert !Produces(lines[j], k);
    }
    FoldLastWins(parsed, paths, i);
  }

  /** Only the set of prefixes matters: their order and repetitions do not
      change the result. */
  lemma PrefixOrderAndDuplicatesIrrelevant(lines: seq<string>, paths: seq<string>, paths': seq<string>)
    requires forall p :: p in paths <==> p in paths'
    ensures Collect(lines, paths) == Collect(lines, paths')
  {
    forall k ensures MatchesAny(paths, k) <==> MatchesAny(paths', k) {
      if MatchesAny(paths, k) {
        var i :| 0 <= i < |paths| && StartsWith(k, paths[i]);
        assert paths[i] in paths';
        var j :| 0 <= j < |paths'| && paths'[j] == paths[i];
      }
      if MatchesAny(paths', k) {
        var i :| 0 <= i < |paths'| && StartsWith(k, paths'[i]);
        assert paths'[i] in paths;
        var j :| 0 <= j < |paths| && paths[j] == paths'[i];
      }
    }
    FoldSameMatches(ParseLines(lines), paths, paths');
  }

  /** The empty prefix matches every key: with it, every key some line
      produces is exported. */
  lemma EmptyPrefixKeepsEverything(lines: seq<string>, paths: seq<string>, k: string)
    requires "" in paths
    ensures k in Collect(lines, paths) <==> exists i :: 0 <= i < |lines| && Produces(lines[i], k)
  {
    CollectKeys(lines, paths, k);
    var i :| 0 <= i < |paths| && paths[i] == "";
    assert StartsWith(k, paths[i]);
  }

  /** A line without the separator contributes nothing, wherever it stands. */
  lemma LineWithoutSeparatorIgnored(before: seq<string>, line: string, after: seq<string>, paths: seq<string>)
    requires !Contains(line, Separator)
    ensures Collect(before + [line] + after, paths) == Collect(before + after, paths)
  {
    assert ParseLine(line) == None;
    ParseLinesAppend(before, [line]);
    ParseLinesAppend(before + [line], after);
    ParseLinesAppend(before, after);
    assert ParseLines([line]) == [None];
    FoldSkipsNone(ParseLines(before), ParseLines(after), paths);
  }

  /** A dump line as the dump command prints it. */
  function FormatLine(e: Entry): string {
    e.key + Separator + e.value
  }

  /** An entry whose key holds no whitespace and whose value neither starts
      nor ends with whitespace. */
  predicate WellFormed(e: Entry) {
    && (forall i :: 0 <= i < |e.key| ==> !IsSpace(e.key[i]))
    && (e.value == [] || (!IsSpace(e.value[0]) && !IsSpace(e.value[|e.value| - 1])))
  }

  /** In a printed line of a well-formed entry the first separator is the
      one printed after the key: the key holds no space, and every separator
      starts with one. */
  lemma FormatFirstSeparator(e: Entry)
    requires WellFormed(e)
    ensures FirstOccurrence(FormatLine(e), Separator, |e.key|)
  {
    var line := FormatLine(e);
    var k := e.key;
    assert line[|k|..|k| + |Separator|] == Separator;
    forall j: nat | j < |k| ensures !OccursAt(line, Separator, j) {
      assert line[j] == k[j];
    }
  }

  /** Parsing undoes printing: a well-formed entry printed as a dump line is
      read back unchanged, whatever its value holds (separators included). */
  lemma {:induction false} ParseFormatRoundTrip(e: Entry)
    requires WellFormed(e)
    ensures ParseLine(FormatLine(e)) == Some(e)
  {
    var line := FormatLine(e);
    var k := e.key;
    FormatFirstSeparator(e);
    ParseAt(line, |k|);
    assert line[..|k|] == k;
    assert line[|k| + |Separator|..] == e.value;
    StripClean(k);
    StripClean(e.value);
  }

}
