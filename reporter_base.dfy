/**
 * What every reporter shares: the instance records a reporter prints, the
 * total line count of a match, the closing summary and the rendering of a
 * line diff.
 */
module ReporterBase {
  import opened Common
  import opened NodeUtils

  /** One instance of a match as a reporter sees it: its file, its first and
      last position, and the three strings the reporter derives from it (the
      formatted location, the instance's lines and the file's absolute
      path), which are computed outside this model. */
  datatype Instance = Instance(filename: string, start: Position, end: Position,
                               location: string, lines: string, absolutePath: string)

  /** A match as it reaches a reporter: its hash and its instances. */
  datatype Report = Report(hash: string, instances: seq<Instance>)

  /** The number of lines one instance spans, both ends included. */
  function Span(inst: Instance): int
  {
    inst.end.line - inst.start.line + 1
  }

  /** The reduce step of _getTotalLines, folding from the left with the
      running total `res`. */
  function TotalLinesFrom(res: int, instances: seq<Instance>): int
    decreases |instances|
  {
    if instances == [] then res
    else TotalLinesFrom(res + instances[0].end.line - instances[0].start.line + 1, instances[1..])
  }

  /** _getTotalLines(match): the reduce started from 0. */
  function TotalLines(instances: seq<Instance>): int
  {
    TotalLinesFrom(0, instances)
  }

  /** The sum of the spans, as an independent reference. */
  function SpanSum(instances: seq<Instance>): int
    decreases |instances|
  {
    if instances == [] then 0 else Span(instances[0]) + SpanSum(instances[1..])
  }

  lemma {:induction false} TotalLinesFromSum(res: int, instances: seq<Instance>)
    ensures TotalLinesFrom(res, instances) == res + SpanSum(instances)
    decreases |instances|
  {
    if instances != [] {
      TotalLinesFromSum(res + Span(instances[0]), instances[1..]);
    }
  }

  lemma {:induction false} SpanSumAppend(a: seq<Instance>, b: seq<Instance>)
    ensures SpanSum(a + b) == SpanSum(a) + SpanSum(b)
    decreases |a|
  {
    if a == [] {
      assert a + b == b;
    } else {
      assert (a + b)[1..] == a[1..] + b;
      SpanSumAppend(a[1..], b);
    }
  }

  /** The total is the sum of the instances' spans: 0 for none, and adding
      instances adds their spans. When every instance ends on or after the
      line it starts on, the total is at least the number of instances. */
  lemma TotalLinesIsSum(a: seq<Instance>, b: seq<Instance>)
    ensures TotalLines(a) == SpanSum(a)
    ensures TotalLines([]) == 0
    ensures TotalLines(a + b) == TotalLines(a) + TotalLines(b)
    ensures (forall i :: 0 <= i < |a| ==> a[i].start.line <= a[i].end.line) ==> TotalLines(a) >= |a|
  {
    TotalLinesFromSum(0, a);
    TotalLinesFromSum(0, b);
    TotalLinesFromSum(0, a + b);
    SpanSumAppend(a, b);
    if forall i :: 0 <= i < |a| ==> a[i].start.line <= a[i].end.line {
      SpanSumAtLeast(a);
    }
  }

  lemma {:induction false} SpanSumAtLeast(a: seq<Instance>)
    requires forall i :: 0 <= i < |a| ==> a[i].start.line <= a[i].end.line
    ensures SpanSum(a) >= |a|
    decreases |a|
  {
    if a != [] {
      SpanSumAtLeast(a[1..]);
    }
  }

  /** How `util.format('%d', n)` prints the file count: a missing count
      (undefined) prints as NaN. */
  function CountText(n: Option<int>): string
  {
    if n.Some? then IntToString(n.value) else "NaN"
  }

  /** The line the summary listener writes on 'end', colours left out. */
  function Summary(found: nat, numFiles: Option<int>): string
  {
    var files := if numFiles.Some? && numFiles.value > 1 then "files" else "file";
    var matches := if found > 1 then "matches" else "match";
    var head := if found == 0 then "\n No matches" else "\n " + IntToString(found) + " " + matches;
    head + (" found across " + CountText(numFiles) + " " + files + "\n")
  }

  /** The summary says "No matches" exactly when nothing was found, and
      otherwise gives the count, in the singular for one match; it closes
      with the file count, where a count above one reads "files", any other
      count "file", and a missing count prints as "NaN file". */
  lemma SummaryWording(found: nat, numFiles: Option<int>)
    ensures found == 0 <==> StartsWith(Summary(found, numFiles), "\n No matches")
    ensures found > 0 ==> StartsWith(Summary(found, numFiles),
      "\n " + IntToString(found) + " " + (if found > 1 then "matches" else "match"))
    ensures EndsWith(Summary(found, numFiles), " found across " + CountText(numFiles) + " " +
      (if numFiles.Some? && numFiles.value > 1 then "files" else "file") + "\n")
    ensures numFiles.None? ==> EndsWith(Summary(found, numFiles), " NaN file\n")
  {
    var r := Summary(found, numFiles);
    var files := if numFiles.Some? && numFiles.value > 1 then "files" else "file";
    var tail := " found across " + CountText(numFiles) + " " + files + "\n";
    var head := if found == 0 then "\n No matches"
                else "\n " + IntToString(found) + " " + (if found > 1 then "matches" else "match");
    assert r[..|head|] == head;
    assert r[|r| - |tail|..] == tail;
    if found > 0 {
      assert r[2] == IntToString(found)[0];
      assert IsDigit(r[2]);
    }
    if numFiles.None? {
      assert tail == " found across" + " NaN file\n";
    }
  }

  /** What _getOutput writes before a match: a newline for every match but
      the first, so that consecutive matches are separated by a blank line. */
  function Separator(found: nat): string
  {
    if found > 1 then "\n" else ""
  }

  /** One chunk of a line diff: its text and whether it was added, removed or
      is common to both sides. */
  datatype Chunk = Chunk(value: string, added: bool, removed: bool)

  /** The lines of a chunk: its text split at newlines, without the empty
      piece after a final newline. */
  function ChunkLines(c: Chunk): (r: seq<string>)
    ensures forall i :: 0 <= i < |r| ==> '\n' !in r[i]
  {
    var lines := Split(c.value, '\n');
    if SliceFrom(c.value, -1) == "\n" then Slice(lines, 0, -1) else lines
  }

  /** The marker in front of every line of a chunk. */
  function Marker(c: Chunk): string
  {
    if c.added then "+  " else if c.removed then "-  " else "   "
  }

  /** Each line behind the marker. */
  function Marked(marker: string, lines: seq<string>): (r: seq<string>)
    ensures |r| == |lines|
  {
    seq(|lines|, i requires 0 <= i < |lines| => marker + lines[i])
  }

  /** What one chunk contributes: each of its lines behind its marker, on a
      line of its own. */
  function ChunkText(c: Chunk): string
  {
    Terminated(Marked(Marker(c), ChunkLines(c)))
  }

  /** The rendering of a whole diff, chunk after chunk. */
  function FormattedDiff(diff: seq<Chunk>): string
    decreases |diff|
  {
    if diff == [] then "" else ChunkText(diff[0]) + FormattedDiff(diff[1..])
  }

  /** _getFormattedDiff(diff), colours left out. */
  method GetFormattedDiff(diff: seq<Chunk>) returns (output: string)
    ensures output == FormattedDiff(diff)
  {
    output := "";
    var i := 0;
    while i < |diff|
      invariant 0 <= i <= |diff|
      invariant output + FormattedDiff(diff[i..]) == FormattedDiff(diff)
    {
      assert diff[i..][0] == diff[i] && diff[i..][1..] == diff[i + 1..];
      var lines := ChunkLines(diff[i]);
      var marker := Marker(diff[i]);
      assert FormattedDiff(diff[i..]) == ChunkText(diff[i]) + FormattedDiff(diff[i + 1..]);
      ghost var before := output;
      output := AppendTerminated(output, Marked(marker, lines));
      Associative(before, ChunkText(diff[i]), FormattedDiff(diff[i + 1..]));
      i := i + 1;
    }
    assert diff[i..] == [];
  }

  /** A string ending in the separator splits into at least two pieces, the
      last of them empty. */
  lemma {:induction false} SplitEndingInSeparator(s: string, c: char)
    requires |s| > 0 && s[|s| - 1] == c
    ensures |Split(s, c)| >= 2 && Split(s, c)[|Split(s, c)| - 1] == ""
  {
    if |s| == 1 {
      assert s[1..] == "";
    } else {
      SplitEndingInSeparator(s[1..], c);
    }
  }

  /** Rendering a chunk loses nothing: its lines joined back with newlines,
      plus the final newline when the text had one, are the chunk's text. */
  lemma ChunkLinesRoundTrip(c: Chunk)
    ensures Join(ChunkLines(c), "\n") + (if EndsWith(c.value, "\n") then "\n" else "") == c.value
  {
    var lines := Split(c.value, '\n');
    JoinSplit(c.value, '\n');
    if EndsWith(c.value, "\n") {
      assert SliceFrom(c.value, -1) == "\n";
      SplitEndingInSeparator(c.value, '\n');
      var init := lines[..|lines| - 1];
      assert lines == init + [lines[|lines| - 1]];
      JoinSnoc(init, lines[|lines| - 1], "\n");
      assert ChunkLines(c) == init;
    } else {
      assert SliceFrom(c.value, -1) != "\n" by {
        if c.value != [] {
          assert SliceFrom(c.value, -1) == c.value[|c.value| - 1..];
        }
      }
    }
  }

  /** Every line of a chunk comes out on a line of its own behind the
      chunk's marker: `+` for added, `-` for removed, blank for common text. */
  lemma FormattedChunkLines(c: Chunk)
    ensures var pieces := Split(FormattedDiff([c]), '\n');
      var lines := ChunkLines(c);
      |pieces| == |lines| + 1 && pieces[|lines|] == "" &&
      forall i :: 0 <= i < |lines| ==> pieces[i] == Marker(c) + lines[i]
  {
    assert FormattedDiff([c]) == ChunkText(c) + FormattedDiff([c][1..]);
    assert [c][1..] == [];
    assert FormattedDiff([c]) == ChunkText(c);
    var marked := Marked(Marker(c), ChunkLines(c));
    forall i | 0 <= i < |marked| ensures '\n' !in marked[i] {
      assert '\n' !in ChunkLines(c)[i];
    }
    TerminatedSplit(marked);
  }

  /** The rendering of a diff is the renderings of its chunks one after the other. */
  lemma {:induction false} FormattedDiffAppend(a: seq<Chunk>, b: seq<Chunk>)
    ensures FormattedDiff(a + b) == FormattedDiff(a) + FormattedDiff(b)
    decreases |a|
  {
    if a == [] {
      assert a + b == b;
    } else {
      assert (a + b)[0] == a[0] && (a + b)[1..] == a[1..] + b;
      FormattedDiffAppend(a[1..], b);
    }
  }
}
