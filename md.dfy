/**
 * The Markdown reporter: each match becomes a section with its hash and
 * total line count, a list of the instances' files and first lines, and one
 * code block holding every instance's code behind a comment with its
 * location; the whole run is opened by a report heading.
 */
module Md {
  import opened Common
  import opened NodeUtils
  import opened ReporterBase

  /** What the 'start' listener writes. */
  const Opening: string := "\n## Check report (via [Jsinspect](https://github.com/danielstjules/jsinspect))\n\n"

  /** What the 'end' listener writes. */
  const Closing: string := "\n"

  /** The section heading of a match, followed by a blank line. */
  function Heading(totalLines: int, hash: string): string
  {
    "#### ID: *" + hash + "*,  Duplicate-Lines: " + IntToString(totalLines) + "\n\n"
  }

  /** The list item of one instance: its file and first line. */
  function Entry(inst: Instance): string
  {
    "- " + inst.filename + ": " + IntToString(inst.start.line)
  }

  function Entries(instances: seq<Instance>): (r: seq<string>)
    ensures |r| == |instances|
  {
    seq(|instances|, i requires 0 <= i < |instances| => Entry(instances[i]))
  }

  /** The code of one instance: a comment with its location, then its lines. */
  function Piece(inst: Instance): string
  {
    "\n// " + inst.location + "\n" + inst.lines
  }

  function Pieces(instances: seq<Instance>): (r: seq<string>)
    ensures |r| == |instances|
  {
    seq(|instances|, i requires 0 <= i < |instances| => Piece(instances[i]))
  }

  /** The end of the code block and the rule that closes the section. */
  const Fence: string := "\n```\n\n---\n\n"

  /** The output for a match, the `found`-th of the run. */
  function Output(found: nat, m: Report): string
  {
    Separator(found) + Heading(TotalLines(m.instances), m.hash) + Terminated(Entries(m.instances)) +
    "\n```js" + (Join(Pieces(m.instances), "\n") + Fence)
  }

  /** The second forEach of _getOutput: each piece followed by a newline,
      except the one at the last index. */
  method BuildCodeFragment(instances: seq<Instance>) returns (codeFragment: string)
    ensures codeFragment == Join(Pieces(instances), "\n")
  {
    codeFragment := "";
    var lastIndex := |instances| - 1;
    var i := 0;
    while i < |instances|
      invariant 0 <= i <= |instances|
      invariant i == 0 ==> codeFragment == ""
      invariant 0 < i ==> codeFragment == Join(Pieces(instances)[..i], "\n") + (if i - 1 == lastIndex then "" else "\n")
    {
      var piece := Piece(instances[i]);
      ghost var before := codeFragment;
      codeFragment := codeFragment + (piece + (if i == lastIndex then "" else "\n"));
      assert Pieces(instances)[..i + 1] == Pieces(instances)[..i] + [piece];
      if i > 0 {
        JoinSnoc(Pieces(instances)[..i], piece, "\n");
        assert before == Join(Pieces(instances)[..i], "\n") + "\n";
      } else {
        assert Pieces(instances)[..1] == [piece];
      }
      i := i + 1;
    }
    assert Pieces(instances)[..i] == Pieces(instances);
  }

  /** _getOutput(match), with `found` the reporter's count including this match. */
  method GetOutput(found: nat, m: Report) returns (output: string)
    ensures output == Output(found, m)
  {
    output := if found > 1 then "\n" else "";
    var totalLines := TotalLines(m.instances);
    output := output + Heading(totalLines, m.hash);
    output := AppendTerminated(output, Entries(m.instances));
    output := output + "\n```js";
    var codeFragment := BuildCodeFragment(m.instances);
    output := output + (codeFragment + Fence);
  }

  /** A match's output starts with a newline exactly when it is not the
      first of the run; then comes its heading, one list item per instance
      in order, and it ends by closing the code block and the section. */
  lemma OutputShape(found: nat, m: Report)
    ensures StartsWith(Output(found, m), "\n") <==> found > 1
    ensures StartsWith(Output(found, m), Separator(found) + Heading(TotalLines(m.instances), m.hash))
    ensures EndsWith(Output(found, m), Fence)
    ensures (forall i :: 0 <= i < |m.instances| ==> '\n' !in m.instances[i].filename) ==>
      Split(Terminated(Entries(m.instances)), '\n') == Entries(m.instances) + [""]
  {
    var out := Output(found, m);
    var heading := Heading(TotalLines(m.instances), m.hash);
    var head := Separator(found) + heading;
    var entries := Terminated(Entries(m.instances));
    var code := Join(Pieces(m.instances), "\n");
    assert out == ((head + entries) + "\n```js") + (code + Fence);
    Associative(head + entries, "\n```js", code + Fence);
    Associative(head, entries, "\n```js" + (code + Fence));
    assert out[..|head|] == head;
    Associative((head + entries) + "\n```js", code, Fence);
    assert out[|out| - |Fence|..] == Fence;
    if found <= 1 {
      assert heading[0] == '#';
      assert out[0] == '#';
    }
    if forall i :: 0 <= i < |m.instances| ==> '\n' !in m.instances[i].filename {
      forall i | 0 <= i < |m.instances| ensures '\n' !in Entries(m.instances)[i] {
        IntToStringNoNewline(m.instances[i].start.line);
      }
      TerminatedSplit(Entries(m.instances));
    }
  }

  /** The code block opens with the first instance's location comment and
      ends right after the last instance's lines; each further instance's
      code follows the previous one's after a newline, and as every piece
      starts with one, a blank line separates them. */
  lemma CodeFragmentShape(a: seq<Instance>, x: Instance)
    ensures a == [] ==> Join(Pieces(a + [x]), "\n") == Piece(x)
    ensures a != [] ==> Join(Pieces(a + [x]), "\n") == Join(Pieces(a), "\n") + "\n" + Piece(x)
    ensures StartsWith(Join(Pieces(a + [x]), "\n"), "\n// " + (a + [x])[0].location + "\n")
    ensures EndsWith(Join(Pieces(a + [x]), "\n"), x.lines)
  {
    var ps := Pieces(a + [x]);
    assert ps == Pieces(a) + [Piece(x)];
    var j := Join(ps, "\n");
    if a != [] {
      JoinSnoc(Pieces(a), Piece(x), "\n");
      var first := Piece(a[0]);
      assert j == first + "\n" + Join(ps[1..], "\n");
      assert first == ("\n// " + a[0].location + "\n") + a[0].lines;
      assert j[..|"\n// " + a[0].location + "\n"|] == first[..|"\n// " + a[0].location + "\n"|];
      assert j == (Join(Pieces(a), "\n") + "\n" + ("\n// " + x.location + "\n")) + x.lines;
    } else {
      assert ps == [Piece(x)];
      assert j == ("\n// " + x.location + "\n") + x.lines;
    }
  }
}
