/**
 * A match: the kind of duplication, the instances (nodes) that share it and
 * the line diffs of every instance against the first one. The line diff
 * itself belongs to a library that is not part of this model: a diff is kept
 * as the pair of texts it compares.
 */
module Matching {
  import opened Common
  import opened NodeUtils

  /** Match.types. */
  const IdenticalType: int := 0
  const FuzzyType: int := 1

  /** `diffLines(base, curr)` of the diff library, left uninterpreted. */
  datatype Diff = DiffLines(base: string, curr: string)

  /** _getLines(fileContents, node): the node's lines, from `start.line - 1` up
      to but not including index `end.line` of its file's lines, joined with
      newlines. The node's file must be among the contents. */
  function GetLines(fileContents: map<string, seq<string>>, node: Node): string
    requires node.loc.source in fileContents
  {
    Join(Slice(fileContents[node.loc.source], node.loc.start.line - 1, node.loc.end.line), "\n")
  }

  /** No line of a file holds a newline (the lines come from splitting on it). */
  predicate NoNewlines(lines: seq<string>)
  {
    forall i :: 0 <= i < |lines| ==> '\n' !in lines[i]
  }

  /** When the node's range lies within its file, the text holds exactly the
      lines `start.line` to `end.line` (counting from 1), so
      `end.line - start.line + 1` of them: splitting it again gives them back. */
  lemma GetLinesRange(fileContents: map<string, seq<string>>, node: Node)
    requires node.loc.source in fileContents
    requires NoNewlines(fileContents[node.loc.source])
    requires 1 <= node.loc.start.line <= node.loc.end.line <= |fileContents[node.loc.source]|
    ensures Split(GetLines(fileContents, node), '\n') ==
            fileContents[node.loc.source][node.loc.start.line - 1..node.loc.end.line]
    ensures |Split(GetLines(fileContents, node), '\n')| == node.loc.end.line - node.loc.start.line + 1
  {
    var lines := fileContents[node.loc.source];
    var part := lines[node.loc.start.line - 1..node.loc.end.line];
    assert Slice(lines, node.loc.start.line - 1, node.loc.end.line) == part;
    forall i | 0 <= i < |part| ensures '\n' !in part[i] {
      assert part[i] == lines[node.loc.start.line - 1 + i];
    }
    SplitJoin(part, '\n');
  }

  /** Every instance's file is among the contents. */
  predicate Readable(fileContents: map<string, seq<string>>, nodes: seq<Node>)
  {
    forall i :: 0 <= i < |nodes| ==> nodes[i].loc.source in fileContents
  }

  class Match {
    var matchType: int
    var nodes: seq<Node>
    var diffs: seq<Diff>

    /** new Match(type, nodes): no diffs yet. */
    constructor(t: int, ns: seq<Node>)
      ensures matchType == t && nodes == ns && diffs == []
    {
      matchType := t;
      nodes := ns;
      diffs := [];
    }

    /** generateDiffs(fileContents): one diff per instance after the first,
        each comparing the first instance's lines with that instance's lines,
        appended in instance order. */
    method GenerateDiffs(fileContents: map<string, seq<string>>)
      requires |nodes| > 0 && Readable(fileContents, nodes)
      modifies this`diffs
      ensures |diffs| == |old(diffs)| + |nodes| - 1
      ensures diffs[..|old(diffs)|] == old(diffs)
      ensures forall i :: 1 <= i < |nodes| ==>
        diffs[|old(diffs)| + i - 1] == DiffLines(GetLines(fileContents, nodes[0]), GetLines(fileContents, nodes[i]))
    {
      var base := GetLines(fileContents, nodes[0]);
      var i := 1;
      while i < |nodes|
        invariant 1 <= i <= |nodes|
        invariant |diffs| == |old(diffs)| + i - 1
        invariant diffs[..|old(diffs)|] == old(diffs)
        invariant forall j :: 1 <= j < i ==>
          diffs[|old(diffs)| + j - 1] == DiffLines(base, GetLines(fileContents, nodes[j]))
      {
        var curr := GetLines(fileContents, nodes[i]);
        diffs := diffs + [DiffLines(base, curr)];
        i := i + 1;
      }
    }
  }
}
