/**
 * The PMD CPD reporter: each match becomes a <duplication> element listing
 * the instances' files and holding their code, escaped for XML, in a
 * <codefragment>; the whole run is wrapped in a <pmd-cpd> document.
 */
module Pmd {
  import opened Common
  import opened NodeUtils
  import opened ReporterBase

  /** What the 'start' listener writes. */
  const Opening: string := "<?xml version=\"1.0\" encoding=\"utf-8\"?>\n<pmd-cpd>\n"

  /** What the 'end' listener writes. */
  const Closing: string := "</pmd-cpd>\n"

  /** The five characters _escape replaces. */
  predicate Special(ch: char)
  {
    ch == '\'' || ch == '"' || ch == '&' || ch == '>' || ch == '<'
  }

  /** The entity _escape writes for one character; any other character is kept. */
  function EscapeChar(ch: char): (r: string)
    ensures !Special(ch) ==> r == [ch]
    ensures Special(ch) ==> |r| >= 4 && r[0] == '&' && r[|r| - 1] == ';'
  {
    if ch == '\'' then "&apos;"
    else if ch == '"' then "&quot;"
    else if ch == '&' then "&amp;"
    else if ch == '>' then "&gt;"
    else if ch == '<' then "&lt;"
    else [ch]
  }

  /** _escape(string): every special character replaced by its entity. */
  function Escape(s: string): string
    decreases |s|
  {
    if s == [] then "" else EscapeChar(s[0]) + Escape(s[1..])
  }

  /** The reading of XML character data: each of the five entities stands
      for its character, and everything else for itself. */
  function Unescape(s: string): string
    decreases |s|
  {
    if s == [] then ""
    else if StartsWith(s, "&apos;") then "'" + Unescape(s[6..])
    else if StartsWith(s, "&quot;") then "\"" + Unescape(s[6..])
    else if StartsWith(s, "&amp;") then "&" + Unescape(s[5..])
    else if StartsWith(s, "&gt;") then ">" + Unescape(s[4..])
    else if StartsWith(s, "&lt;") then "<" + Unescape(s[4..])
    else [s[0]] + Unescape(s[1..])
  }

  /** Reading back one entity, or one ordinary character, and what follows it. */
  lemma UnescapeEntity(ch: char, rest: string)
    ensures Unescape(EscapeChar(ch) + rest) == [ch] + Unescape(rest)
  {
    if ch == '\'' { UnescapeApos(rest); }
    else if ch == '"' { UnescapeQuot(rest); }
    else if ch == '&' { UnescapeAmp(rest); }
    else if ch == '>' { UnescapeGt(rest); }
    else if ch == '<' { UnescapeLt(rest); }
    else {
      var s := [ch] + rest;
      assert s[0] == ch && s[1..] == rest;
      NotStartsWith(s, "&apos;", 0);
      NotStartsWith(s, "&quot;", 0);
      NotStartsWith(s, "&amp;", 0);
      NotStartsWith(s, "&gt;", 0);
      NotStartsWith(s, "&lt;", 0);
    }
  }

  /** A string whose k-th character differs from the entity's does not start with it. */
  lemma NotStartsWith(s: string, e: string, k: nat)
    requires k < |e| && (k >= |s| || s[k] != e[k])
    ensures !StartsWith(s, e)
  {
    if |e| <= |s| {
      assert s[..|e|][k] == s[k];
    }
  }

  lemma UnescapeApos(rest: string)
    ensures Unescape("&apos;" + rest) == "'" + Unescape(rest)
  {
    var s := "&apos;" + rest;
    assert s[..6] == "&apos;" && s[6..] == rest;
  }

  lemma UnescapeQuot(rest: string)
    ensures Unescape("&quot;" + rest) == "\"" + Unescape(rest)
  {
    var s := "&quot;" + rest;
    assert s[1] == 'q';
    NotStartsWith(s, "&apos;", 1);
    assert s[..6] == "&quot;" && s[6..] == rest;
  }

  lemma UnescapeAmp(rest: string)
    ensures Unescape("&amp;" + rest) == "&" + Unescape(rest)
  {
    var s := "&amp;" + rest;
    assert s[1] == 'a' && s[2] == 'm';
    NotStartsWith(s, "&apos;", 2);
    NotStartsWith(s, "&quot;", 1);
    assert s[..5] == "&amp;" && s[5..] == rest;
  }

  lemma UnescapeGt(rest: string)
    ensures Unescape("&gt;" + rest) == ">" + Unescape(rest)
  {
    var s := "&gt;" + rest;
    assert s[1] == 'g';
    NotStartsWith(s, "&apos;", 1);
    NotStartsWith(s, "&quot;", 1);
    NotStartsWith(s, "&amp;", 1);
    assert s[..4] == "&gt;" && s[4..] == rest;
  }

  lemma UnescapeLt(rest: string)
    ensures Unescape("&lt;" + rest) == "<" + Unescape(rest)
  {
    var s := "&lt;" + rest;
    assert s[1] == 'l';
    NotStartsWith(s, "&apos;", 1);
    NotStartsWith(s, "&quot;", 1);
    NotStartsWith(s, "&amp;", 1);
    NotStartsWith(s, "&gt;", 1);
    assert s[..4] == "&lt;" && s[4..] == rest;
  }

  /** An XML reader gets the original text back from the escaped one. */
  lemma {:induction false} EscapeRoundTrip(s: string)
    ensures Unescape(Escape(s)) == s
    decreases |s|
  {
    if s != [] {
      EscapeRoundTrip(s[1..]);
      UnescapeEntity(s[0], Escape(s[1..]));
      assert s == [s[0]] + s[1..];
    }
  }

  /** The escaped text holds no quote, apostrophe or angle bracket, so it
      cannot end the element it is written in, and text without special
      characters is left as it is. */
  lemma {:induction false} EscapeClean(s: string)
    ensures forall k :: 0 <= k < |Escape(s)| ==> Escape(s)[k] !in {'\'', '"', '<', '>'}
    ensures (forall k :: 0 <= k < |s| ==> !Special(s[k])) ==> Escape(s) == s
    decreases |s|
  {
    if s != [] {
      EscapeClean(s[1..]);
      var e := EscapeChar(s[0]);
      var t := Escape(s[1..]);
      assert forall k :: 0 <= k < |e| ==> e[k] !in {'\'', '"', '<', '>'};
      assert Escape(s) == e + t;
      forall k | 0 <= k < |e + t| ensures (e + t)[k] !in {'\'', '"', '<', '>'} {
        if k >= |e| {
          assert (e + t)[k] == t[k - |e|];
        }
      }
      if forall k :: 0 <= k < |s| ==> !Special(s[k]) {
        assert forall k :: 0 <= k < |s[1..]| ==> !Special(s[1..][k]) by {
          forall k | 0 <= k < |s[1..]| ensures !Special(s[1..][k]) {
            assert s[1..][k] == s[k + 1];
          }
        }
        assert s == [s[0]] + s[1..];
      }
    }
  }

  /** _getFile(instance) without its final newline: the instance's absolute
      path and first line. */
  function FileTag(inst: Instance): string
  {
    "<file path=\"" + inst.absolutePath + "\" line=\"" + IntToString(inst.start.line) + "\"/>"
  }

  /** The <file> elements of the instances, in order, one per line. */
  function Files(instances: seq<Instance>): (r: seq<string>)
    ensures |r| == |instances|
  {
    seq(|instances|, i requires 0 <= i < |instances| => FileTag(instances[i]))
  }

  /** The code of one instance inside the fragment: its location and its
      lines, each on a line of its own. */
  function FragmentPiece(inst: Instance): string
  {
    "\n" + inst.location + "\n" + inst.lines + "\n"
  }

  /** The codeFragment built from the instances, before escaping. */
  function Fragment(instances: seq<Instance>): string
    decreases |instances|
  {
    if instances == [] then "" else FragmentPiece(instances[0]) + Fragment(instances[1..])
  }

  function DuplicationTag(totalLines: int, hash: string): string
  {
    "<duplication lines=\"" + IntToString(totalLines) + "\" id=\"" + hash + "\">"
  }

  /** The output for a match, the `found`-th of the run. */
  function Output(found: nat, m: Report): string
  {
    Separator(found) + (DuplicationTag(TotalLines(m.instances), m.hash) + "\n") + Terminated(Files(m.instances)) +
    "<codefragment>" + (Escape(Fragment(m.instances)) + "</codefragment>\n</duplication>\n")
  }

  /** The second forEach of _getOutput: the pieces of the code fragment. */
  method BuildFragment(instances: seq<Instance>) returns (codeFragment: string)
    ensures codeFragment == Fragment(instances)
  {
    codeFragment := "";
    var i := 0;
    while i < |instances|
      invariant 0 <= i <= |instances|
      invariant codeFragment + Fragment(instances[i..]) == Fragment(instances)
    {
      assert instances[i..][0] == instances[i] && instances[i..][1..] == instances[i + 1..];
      ghost var before := codeFragment;
      codeFragment := codeFragment + FragmentPiece(instances[i]);
      Associative(before, FragmentPiece(instances[i]), Fragment(instances[i + 1..]));
      i := i + 1;
    }
    assert instances[i..] == [];
  }

  /** _getOutput(match), with `found` the reporter's count including this match. */
  method GetOutput(found: nat, m: Report) returns (output: string)
    ensures output == Output(found, m)
  {
    output := if found > 1 then "\n" else "";
    var totalLines := TotalLines(m.instances);
    output := output + (DuplicationTag(totalLines, m.hash) + "\n");
    output := AppendTerminated(output, Files(m.instances));
    output := output + "<codefragment>";
    var codeFragment := BuildFragment(m.instances);
    output := output + (Escape(codeFragment) + "</codefragment>\n</duplication>\n");
  }

  /** A match's output starts with a newline exactly when it is not the
      first of the run; then comes its <duplication> tag with the total line
      count and the hash, one <file> line per instance in order, and it
      closes its elements at the end. */
  lemma OutputShape(found: nat, m: Report)
    ensures StartsWith(Output(found, m), "\n") <==> found > 1
    ensures StartsWith(Output(found, m), Separator(found) + DuplicationTag(TotalLines(m.instances), m.hash) + "\n")
    ensures EndsWith(Output(found, m), "</codefragment>\n</duplication>\n")
    ensures (forall i :: 0 <= i < |m.instances| ==> '\n' !in m.instances[i].absolutePath) ==>
      Split(Terminated(Files(m.instances)), '\n') == Files(m.instances) + [""]
  {
    var out := Output(found, m);
    var tag := DuplicationTag(TotalLines(m.instances), m.hash);
    var head := Separator(found) + (tag + "\n");
    var files := Terminated(Files(m.instances));
    var escaped := Escape(Fragment(m.instances));
    var tail := "</codefragment>\n</duplication>\n";
    assert out == ((head + files) + "<codefragment>") + (escaped + tail);
    Associative(head + files, "<codefragment>", escaped + tail);
    Associative(head, files, "<codefragment>" + (escaped + tail));
    assert out[..|head|] == head;
    Associative((head + files) + "<codefragment>", escaped, tail);
    assert out[|out| - |tail|..] == tail;
    if found <= 1 {
      assert tag[0] == '<';
      assert out[0] == '<';
    }
    if forall i :: 0 <= i < |m.instances| ==> '\n' !in m.instances[i].absolutePath {
      FilesSplit(m.instances);
    }
  }

  lemma FilesSplit(instances: seq<Instance>)
    requires forall i :: 0 <= i < |instances| ==> '\n' !in instances[i].absolutePath
    ensures Split(Terminated(Files(instances)), '\n') == Files(instances) + [""]
  {
    forall i | 0 <= i < |instances| ensures '\n' !in Files(instances)[i] {
      IntToStringNoNewline(instances[i].start.line);
    }
    TerminatedSplit(Files(instances));
  }

  /** The fragment of several instances is their pieces one after the other,
      and reading the escaped fragment back gives the instances' code. */
  lemma {:induction false} FragmentAppend(a: seq<Instance>, b: seq<Instance>)
    ensures Fragment(a + b) == Fragment(a) + Fragment(b)
    ensures Unescape(Escape(Fragment(a + b))) == Fragment(a) + Fragment(b)
    decreases |a|
  {
    if a == [] {
      assert a + b == b;
    } else {
      assert (a + b)[0] == a[0] && (a + b)[1..] == a[1..] + b;
      FragmentAppend(a[1..], b);
    }
    EscapeRoundTrip(Fragment(a + b));
  }
}
