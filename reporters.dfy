/**
 * A reporter attached to an inspector: it counts the matches it is told
 * about and writes, for each, the output of its format; the PMD and
 * Markdown formats also write an opening on 'start' and a closing on 'end'.
 * Everything a reporter writes is kept, in order, in `written`.
 */
module Reporters {
  import opened Common
  import opened NodeUtils
  import opened ReporterBase
  import Pmd
  import Md

  datatype Format = PmdFormat | MdFormat

  function Opening(format: Format): string
  {
    match format
    case PmdFormat => Pmd.Opening
    case MdFormat => Md.Opening
  }

  function Closing(format: Format): string
  {
    match format
    case PmdFormat => Pmd.Closing
    case MdFormat => Md.Closing
  }

  /** The format's _getOutput for the `found`-th match. */
  function MatchOutput(format: Format, found: nat, m: Report): string
  {
    match format
    case PmdFormat => Pmd.Output(found, m)
    case MdFormat => Md.Output(found, m)
  }

  /** The outputs of the matches of a run, numbered on from `found`. */
  function MatchOutputs(format: Format, found: nat, reports: seq<Report>): (r: seq<string>)
    ensures |r| == |reports|
  {
    seq(|reports|, i requires 0 <= i < |reports| => MatchOutput(format, found + i + 1, reports[i]))
  }

  /** Everything a fresh reporter writes over a run that reports `reports`. */
  function RunText(format: Format, reports: seq<Report>): string
  {
    Opening(format) + Flatten(MatchOutputs(format, 0, reports)) + Closing(format)
  }

  class Reporter {
    const format: Format
    /** _found: the number of matches reported so far. */
    var found: nat
    var written: string

    /** The constructors of the reporters: nothing found, nothing written. */
    constructor(format: Format)
      ensures this.format == format && found == 0 && written == ""
    {
      this.format := format;
      found := 0;
      written := "";
    }

    /** The 'start' listener. */
    method OnStart()
      modifies this`written
      ensures written == old(written) + Opening(format)
    {
      written := written + Opening(format);
    }

    /** The 'match' listener: count the match, then write its output, which
        therefore sees the count including it. */
    method OnMatch(m: Report)
      modifies this
      ensures found == old(found) + 1
      ensures written == old(written) + MatchOutput(format, found, m)
    {
      found := found + 1;
      var output: string;
      match format {
        case PmdFormat =>
          output := Pmd.GetOutput(found, m);
        case MdFormat =>
          output := Md.GetOutput(found, m);
      }
      written := written + output;
    }

    /** The 'end' listener. */
    method OnEnd()
      modifies this`written
      ensures written == old(written) + Closing(format)
    {
      written := written + Closing(format);
    }
  }

  /** One 'match' event per report, in order: the count grows by the
      number of reports and their outputs are written one after the other,
      numbered on from the matches already counted. */
  method ReportAll(r: Reporter, reports: seq<Report>)
    modifies r
    ensures r.found == old(r.found) + |reports|
    ensures r.written == old(r.written) + Flatten(MatchOutputs(r.format, old(r.found), reports))
  {
    ghost var start := r.written;
    ghost var outputs := MatchOutputs(r.format, r.found, reports);
    var i := 0;
    while i < |reports|
      invariant 0 <= i <= |reports|
      invariant r.found == old(r.found) + i
      invariant r.written == start + Flatten(outputs[..i])
    {
      ghost var before := r.written;
      r.OnMatch(reports[i]);
      assert r.written == before + outputs[i];
      FlattenPrefix(outputs, i);
      Associative(start, Flatten(outputs[..i]), outputs[i]);
      i := i + 1;
    }
    assert outputs[..i] == outputs;
  }

  /** Driving a fresh reporter through a run: 'start', one 'match' per
      report, 'end'. The reporter ends having counted every match and
      written exactly the text of the run. */
  method Run(format: Format, reports: seq<Report>) returns (r: Reporter)
    ensures r.format == format && r.found == |reports|
    ensures r.written == RunText(format, reports)
  {
    r := new Reporter(format);
    r.OnStart();
    assert r.written == "" + Opening(format);
    assert r.written == Opening(format);
    ReportAll(r, reports);
    assert r.written == Opening(format) + Flatten(MatchOutputs(format, 0, reports));
    r.OnEnd();
  }

  /** A PMD run is one XML document: the declaration and <pmd-cpd> first,
      </pmd-cpd> last, and nothing in between when there are no matches.
      A Markdown run opens with the report heading and ends with a newline. */
  lemma RunFraming(format: Format, reports: seq<Report>)
    ensures StartsWith(RunText(format, reports), Opening(format))
    ensures EndsWith(RunText(format, reports), Closing(format))
    ensures format == PmdFormat ==> StartsWith(RunText(format, reports), "<?xml version=\"1.0\" encoding=\"utf-8\"?>\n<pmd-cpd>\n")
    ensures format == PmdFormat ==> EndsWith(RunText(format, reports), "</pmd-cpd>\n")
    ensures reports == [] ==> RunText(format, reports) == Opening(format) + Closing(format)
  {
    var t := RunText(format, reports);
    var body := Flatten(MatchOutputs(format, 0, reports));
    Associative(Opening(format), body, Closing(format));
    assert t[..|Opening(format)|] == Opening(format);
    assert t[|t| - |Closing(format)|..] == Closing(format);
  }

  /** Every match after the first is set off from the previous one by a
      newline, in both formats. */
  lemma LaterMatchesSeparated(format: Format, found: nat, m: Report)
    requires found > 1
    ensures StartsWith(MatchOutput(format, found, m), "\n")
  {
    match format {
      case PmdFormat => Pmd.OutputShape(found, m);
      case MdFormat => Md.OutputShape(found, m);
    }
  }
}
