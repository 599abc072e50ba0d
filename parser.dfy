/**
 * The parser front: a list of parse attempts tried in order until one
 * succeeds, and the error message built when all of them fail, with the
 * offending source line and a caret under the reported column. The parsers
 * themselves are not part of this model: each attempt is given by its outcome.
 */
module Parser {
  import opened Common
  import opened NodeUtils

  /** The location a parse error reports; a line of 0 stands for a missing one. */
  datatype ErrorLoc = ErrorLoc(line: int, column: int)

  datatype ParseError = ParseError(message: string, loc: Option<ErrorLoc>)

  /** What calling one parse function does: return a value or throw. */
  datatype Outcome<T> = Returns(value: T) | Throws(error: ParseError)

  /** attempt(fns): call the functions in order and return the first value
      returned; when a function throws, go on to the next, unless it is the
      last, whose error is rethrown. An empty list returns undefined (None).
      `called` is the number of functions called. */
  method Attempt<T>(fns: seq<Outcome<T>>) returns (r: Option<Outcome<T>>, called: nat)
    ensures fns == [] ==> r.None? && called == 0
    ensures fns != [] ==> r.Some? && 1 <= called <= |fns| && r.value == fns[called - 1]
    ensures forall j :: 0 <= j < called - 1 ==> fns[j].Throws?
    ensures r.Some? && r.value.Throws? ==> called == |fns|
  {
    r := None;
    called := 0;
    var i := 0;
    while i < |fns|
      invariant 0 <= i <= |fns| && called == i
      invariant fns != [] ==> i < |fns|
      invariant forall j :: 0 <= j < i ==> fns[j].Throws?
    {
      called := called + 1;
      if fns[i].Returns? {
        return Some(fns[i]), called;
      }
      if i == |fns| - 1 {
        return Some(fns[i]), called;
      }
      i := i + 1;
    }
  }

  /** A function in the list that returns. */
  predicate AnyReturns<T>(fns: seq<Outcome<T>>)
  {
    exists j :: 0 <= j < |fns| && fns[j].Returns?
  }

  /** attempt throws exactly when every function throws, and then with the
      error of the last one. */
  lemma AttemptOutcome<T>(fns: seq<Outcome<T>>, r: Option<Outcome<T>>, called: nat)
    requires fns != []
    requires r.Some? && 1 <= called <= |fns| && r.value == fns[called - 1]
    requires forall j :: 0 <= j < called - 1 ==> fns[j].Throws?
    requires r.value.Throws? ==> called == |fns|
    ensures r.value.Throws? <==> !AnyReturns(fns)
    ensures r.value.Throws? ==> r.value == fns[|fns| - 1]
  {
    if r.value.Throws? {
      forall j | 0 <= j < |fns| ensures fns[j].Throws? {
        if j < called - 1 { } else { assert j == called - 1; }
      }
    } else {
      assert fns[called - 1].Returns?;
    }
  }

  /** The line the error points at: `src.split('\n')[line - 1]`, which reads
      as "undefined" when there is no such line. */
  function SourceLine(src: string, line: int): (r: string)
    ensures '\n' !in r
  {
    var lines := Split(src, '\n');
    if 1 <= line <= |lines| then lines[line - 1] else "undefined"
  }

  /** Whether getErrorContext gives up and returns ''. */
  predicate NoContext(err: ParseError)
  {
    err.loc.None? || err.loc.value.line == 0 || err.loc.value.column >= 100
  }

  /** getErrorContext(err, src). A negative column would make `repeat` throw;
      callers never reach it with one. */
  function ErrorContext(err: ParseError, src: string): string
    requires !NoContext(err) ==> err.loc.value.column >= 0
  {
    if NoContext(err) then ""
    else "\n" + SourceLine(src, err.loc.value.line) + "\n" + Repeat(' ', err.loc.value.column) + "^"
  }

  /** The context is empty exactly when there is no location, no line or the
      column is at least 100; otherwise it is three newline-separated pieces:
      nothing, the source line, and a caret preceded by `column` spaces. */
  lemma ErrorContextShape(err: ParseError, src: string)
    requires !NoContext(err) ==> err.loc.value.column >= 0
    ensures ErrorContext(err, src) == "" <==> NoContext(err)
    ensures !NoContext(err) ==>
      var pieces := Split(ErrorContext(err, src), '\n');
      var col := err.loc.value.column;
      |pieces| == 3 && pieces[0] == "" && pieces[1] == SourceLine(src, err.loc.value.line) &&
      |pieces[2]| == col + 1 && pieces[2][col] == '^' && forall k :: 0 <= k < col ==> pieces[2][k] == ' '
  {
    if !NoContext(err) {
      var line := SourceLine(src, err.loc.value.line);
      var caret := Repeat(' ', err.loc.value.column) + "^";
      assert '\n' !in caret;
      var parts := ["", line, caret];
      assert Join(parts, "\n") == "" + "\n" + Join(["", line, caret][1..], "\n");
      assert ["", line, caret][1..] == [line, caret];
      assert Join([line, caret], "\n") == line + "\n" + Join([caret], "\n");
      assert ErrorContext(err, src) == Join(parts, "\n");
      SplitJoin(parts, '\n');
    }
  }

  /** What parse(src, filePath, force) gives: the tree, or the message of the
      error it throws. */
  datatype ParseResult = Parsed(tree: Node) | Failed(message: string)

  /** The message of the error parse throws once every parser has failed. */
  function FailureMessage(err: ParseError, src: string, filePath: string): string
    requires !NoContext(err) ==> err.loc.value.column >= 0
  {
    "Couldn't parse " + filePath + ": " + err.message + ErrorContext(err, src)
  }

  /** The message names the file and carries the parser's own message. */
  lemma FailureMessageMentions(err: ParseError, src: string, filePath: string)
    requires !NoContext(err) ==> err.loc.value.column >= 0
    ensures Contains(FailureMessage(err, src, filePath), filePath)
    ensures Contains(FailureMessage(err, src, filePath), err.message)
    ensures StartsWith(FailureMessage(err, src, filePath), "Couldn't parse " + filePath + ": " + err.message)
  {
    var m := FailureMessage(err, src, filePath);
    ContainsConcat("Couldn't parse ", filePath, ": " + err.message + ErrorContext(err, src));
    assert m == "Couldn't parse " + filePath + (": " + err.message + ErrorContext(err, src));
    ContainsConcat("Couldn't parse " + filePath + ": ", err.message, ErrorContext(err, src));
    assert m == ("Couldn't parse " + filePath + ": ") + err.message + ErrorContext(err, src);
    assert m[..|"Couldn't parse " + filePath + ": " + err.message|] == "Couldn't parse " + filePath + ": " + err.message;
  }

  /** The parse functions in the order parse tries them: babylon as a script,
      babylon as a module, and the loose acorn parser only when forced. */
  function Parsers(script: Outcome<Node>, module_: Outcome<Node>, loose: Outcome<Node>, force: bool): seq<Outcome<Node>>
  {
    [script, module_] + (if force then [loose] else [])
  }

  /** A parser error location is never a negative column below 100. */
  predicate SaneLoc(o: Outcome<Node>)
  {
    o.Throws? && !NoContext(o.error) ==> o.error.loc.value.column >= 0
  }

  /** parse(src, filePath, force). The outcome of each parser on `src` is given. */
  method Parse(src: string, filePath: string, force: bool,
               script: Outcome<Node>, module_: Outcome<Node>, loose: Outcome<Node>)
    returns (r: ParseResult)
    requires SaneLoc(script) && SaneLoc(module_) && SaneLoc(loose)
    ensures r.Parsed? <==> script.Returns? || module_.Returns? || (force && loose.Returns?)
    ensures r.Parsed? ==>
      r.tree == (if script.Returns? then script.value else if module_.Returns? then module_.value else loose.value)
    ensures r.Failed? ==>
      var last := if force then loose else module_;
      r.message == FailureMessage(last.error, src, filePath)
  {
    var fns := Parsers(script, module_, loose, force);
    var a, called := Attempt(fns);
    AttemptOutcome(fns, a, called);
    assert fns[0] == script && fns[1] == module_;
    assert force ==> fns[2] == loose;
    if a.value.Returns? {
      if script.Returns? {
        assert called == 1;
      } else if module_.Returns? {
        assert called == 2;
      } else {
        assert called == 3;
      }
      r := Parsed(a.value.value);
    } else {
      assert fns[|fns| - 1] == (if force then loose else module_);
      r := Failed(FailureMessage(a.value.error, src, filePath));
    }
  }
}
