/**
 * The helpers of the single-file component reader: the comment symbol of a
 * script language, the commenting-out of the text around the script so that
 * line numbers are kept, and the lookup of a tag attribute.
 */
module VueParser {
  import opened Common

  /** The languages whose line comment is not `//`. */
  const CommentSymbols: map<string, string> := map[
    "iced" := "#", "iced-jsx" := "#", "iced-redux" := "#",
    "coffee" := "#", "coffee-jsx" := "#", "coffee-redux" := "#",
    "purs" := "--", "ulmus" := "--"]

  /** getCommentSymbol(lang): the table entry, or `//` for any other language
      and for a missing one. */
  function CommentSymbol(lang: Option<string>): (r: string)
    ensures lang.Some? && lang.value in {"iced", "iced-jsx", "iced-redux", "coffee", "coffee-jsx", "coffee-redux"} ==> r == "#"
    ensures lang.Some? && lang.value in {"purs", "ulmus"} ==> r == "--"
    ensures lang.None? || lang.value !in CommentSymbols ==> r == "//"
    ensures r in {"#", "--", "//"}
  {
    if lang.Some? && lang.value in CommentSymbols then CommentSymbols[lang.value] else "//"
  }

  /** A character `\s` matches in a regular expression. */
  predicate IsSpace(ch: char)
  {
    ch in {'\t', '\n', '\U{000B}', '\U{000C}', '\r', ' ', '\U{00A0}', '\U{1680}', '\U{2028}', '\U{2029}',
           '\U{202F}', '\U{205F}', '\U{3000}', '\U{FEFF}'} ||
    ('\U{2000}' <= ch <= '\U{200A}')
  }

  /** `/^\s*$/.test(line)`. */
  predicate Blank(line: string)
  {
    forall k :: 0 <= k < |line| ==> IsSpace(line[k])
  }

  /** `content.split(/\r?\n/)`: the pieces between newlines, a carriage return
      just before a newline belonging to the separator. */
  function SplitLines(content: string): (r: seq<string>)
    ensures |r| == |Split(content, '\n')|
    ensures forall i :: 0 <= i < |r| ==> '\n' !in r[i]
  {
    var pieces := Split(content, '\n');
    seq(|pieces|, i requires 0 <= i < |pieces| =>
      if i < |pieces| - 1 && EndsWith(pieces[i], "\r") then pieces[i][..|pieces[i]| - 1] else pieces[i])
  }

  /** How commentScript rewrites one line: a blank last line becomes empty,
      any other blank line the bare symbol, and every other line is prefixed
      with the symbol and a space. */
  function CommentLine(symbol: string, line: string, isLast: bool): (r: string)
    ensures '\n' !in symbol && '\n' !in line ==> '\n' !in r
  {
    if isLast && Blank(line) then "" else symbol + (if Blank(line) then "" else " " + line)
  }

  function CommentedLines(symbol: string, lines: seq<string>): (r: seq<string>)
    ensures |r| == |lines|
    ensures forall i :: 0 <= i < |r| ==> r[i] == CommentLine(symbol, lines[i], i == |lines| - 1)
  {
    seq(|lines|, i requires 0 <= i < |lines| => CommentLine(symbol, lines[i], i == |lines| - 1))
  }

  /** commentScript(content, lang). */
  function CommentScript(content: string, lang: Option<string>): string
  {
    Join(CommentedLines(CommentSymbol(lang), SplitLines(content)), "\n")
  }

  /** Splitting the output at its newlines gives back the commented lines. */
  lemma CommentScriptSplit(content: string, lang: Option<string>)
    ensures Split(CommentScript(content, lang), '\n') == CommentedLines(CommentSymbol(lang), SplitLines(content))
  {
    var symbol := CommentSymbol(lang);
    var lines := SplitLines(content);
    var commented := CommentedLines(symbol, lines);
    assert '\n' !in symbol;
    forall i | 0 <= i < |commented| ensures '\n' !in commented[i] {
      assert '\n' !in lines[i];
    }
    assert |commented| == |Split(content, '\n')| >= 1;
    SplitJoin(commented, '\n');
  }

  /** commentScript keeps the line count: its output has one newline-separated
      piece per line of the input, and each piece is the commented line. */
  lemma CommentScriptLines(content: string, lang: Option<string>)
    ensures var out := Split(CommentScript(content, lang), '\n');
      var lines := SplitLines(content);
      var symbol := CommentSymbol(lang);
      |out| == |Split(content, '\n')| &&
      forall i :: 0 <= i < |out| ==>
        (i == |out| - 1 && Blank(lines[i]) ==> out[i] == "") &&
        (i < |out| - 1 && Blank(lines[i]) ==> out[i] == symbol) &&
        (!Blank(lines[i]) ==> out[i] == symbol + " " + lines[i])
  {
    CommentScriptSplit(content, lang);
  }

  /** A non-blank line can be read back from its commented form. */
  lemma UncommentLine(symbol: string, line: string, isLast: bool)
    requires !Blank(line)
    ensures StartsWith(CommentLine(symbol, line, isLast), symbol + " ")
    ensures CommentLine(symbol, line, isLast)[|symbol| + 1..] == line
  {
    assert CommentLine(symbol, line, isLast) == (symbol + " ") + line;
  }

  datatype Attr = Attr(name: string, value: string)

  /** getAttribute(node, name), given `node.attrs`: scanning from the end, the
      value of the last attribute with that name; undefined (None) when there
      is none or no attribute list. */
  method GetAttribute(attrs: Option<seq<Attr>>, name: string) returns (r: Option<string>)
    ensures r.None? <==> attrs.None? || forall i :: 0 <= i < |attrs.value| ==> attrs.value[i].name != name
    ensures r.Some? ==> exists i :: 0 <= i < |attrs.value| && attrs.value[i].name == name &&
                          attrs.value[i].value == r.value &&
                          forall j :: i < j < |attrs.value| ==> attrs.value[j].name != name
  {
    if attrs.None? {
      return None;
    }
    var list := attrs.value;
    var i := |list|;
    while i > 0
      invariant 0 <= i <= |list|
      invariant forall j :: i <= j < |list| ==> list[j].name != name
    {
      i := i - 1;
      if list[i].name == name {
        return Some(list[i].value);
      }
    }
    return None;
  }
}
