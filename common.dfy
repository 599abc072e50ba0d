/**
 * Small value types and string helpers shared by the model: an optional value,
 * JavaScript's index normalisation for `slice`, `split` on one character,
 * `join`, `repeat`, substring tests and decimal formatting of integers.
 */
module Common {

  datatype Option<T> = None | Some(value: T)

  function Min(a: int, b: int): int { if a <= b then a else b }

  function Max(a: int, b: int): int { if a <= b then b else a }

  /** How `Array.prototype.slice` and `String.prototype.slice` read an index:
      a negative index counts from the end, and the result is clamped to the length. */
  function ClampIndex(i: int, len: nat): (r: nat)
    ensures r <= len
    ensures 0 <= i <= len ==> r == i
    ensures i < 0 && len + i >= 0 ==> r == len + i
    ensures i < 0 && len + i < 0 ==> r == 0
    ensures i > len ==> r == len
  {
    if i < 0 then (if len + i < 0 then 0 else len + i) else if i > len then len else i
  }

  /** `s.slice(start, end)`. */
  function Slice<T>(s: seq<T>, start: int, end: int): (r: seq<T>)
    ensures |r| <= |s|
    ensures 0 <= start <= end <= |s| ==> r == s[start..end]
    ensures ClampIndex(start, |s|) < ClampIndex(end, |s|) ==> r == s[ClampIndex(start, |s|)..ClampIndex(end, |s|)]
    ensures ClampIndex(end, |s|) <= ClampIndex(start, |s|) ==> r == []
  {
    var a := ClampIndex(start, |s|);
    var b := ClampIndex(end, |s|);
    if a < b then s[a..b] else []
  }

  /** `s.slice(start)`. */
  function SliceFrom<T>(s: seq<T>, start: int): (r: seq<T>)
    ensures r == s[ClampIndex(start, |s|)..]
  {
    s[ClampIndex(start, |s|)..]
  }

  /** `s.slice(-k)` keeps the last k elements when 0 < k <= |s|. */
  lemma SliceFromNegative<T>(s: seq<T>, k: int)
    requires 0 < k <= |s|
    ensures |SliceFrom(s, -k)| == k
    ensures SliceFrom(s, -k) == s[|s| - k..]
    ensures SliceFrom(s, -k)[0] == s[|s| - k]
  {
  }

  /** `parts.join(sep)`. */
  function Join(parts: seq<string>, sep: string): (r: string)
    ensures parts == [] ==> r == ""
    ensures |parts| == 1 ==> r == parts[0]
  {
    if parts == [] then ""
    else if |parts| == 1 then parts[0]
    else parts[0] + sep + Join(parts[1..], sep)
  }

  /** Joining one more piece adds the separator and the piece. */
  lemma {:induction false} JoinSnoc(parts: seq<string>, p: string, sep: string)
    requires parts != []
    ensures Join(parts + [p], sep) == Join(parts, sep) + sep + p
  {
    if |parts| == 1 {
      assert parts + [p] == [parts[0], p];
      assert [parts[0], p][1..] == [p];
    } else {
      assert (parts + [p])[1..] == parts[1..] + [p];
      JoinSnoc(parts[1..], p, sep);
    }
  }

  /** `s.split(c)` for a one-character separator: the pieces between occurrences of c.
      The empty string gives one empty piece, as in JavaScript. */
  function Split(s: string, c: char): (r: seq<string>)
    ensures |r| >= 1
    ensures forall i :: 0 <= i < |r| ==> c !in r[i]
  {
    if s == [] then [""]
    else if s[0] == c then [""] + Split(s[1..], c)
    else
      var rest := Split(s[1..], c);
      [[s[0]] + rest[0]] + rest[1..]
  }

  /** A piece free of the separator is read back whole, followed by what splitting the rest gives. */
  lemma {:induction false} SplitPrefix(p: string, t: string, c: char)
    requires c !in p
    ensures Split(p + t, c) == [p + Split(t, c)[0]] + Split(t, c)[1..]
  {
    if p != [] {
      assert (p + t)[1..] == p[1..] + t;
      SplitPrefix(p[1..], t, c);
      assert [p[0]] + (p[1..] + Split(t, c)[0]) == p + Split(t, c)[0];
    } else {
      assert p + t == t;
      var r := Split(t, c);
      assert r == [r[0]] + r[1..];
      assert p + r[0] == r[0];
    }
  }

  /** Splitting undoes joining whenever no piece contains the separator. */
  lemma {:induction false} SplitJoin(parts: seq<string>, c: char)
    requires parts != []
    requires forall i :: 0 <= i < |parts| ==> c !in parts[i]
    ensures Split(Join(parts, [c]), c) == parts
  {
    if |parts| == 1 {
      SplitPrefix(parts[0], "", c);
      assert parts[0] + "" == parts[0];
    } else {
      var rest := Join(parts[1..], [c]);
      SplitJoin(parts[1..], c);
      assert parts[0] + [c] + rest == parts[0] + ([c] + rest);
      SplitPrefix(parts[0], [c] + rest, c);
      assert ([c] + rest)[1..] == rest;
      assert Split([c] + rest, c) == [""] + Split(rest, c);
      assert parts[0] + "" == parts[0];
      assert parts == [parts[0]] + parts[1..];
    }
  }

  /** Joining undoes splitting. */
  lemma {:induction false} JoinSplit(s: string, c: char)
    ensures Join(Split(s, c), [c]) == s
  {
    if s != [] {
      JoinSplit(s[1..], c);
      var rest := Split(s[1..], c);
      if s[0] == c {
        assert Split(s, c) == [""] + rest;
        assert ([""] + rest)[1..] == rest;
      } else {
        var r := Split(s, c);
        assert r == [[s[0]] + rest[0]] + rest[1..];
        if |rest| == 1 {
          assert s == [s[0]] + s[1..];
        } else {
          assert r[1..] == rest[1..];
          assert Join(rest, [c]) == rest[0] + [c] + Join(rest[1..], [c]);
          assert s == [s[0]] + s[1..];
        }
      }
    }
  }

  /** The lines one after the other, each followed by a newline. */
  function Terminated(lines: seq<string>): string
    decreases |lines|
  {
    if lines == [] then "" else lines[0] + "\n" + Terminated(lines[1..])
  }

  lemma {:induction false} TerminatedSnoc(lines: seq<string>, line: string)
    ensures Terminated(lines + [line]) == Terminated(lines) + (line + "\n")
    decreases |lines|
  {
    if lines == [] {
      assert lines + [line] == [line];
      assert [line][1..] == [];
    } else {
      assert (lines + [line])[0] == lines[0] && (lines + [line])[1..] == lines[1..] + [line];
      TerminatedSnoc(lines[1..], line);
    }
  }

  /** Appending lines one by one, each followed by a newline, as the
      reporters' forEach loops do. */
  method AppendTerminated(output: string, lines: seq<string>) returns (o: string)
    ensures o == output + Terminated(lines)
  {
    o := output;
    var i := 0;
    while i < |lines|
      invariant 0 <= i <= |lines|
      invariant o == output + Terminated(lines[..i])
    {
      o := o + (lines[i] + "\n");
      assert lines[..i + 1] == lines[..i] + [lines[i]];
      TerminatedSnoc(lines[..i], lines[i]);
      assert output + Terminated(lines[..i]) + (lines[i] + "\n") == output + (Terminated(lines[..i]) + (lines[i] + "\n"));
      i := i + 1;
    }
    assert lines[..i] == lines;
  }

  /** Splitting newline-terminated lines at newlines gives the lines back,
      then the empty piece after the last newline. */
  lemma {:induction false} TerminatedSplit(lines: seq<string>)
    requires forall i :: 0 <= i < |lines| ==> '\n' !in lines[i]
    ensures Split(Terminated(lines), '\n') == lines + [""]
    decreases |lines|
  {
    if lines != [] {
      var rest := Terminated(lines[1..]);
      TerminatedSplit(lines[1..]);
      assert Terminated(lines) == lines[0] + ("\n" + rest);
      SplitPrefix(lines[0], "\n" + rest, '\n');
      assert ("\n" + rest)[1..] == rest;
      assert Split("\n" + rest, '\n') == [""] + (lines[1..] + [""]);
      assert lines[0] + "" == lines[0];
      assert lines == [lines[0]] + lines[1..];
    }
  }

  /** Concatenation of a sequence of sequences, in order. */
  function Flatten<T>(ss: seq<seq<T>>): (r: seq<T>)
    ensures |ss| == 1 ==> r == ss[0]
  {
    if ss == [] then [] else ss[0] + Flatten(ss[1..])
  }

  lemma {:induction false} FlattenAppend<T>(a: seq<seq<T>>, b: seq<seq<T>>)
    ensures Flatten(a + b) == Flatten(a) + Flatten(b)
  {
    if a != [] {
      assert (a + b)[1..] == a[1..] + b;
      FlattenAppend(a[1..], b);
    } else {
      assert a + b == b;
    }
  }

  /** Extending a prefix of the parts by one extends its concatenation by that part. */
  lemma FlattenPrefix<T>(ss: seq<seq<T>>, i: nat)
    requires i < |ss|
    ensures Flatten(ss[..i + 1]) == Flatten(ss[..i]) + ss[i]
  {
    assert ss[..i + 1] == ss[..i] + [ss[i]];
    FlattenAppend(ss[..i], [ss[i]]);
  }

  /** Every element of a concatenation comes from one of its parts. */
  lemma {:induction false} FlattenMember<T>(ss: seq<seq<T>>, x: T)
    requires x in Flatten(ss)
    ensures exists i :: 0 <= i < |ss| && x in ss[i]
  {
    if x !in ss[0] {
      FlattenMember(ss[1..], x);
      var i :| 0 <= i < |ss[1..]| && x in ss[1..][i];
      assert x in ss[i + 1];
    }
  }

  /** `str.repeat(n)` for a one-character string. */
  function Repeat(ch: char, n: nat): (r: string)
    ensures |r| == n
    ensures forall i :: 0 <= i < n ==> r[i] == ch
  {
    if n == 0 then "" else [ch] + Repeat(ch, n - 1)
  }

  predicate StartsWith(s: string, prefix: string)
  {
    |prefix| <= |s| && s[..|prefix|] == prefix
  }

  predicate EndsWith(s: string, suffix: string)
  {
    |suffix| <= |s| && s[|s| - |suffix|..] == suffix
  }

  /** `s.includes(sub)`. */
  predicate Contains(s: string, sub: string)
  {
    exists i :: 0 <= i <= |s| - |sub| && OccursAt(s, sub, i)
  }

  predicate OccursAt(s: string, sub: string, i: int)
  {
    0 <= i <= |s| - |sub| && s[i..i + |sub|] == sub
  }

  lemma ContainsConcat(a: string, sub: string, b: string)
    ensures Contains(a + sub + b, sub)
  {
    var s := a + sub + b;
    assert s[|a|..|a| + |sub|] == sub;
    assert OccursAt(s, sub, |a|);
  }

  predicate IsDigit(ch: char) { '0' <= ch <= '9' }

  function DigitChar(d: nat): (ch: char)
    requires d < 10
    ensures IsDigit(ch)
  {
    ['0', '1', '2', '3', '4', '5', '6', '7', '8', '9'][d]
  }

  /** Decimal notation of a natural number, as `${n}` prints it. */
  function NatToString(n: nat): (r: string)
    ensures |r| >= 1
    ensures forall i :: 0 <= i < |r| ==> IsDigit(r[i])
    decreases n
  {
    if n < 10 then [DigitChar(n)] else NatToString(n / 10) + [DigitChar(n % 10)]
  }

  /** Decimal notation of an integer, with a leading '-' when it is negative. */
  function IntToString(i: int): (r: string)
    ensures |r| >= 1
    ensures i >= 0 ==> IsDigit(r[0])
    ensures i < 0 ==> r[0] == '-'
  {
    if i < 0 then "-" + NatToString(-i) else NatToString(i)
  }

  lemma IntToStringNoNewline(n: int)
    ensures '\n' !in IntToString(n)
  {
    if n < 0 {
      assert IntToString(n) == "-" + NatToString(-n);
    }
  }
}
