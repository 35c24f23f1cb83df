/** The line-oriented view of a text that the editor session keeps:
    `split('\n')`, its inverse `join('\n')`, and the (row, column) reached
    at the end of a text. */
module LineText {

  /** A 0-based place in a line buffer: a row and a character offset in it. */
  datatype Position = Position(row: nat, column: nat)

  predicate NoNewline(s: string) {
    '\n' !in s
  }

  predicate NoNewlines(lines: seq<string>) {
    forall i :: 0 <= i < |lines| ==> NoNewline(lines[i])
  }

  function Last(lines: seq<string>): string
    requires |lines| >= 1
  {
    lines[|lines| - 1]
  }

  /** `s.split('\n')`: the pieces of `s` between newlines; there is always
      one more piece than there are newlines, so never fewer than one. */
  function Split(s: string): (pieces: seq<string>)
    ensures |pieces| >= 1
    ensures NoNewlines(pieces)
    decreases |s|
  {
    if s == "" then [""]
    else if s[0] == '\n' then [""] + Split(s[1..])
    else
      var rest := Split(s[1..]);
      [[s[0]] + rest[0]] + rest[1..]
  }

  /** `lines.join('\n')`. */
  function Join(lines: seq<string>): string
    requires |lines| >= 1
  {
    if |lines| == 1 then lines[0] else lines[0] + "\n" + Join(lines[1..])
  }

  function NewlineCount(s: string): nat
  {
    if s == "" then 0 else (if s[0] == '\n' then 1 else 0) + NewlineCount(s[1..])
  }

  /** The position reached after writing `s` from (0, 0): one row per
      newline, and the column is the length of what follows the last one. */
  function EndPos(s: string): Position
  {
    var pieces := Split(s);
    Position(|pieces| - 1, |Last(pieces)|)
  }

  lemma {:induction false} SplitCount(s: string)
    ensures |Split(s)| == NewlineCount(s) + 1
    decreases |s|
  {
    if s != "" {
      SplitCount(s[1..]);
    }
  }

  /** A text without newlines is a single piece. */
  lemma {:induction false} SplitOfLine(s: string)
    requires NoNewline(s)
    ensures Split(s) == [s]
    decreases |s|
  {
    if s != "" {
      assert s[0] in s;
      assert forall c :: c in s[1..] ==> c in s;
      SplitOfLine(s[1..]);
      assert [s[0]] + s[1..] == s;
    }
  }

  /** The gluing of SplitConcat commutes with putting a character in front:
      on the pieces, that is prefixing the first piece. */
  lemma GlueInFront(c: string, ra: seq<string>, rb: seq<string>)
    requires |ra| >= 1 && |rb| >= 1
    ensures var r := ra[..|ra| - 1] + [Last(ra) + rb[0]] + rb[1..];
            var sa := [c + ra[0]] + ra[1..];
            [c + r[0]] + r[1..] == sa[..|sa| - 1] + [Last(sa) + rb[0]] + rb[1..]
  {
    var r := ra[..|ra| - 1] + [Last(ra) + rb[0]] + rb[1..];
    var sa := [c + ra[0]] + ra[1..];
    if |ra| == 1 {
      assert r == [ra[0] + rb[0]] + rb[1..];
      assert c + (ra[0] + rb[0]) == (c + ra[0]) + rb[0];
    } else {
      assert r[0] == ra[0];
      assert r[1..] == ra[1..|ra| - 1] + [Last(ra) + rb[0]] + rb[1..];
      assert sa[..|sa| - 1] == [c + ra[0]] + ra[1..|ra| - 1];
    }
  }

  /** Splitting a concatenation glues the last piece of `a` to the first
      piece of `b`. */
  lemma {:induction false} SplitConcat(a: string, b: string)
    ensures Split(a + b) == Split(a)[..|Split(a)| - 1] + [Last(Split(a)) + Split(b)[0]] + Split(b)[1..]
    decreases |a|
  {
    if a == "" {
      assert a + b == b;
      var rb := Split(b);
      assert Split(a)[..0] == [] && Last(Split(a)) + rb[0] == rb[0];
      assert [rb[0]] + rb[1..] == rb;
    } else {
      assert (a + b)[0] == a[0];
      assert (a + b)[1..] == a[1..] + b;
      SplitConcat(a[1..], b);
      var ra, rb := Split(a[1..]), Split(b);
      if a[0] != '\n' {
        GlueInFront([a[0]], ra, rb);
      } else {
        assert Split(a) == [""] + ra;
        assert ([""] + ra)[..|ra|] == [""] + ra[..|ra| - 1];
      }
    }
  }

  /** A trailing newline adds one empty piece. */
  lemma SplitNewlineEnd(a: string)
    ensures Split(a + "\n") == Split(a) + [""]
  {
    assert Split("\n") == ["", ""] by {
      assert "\n"[1..] == "";
    }
    SplitConcat(a, "\n");
    var pa := Split(a);
    assert Last(pa) + "" == Last(pa);
    assert pa[..|pa| - 1] + [Last(pa)] == pa;
  }

  /** Regroupings of concatenated texts, kept apart from the recursive
      definitions so that they are proved in a small context. */
  lemma Assoc(a: string, b: string, c: string)
    ensures a + (b + c) == (a + b) + c
  {
  }

  lemma Regroup(a: string, b: string, c: string, d: string)
    ensures a + b + (c + d) == a + (b + c + d)
    ensures (a + b) + (c + d) == a + (b + c) + d
  {
  }

  lemma Regroup5(a: string, b: string, c: string, d: string, e: string)
    ensures a + (b + c + d) + e == (a + b) + c + (d + e)
    ensures a + (b + c + d) + e == a + b + (c + d + e)
  {
  }

  /** Cutting a concatenation where its first part ends. */
  lemma CutAtJoint(a: string, b: string)
    ensures (a + b)[..|a|] == a && (a + b)[|a|..] == b
  {
  }

  /** The text after the last newline is the last piece. */
  lemma SplitAtLastNewline(x: string, b: string)
    requires NoNewline(b)
    ensures Split(x + "\n" + b) == Split(x) + [b]
  {
    var a := x + "\n";
    SplitNewlineEnd(x);
    SplitOfLine(b);
    SplitConcat(a, b);
    var pa := Split(x) + [""];
    assert pa[..|pa| - 1] == Split(x);
    assert "" + b == b;
  }

  lemma {:induction false} JoinAppend(xs: seq<string>, ys: seq<string>)
    requires |xs| >= 1 && |ys| >= 1
    ensures Join(xs + ys) == Join(xs) + "\n" + Join(ys)
    decreases |xs|
  {
    if |xs| == 1 {
      assert (xs + ys)[1..] == ys;
    } else {
      assert (xs + ys)[1..] == xs[1..] + ys;
      JoinAppend(xs[1..], ys);
    }
  }

  /** Joining the pieces gives back the text. */
  lemma {:induction false} JoinSplit(s: string)
    ensures Join(Split(s)) == s
    decreases |s|
  {
    if s != "" {
      JoinSplit(s[1..]);
      var rest := Split(s[1..]);
      if s[0] == '\n' {
        assert ([""] + rest)[1..] == rest;
      } else if |rest| > 1 {
        assert ([[s[0]] + rest[0]] + rest[1..])[1..] == rest[1..];
        assert Join(rest) == rest[0] + "\n" + Join(rest[1..]);
      }
      assert [s[0]] + s[1..] == s;
    }
  }

  /** A line followed by a newline is a piece of its own. */
  lemma {:induction false} SplitLineThenRest(line: string, rest: string)
    requires NoNewline(line)
    ensures Split(line + "\n" + rest) == [line] + Split(rest)
    decreases |line|
  {
    var s := line + "\n" + rest;
    if line == "" {
      assert s[0] == '\n' && s[1..] == rest;
    } else {
      assert line[0] in line;
      assert forall c :: c in line[1..] ==> c in line;
      assert s[0] == line[0] && s[1..] == line[1..] + "\n" + rest;
      SplitLineThenRest(line[1..], rest);
      assert [line[0]] + line[1..] == line;
    }
  }

  /** Splitting joined lines that hold no newline gives back the lines. */
  lemma {:induction false} SplitJoin(lines: seq<string>)
    requires |lines| >= 1 && NoNewlines(lines)
    ensures Split(Join(lines)) == lines
    decreases |lines|
  {
    if |lines| == 1 {
      SplitOfLine(lines[0]);
    } else {
      assert forall i :: 0 <= i < |lines| - 1 ==> lines[1..][i] == lines[i + 1];
      SplitJoin(lines[1..]);
      SplitLineThenRest(lines[0], Join(lines[1..]));
      assert [lines[0]] + lines[1..] == lines;
    }
  }
}
