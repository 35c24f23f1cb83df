/** The editor session that the reconciler drives: a line buffer read with
    `getLine` and `getTextRange` and changed only with `insert` and `remove`,
    each of which splices the buffer's text at the offset of a (row, column)
    position. */
module SessionBuffer {
  import opened LineText

  /** At least one line, and no line holds a newline. */
  predicate WellFormed(lines: seq<string>) {
    |lines| >= 1 && NoNewlines(lines)
  }

  /** The position names an existing row and a column within (or at the
      end of) that row. */
  predicate ValidPos(lines: seq<string>, p: Position) {
    p.row < |lines| && p.column <= |lines[p.row]|
  }

  /** Row-major order of positions. */
  predicate PosLe(a: Position, b: Position) {
    a.row < b.row || (a.row == b.row && a.column <= b.column)
  }

  /** The text before row `r`, with the newline that ends row `r - 1`. */
  function Before(lines: seq<string>, r: nat): string
    requires r < |lines|
  {
    if r == 0 then "" else Before(lines, r - 1) + lines[r - 1] + "\n"
  }

  /** The text after row `r`, with the newline that ends row `r`. */
  function After(lines: seq<string>, r: nat): string
    requires r < |lines|
    decreases |lines| - r
  {
    if r == |lines| - 1 then "" else "\n" + lines[r + 1] + After(lines, r + 1)
  }

  /** The character offset of a position in the joined text. */
  function Offset(lines: seq<string>, p: Position): (k: nat)
    requires ValidPos(lines, p)
    ensures k <= |Join(lines)|
  {
    Layout(lines, p.row);
    |Before(lines, p.row)| + p.column
  }

  lemma {:induction false} BeforeIsJoin(lines: seq<string>, r: nat)
    requires 0 < r < |lines|
    ensures Before(lines, r) == Join(lines[..r]) + "\n"
  {
    if r > 1 {
      BeforeIsJoin(lines, r - 1);
      assert lines[..r] == lines[..r - 1] + [lines[r - 1]];
      JoinAppend(lines[..r - 1], [lines[r - 1]]);
    }
  }

  lemma {:induction false} AfterIsJoin(lines: seq<string>, r: nat)
    requires r < |lines| - 1
    ensures After(lines, r) == "\n" + Join(lines[r + 1..])
    decreases |lines| - r
  {
    if r < |lines| - 2 {
      AfterIsJoin(lines, r + 1);
      assert lines[r + 1..][1..] == lines[r + 2..];
    }
  }

  /** Rows joined after the rows above `s`. */
  lemma JoinBelowBefore(lines: seq<string>, s: nat, x: seq<string>)
    requires s < |lines| && |x| >= 1
    ensures Join(lines[..s] + x) == Before(lines, s) + Join(x)
  {
    if s == 0 {
      assert lines[..s] + x == x;
    } else {
      JoinAppend(lines[..s], x);
      BeforeIsJoin(lines, s);
    }
  }

  /** Rows joined before the rows below `e`. */
  lemma JoinAboveAfter(lines: seq<string>, e: nat, x: seq<string>)
    requires e < |lines| && |x| >= 1
    ensures Join(x + lines[e + 1..]) == Join(x) + After(lines, e)
  {
    if e == |lines| - 1 {
      assert x + lines[e + 1..] == x;
    } else {
      JoinAppend(x, lines[e + 1..]);
      AfterIsJoin(lines, e);
    }
  }

  /** Replacing rows `s..e` by `m` replaces, in the text, exactly what lies
      between `Before(lines, s)` and `After(lines, e)`. */
  lemma Splice(lines: seq<string>, s: nat, e: nat, m: seq<string>)
    requires s <= e < |lines| && |m| >= 1
    ensures Join(lines[..s] + m + lines[e + 1..]) == Before(lines, s) + Join(m) + After(lines, e)
  {
    var x := m + lines[e + 1..];
    assert lines[..s] + m + lines[e + 1..] == lines[..s] + x;
    JoinAboveAfter(lines, e, m);
    JoinBelowBefore(lines, s, x);
    Assoc(Before(lines, s), Join(m), After(lines, e));
  }

  /** Every row sits between the text before it and the text after it. */
  lemma Layout(lines: seq<string>, r: nat)
    requires r < |lines|
    ensures Join(lines) == Before(lines, r) + lines[r] + After(lines, r)
  {
    RegionLayout(lines, r, r);
    var m := lines[r..r + 1];
    assert m == [lines[r]];
    assert Join(m) == lines[r];
  }

  /** The rows `s..e` read, between the surrounding text, as their join. */
  lemma RegionLayout(lines: seq<string>, s: nat, e: nat)
    requires s <= e < |lines|
    ensures Join(lines) == Before(lines, s) + Join(lines[s..e + 1]) + After(lines, e)
  {
    assert lines[..s] + lines[s..e + 1] + lines[e + 1..] == lines;
    Splice(lines, s, e, lines[s..e + 1]);
  }

  /** Later rows start after the end of earlier ones. */
  lemma {:induction false} BeforeGrows(lines: seq<string>, i: nat, j: nat)
    requires i < j < |lines|
    ensures |Before(lines, i)| + |lines[i]| < |Before(lines, j)|
    decreases j
  {
    if i < j - 1 {
      BeforeGrows(lines, i, j - 1);
    }
  }

  /** Offsets follow the row-major order of positions. */
  lemma OffsetMonotone(lines: seq<string>, a: Position, b: Position)
    requires ValidPos(lines, a) && ValidPos(lines, b) && PosLe(a, b)
    ensures Offset(lines, a) <= Offset(lines, b)
  {
    if a.row < b.row {
      BeforeGrows(lines, a.row, b.row);
    }
  }

  /** The offset of a position cuts the text inside its row, at its column. */
  lemma OffsetSplitsText(lines: seq<string>, p: Position)
    requires ValidPos(lines, p)
    ensures Join(lines)[..Offset(lines, p)] == Before(lines, p.row) + lines[p.row][..p.column]
    ensures Join(lines)[Offset(lines, p)..] == lines[p.row][p.column..] + After(lines, p.row)
  {
    var line := lines[p.row];
    var head, tail := line[..p.column], line[p.column..];
    Layout(lines, p.row);
    assert line == head + tail;
    Regroup(Before(lines, p.row), head, tail, After(lines, p.row));
    CutAtJoint(Before(lines, p.row) + head, tail + After(lines, p.row));
  }

  /** The text before a row, split into lines, is the rows above it and an
      empty piece. */
  lemma SplitBefore(lines: seq<string>, r: nat)
    requires WellFormed(lines) && r < |lines|
    ensures Split(Before(lines, r)) == lines[..r] + [""]
  {
    if r > 0 {
      BeforeIsJoin(lines, r);
      assert NoNewlines(lines[..r]) by {
        assert forall i :: 0 <= i < r ==> lines[..r][i] == lines[i];
      }
      SplitJoin(lines[..r]);
      SplitNewlineEnd(Join(lines[..r]));
    }
  }

  /** The text before a position ends at that very position. */
  lemma EndPosAtOffset(lines: seq<string>, p: Position)
    requires WellFormed(lines) && ValidPos(lines, p)
    ensures EndPos(Join(lines)[..Offset(lines, p)]) == p
  {
    var w := lines[p.row][..p.column];
    OffsetSplitsText(lines, p);
    assert NoNewline(w) by {
      assert forall c :: c in w ==> c in lines[p.row];
    }
    SplitBefore(lines, p.row);
    SplitOfLine(w);
    SplitConcat(Before(lines, p.row), w);
    assert (lines[..p.row] + [""])[..p.row] == lines[..p.row];
    assert Split(Before(lines, p.row) + w) == lines[..p.row] + ["" + w];
  }

  /** Conversely, the position at the end of a prefix of the text is a
      valid position whose offset is the prefix's length. */
  lemma OffsetOfPrefix(lines: seq<string>, pre: string, rest: string)
    requires WellFormed(lines) && Join(lines) == pre + rest
    ensures ValidPos(lines, EndPos(pre))
    ensures Offset(lines, EndPos(pre)) == |pre|
  {
    var pa, pb := Split(pre), Split(rest);
    var r := |pa| - 1;
    SplitJoin(lines);
    SplitConcat(pre, rest);
    assert lines == pa[..r] + [Last(pa) + pb[0]] + pb[1..];
    assert lines[r] == Last(pa) + pb[0];
    assert pa == lines[..r] + [Last(pa)];
    JoinSplit(pre);
    JoinBelowBefore(lines, r, [Last(pa)]);
    assert Join([Last(pa)]) == Last(pa);
  }

  /** Rows `s..e` replaced by lines without newlines still form a
      well-formed buffer. */
  lemma SpliceWellFormed(lines: seq<string>, s: nat, e: nat, m: seq<string>)
    requires WellFormed(lines) && s <= e < |lines| && |m| >= 1 && NoNewlines(m)
    ensures WellFormed(lines[..s] + m + lines[e + 1..])
  {
    var r := lines[..s] + m + lines[e + 1..];
    forall i | 0 <= i < |r|
      ensures NoNewline(r[i])
    {
      if i < s {
        assert r[i] == lines[i];
      } else if i < s + |m| {
        assert r[i] == m[i - s];
      } else {
        assert r[i] == lines[i - s - |m| + e + 1];
      }
    }
  }

  /** The rows of `insert(p, text)`: row `p.row` is cut at `p.column` and
      the pieces of `text` go between its halves. */
  function InsertLines(lines: seq<string>, p: Position, text: string): (r: seq<string>)
    requires WellFormed(lines) && ValidPos(lines, p)
    ensures WellFormed(r)
    ensures Join(r) == Join(lines)[..Offset(lines, p)] + text + Join(lines)[Offset(lines, p)..]
  {
    var line := lines[p.row];
    var joined := line[..p.column] + text + line[p.column..];
    InsertText(lines, p, text);
    SpliceWellFormed(lines, p.row, p.row, Split(joined));
    lines[..p.row] + Split(joined) + lines[p.row + 1..]
  }

  lemma InsertText(lines: seq<string>, p: Position, text: string)
    requires ValidPos(lines, p)
    ensures var line := lines[p.row];
            var joined := line[..p.column] + text + line[p.column..];
            Join(lines[..p.row] + Split(joined) + lines[p.row + 1..])
              == Join(lines)[..Offset(lines, p)] + text + Join(lines)[Offset(lines, p)..]
  {
    var line := lines[p.row];
    var joined := line[..p.column] + text + line[p.column..];
    Splice(lines, p.row, p.row, Split(joined));
    JoinSplit(joined);
    OffsetSplitsText(lines, p);
    Regroup5(Before(lines, p.row), line[..p.column], text, line[p.column..], After(lines, p.row));
  }

  /** The rows of `remove(a, b)`: what is left of row `a.row` before `a`
      and of row `b.row` after `b` becomes one row. */
  function RemoveLines(lines: seq<string>, a: Position, b: Position): (r: seq<string>)
    requires WellFormed(lines) && ValidPos(lines, a) && ValidPos(lines, b) && PosLe(a, b)
    ensures WellFormed(r)
    ensures Join(r) == Join(lines)[..Offset(lines, a)] + Join(lines)[Offset(lines, b)..]
  {
    var joined := lines[a.row][..a.column] + lines[b.row][b.column..];
    assert NoNewline(joined) by {
      assert forall c :: c in joined ==> c in lines[a.row] || c in lines[b.row];
    }
    RemoveText(lines, a, b);
    SpliceWellFormed(lines, a.row, b.row, [joined]);
    lines[..a.row] + [joined] + lines[b.row + 1..]
  }

  lemma RemoveText(lines: seq<string>, a: Position, b: Position)
    requires ValidPos(lines, a) && ValidPos(lines, b) && PosLe(a, b)
    ensures var joined := lines[a.row][..a.column] + lines[b.row][b.column..];
            Join(lines[..a.row] + [joined] + lines[b.row + 1..])
              == Join(lines)[..Offset(lines, a)] + Join(lines)[Offset(lines, b)..]
  {
    var joined := lines[a.row][..a.column] + lines[b.row][b.column..];
    Splice(lines, a.row, b.row, [joined]);
    assert Join([joined]) == joined;
    OffsetSplitsText(lines, a);
    OffsetSplitsText(lines, b);
    Regroup(Before(lines, a.row), lines[a.row][..a.column], lines[b.row][b.column..], After(lines, b.row));
  }

  /** Well-formed buffers with the same text have the same rows. */
  lemma SameTextSameLines(lines: seq<string>, other: seq<string>)
    requires WellFormed(lines) && WellFormed(other) && Join(lines) == Join(other)
    ensures lines == other
  {
    SplitJoin(lines);
    SplitJoin(other);
  }

  /** The text strictly between two positions. */
  function TextRange(lines: seq<string>, a: Position, b: Position): string
    requires ValidPos(lines, a) && ValidPos(lines, b) && PosLe(a, b)
  {
    OffsetMonotone(lines, a, b);
    Join(lines)[Offset(lines, a)..Offset(lines, b)]
  }

  /** The editor session's document. */
  class Buffer {
    var lines: seq<string>

    ghost predicate Valid()
      reads this
    {
      WellFormed(lines)
    }

    /** The whole document, rows joined by newlines. */
    function Text(): string
      reads this
      requires Valid()
    {
      Join(lines)
    }

    /** A session opened on `text`. */
    constructor (text: string)
      ensures Valid() && Text() == text
    {
      lines := Split(text);
      JoinSplit(text);
    }

    /** `session.getLine(row)`: the text between the rows above `row`
        and the rows below it. */
    function GetLine(row: nat): (line: string)
      reads this
      requires row < |lines|
      ensures Join(lines) == Before(lines, row) + line + After(lines, row)
    {
      Layout(lines, row);
      lines[row]
    }

    /** `session.getTextRange(range)`: the stretch of the text between the
        offsets of the range's ends. */
    function GetTextRange(a: Position, b: Position): (text: string)
      reads this
      requires ValidPos(lines, a) && ValidPos(lines, b) && PosLe(a, b)
      ensures Offset(lines, a) + |text| == Offset(lines, b)
      ensures Join(lines) == Join(lines)[..Offset(lines, a)] + text + Join(lines)[Offset(lines, b)..]
    {
      OffsetMonotone(lines, a, b);
      assert Join(lines) == Join(lines)[..Offset(lines, a)] + Join(lines)[Offset(lines, a)..Offset(lines, b)] + Join(lines)[Offset(lines, b)..];
      TextRange(lines, a, b)
    }

    /** `session.insert(p, text)`: the text is spliced in at the offset
        of `p`. */
    method Insert(p: Position, text: string)
      requires Valid() && ValidPos(lines, p)
      modifies this
      ensures Valid()
      ensures Text() == old(Text()[..Offset(lines, p)] + text + Text()[Offset(lines, p)..])
    {
      lines := InsertLines(lines, p, text);
    }

    /** `session.remove(range)`: the text between the offsets of `a` and
        `b` disappears. */
    method Remove(a: Position, b: Position)
      requires Valid() && ValidPos(lines, a) && ValidPos(lines, b) && PosLe(a, b)
      modifies this
      ensures Valid()
      ensures Text() == old(Text()[..Offset(lines, a)] + Text()[Offset(lines, b)..])
    {
      lines := RemoveLines(lines, a, b);
    }
  }
}
