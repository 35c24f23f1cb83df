/** Reconciliation of an embedded application's edit with the editor
    session: the span of the owning node gives the region of old text, a
    character-level change script turns it into the new text, and the
    script is replayed on the session with a moving cursor. */
module WikiEditorAce {
  import opened LineText
  import opened SessionBuffer

  /** The 1-based delimiter lines of the node that owns an application. */
  datatype NodeSpan = NodeSpan(startLine: nat, endLine: nat)

  /** What the renderer hands to an application and gets back with its edits. */
  datatype AppContext = AppContext(position: NodeSpan)

  /** One segment of a character diff: text both sides share, text only
      the new side has, or text only the old side had. */
  datatype Change = Kept(value: string) | Added(value: string) | Removed(value: string)

  /** The part of a change on the old side and on the new side. */
  function OldPart(c: Change): string { if c.Added? then "" else c.value }
  function NewPart(c: Change): string { if c.Removed? then "" else c.value }

  /** The old text a script was computed from: its kept and removed parts. */
  function OldSide(changes: seq<Change>): string
  {
    if changes == [] then "" else OldPart(changes[0]) + OldSide(changes[1..])
  }

  /** The new text a script leads to: its kept and added parts. */
  function NewSide(changes: seq<Change>): string
  {
    if changes == [] then ""
    else NewSide(changes[..|changes| - 1]) + NewPart(changes[|changes| - 1])
  }

  /** The node has no body: its closing delimiter follows its opening one. */
  predicate IsOldTextEmpty(span: NodeSpan) {
    span.startLine == span.endLine - 1
  }

  /** The flag says exactly that no row lies between the delimiters:
      the body rows `startLine .. endLine - 2` are none. */
  lemma BodyRows(lines: seq<string>, span: NodeSpan)
    requires SpanInBuffer(span, |lines|)
    ensures span.startLine <= span.endLine - 1 <= |lines|
    ensures IsOldTextEmpty(span) <==> lines[span.startLine..span.endLine - 1] == []
  {
  }

  /** The rows the code touches exist: row `endLine - 1` for an empty
      body, rows up to `endLine - 2` otherwise. */
  predicate SpanInBuffer(span: NodeSpan, lineCount: nat) {
    span.startLine < span.endLine &&
    (if IsOldTextEmpty(span) then span.endLine - 1 < lineCount else span.endLine - 2 < lineCount)
  }

  /** The cursor after `s` has been written from `p`: past each newline a
      row further down, otherwise further right on the same row. */
  function NextPosition(p: Position, s: string): (q: Position)
    ensures PosLe(p, q)
  {
    var lines := Split(s);
    if |lines| >= 2 then Position(p.row + (|lines| - 1), |lines[|lines| - 1]|)
    else Position(p.row, p.column + |lines[0]|)
  }

  /** Text without a newline moves the cursor right by its length. */
  lemma NextPositionWithinLine(p: Position, s: string)
    requires NoNewline(s)
    ensures NextPosition(p, s) == Position(p.row, p.column + |s|)
  {
    SplitOfLine(s);
  }

  /** The cursor goes down one row per newline written, whatever the text. */
  lemma NextPositionRow(p: Position, s: string)
    ensures NextPosition(p, s).row == p.row + NewlineCount(s)
  {
    SplitCount(s);
  }

  /** Past a newline (the last one at index `i`) the cursor ends just past
      what follows it, whatever the column was. */
  lemma NextPositionAcrossLines(p: Position, s: string, i: nat)
    requires i < |s| && s[i] == '\n' && NoNewline(s[i + 1..])
    ensures NextPosition(p, s).column == |s| - i - 1
  {
    var a, b := s[..i] + "\n", s[i + 1..];
    assert s == a + b;
    SplitAtLastNewline(s[..i], b);
  }

  /** Moving the cursor past `s` from the end of `a` reaches the end of
      `a + s`: the cursor arithmetic agrees with the text it walks over. */
  lemma NextPositionAfter(a: string, s: string)
    ensures NextPosition(EndPos(a), s) == EndPos(a + s)
  {
    var pa, ps, glued := Split(a), Split(s), Split(a + s);
    SplitConcat(a, s);
    assert glued == pa[..|pa| - 1] + [Last(pa) + ps[0]] + ps[1..];
    assert EndPos(a) == Position(|pa| - 1, |Last(pa)|);
    assert EndPos(a + s) == Position(|glued| - 1, |Last(glued)|);
    assert |glued| == |pa| + |ps| - 1;
    if |ps| >= 2 {
      assert Last(glued) == Last(ps);
    } else {
      assert Last(glued) == Last(pa) + ps[0];
    }
  }

  /** The text `getTextRange` returns for a non-empty body: exactly the rows
      `startLine` to `endLine - 2`. */
  lemma OldRegionText(lines: seq<string>, span: NodeSpan)
    requires WellFormed(lines) && SpanInBuffer(span, |lines|) && !IsOldTextEmpty(span)
    ensures ValidPos(lines, Position(span.startLine, 0))
    ensures ValidPos(lines, Position(span.endLine - 2, |lines[span.endLine - 2]|))
    ensures TextRange(lines, Position(span.startLine, 0), Position(span.endLine - 2, |lines[span.endLine - 2]|))
            == Join(lines[span.startLine..span.endLine - 1])
  {
    var s, e := span.startLine, span.endLine - 2;
    RegionLayout(lines, s, e);
    Layout(lines, e);
  }

  /** Stepping over change `i` moves it from the old side of the rest of
      the script to the new side of what is done. */
  lemma ScriptStep(changes: seq<Change>, i: nat, prefix: string, suffix: string)
    requires i < |changes|
    ensures OldSide(changes[i..]) + suffix == OldPart(changes[i]) + (OldSide(changes[i + 1..]) + suffix)
    ensures prefix + NewSide(changes[..i + 1]) == (prefix + NewSide(changes[..i])) + NewPart(changes[i])
  {
    assert changes[i..][1..] == changes[i + 1..];
    assert changes[..i + 1][..i] == changes[..i];
  }

  /** Removing `v` between the ends of `done` and `done + v` leaves
      `done + rest`. */
  lemma RemoveStep(lines: seq<string>, done: string, v: string, rest: string)
    requires WellFormed(lines) && Join(lines) == done + (v + rest)
    ensures ValidPos(lines, EndPos(done)) && ValidPos(lines, EndPos(done + v))
    ensures PosLe(EndPos(done), EndPos(done + v))
    ensures Join(lines)[..Offset(lines, EndPos(done))] + Join(lines)[Offset(lines, EndPos(done + v))..] == done + rest
  {
    OffsetOfPrefix(lines, done, v + rest);
    Assoc(done, v, rest);
    OffsetOfPrefix(lines, done + v, rest);
    NextPositionAfter(done, v);
  }

  /** Inserting `v` at the end of `done` gives `done + v + rest`. */
  lemma InsertStep(lines: seq<string>, done: string, v: string, rest: string)
    requires WellFormed(lines) && Join(lines) == done + rest
    ensures ValidPos(lines, EndPos(done))
    ensures Join(lines)[..Offset(lines, EndPos(done))] + v + Join(lines)[Offset(lines, EndPos(done))..] == done + v + rest
  {
    OffsetOfPrefix(lines, done, rest);
  }

  /** One turn of the replay loop: a removed segment is deleted ahead of
      the cursor, an added one is inserted at the cursor and stepped over, a
      kept one is stepped over. The change's old part after `done` becomes
      its new part, and the cursor stays at the end of what is done. */
  method ReplayChange(buf: Buffer, c: Change, cursor: Position, ghost done: string, ghost rest: string)
    returns (next: Position)
    requires buf.Valid() && buf.Text() == done + (OldPart(c) + rest) && cursor == EndPos(done)
    modifies buf
    ensures buf.Valid()
    ensures buf.Text() == (done + NewPart(c)) + rest
    ensures next == EndPos(done + NewPart(c))
    ensures c.Kept? ==> buf.lines == old(buf.lines)
    ensures c.Removed? ==> next == cursor
    ensures !c.Removed? ==> next == NextPosition(cursor, c.value)
  {
    NextPositionAfter(done, c.value);
    match c
    case Removed(v) =>
      RemoveStep(buf.lines, done, v, rest);
      var end := NextPosition(cursor, v);
      buf.Remove(cursor, end);
      next := cursor;
      assert done + "" == done;
    case Added(v) =>
      assert "" + rest == rest;
      InsertStep(buf.lines, done, v, rest);
      buf.Insert(cursor, v);
      next := NextPosition(cursor, v);
    case Kept(v) =>
      next := NextPosition(cursor, v);
      Assoc(done, v, rest);
  }

  /** Replays `changes` on the session from `anchor`, one change at a time.
      Where the session holds the script's old side right after `prefix`,
      and `anchor` is where `prefix` ends, it will hold the script's new
      side there instead, and the cursor ends just after it. */
  method ReplayChanges(buf: Buffer, changes: seq<Change>, anchor: Position, ghost prefix: string, ghost suffix: string)
    returns (cursor: Position)
    requires buf.Valid() && buf.Text() == prefix + (OldSide(changes) + suffix)
    requires ValidPos(buf.lines, anchor) && Offset(buf.lines, anchor) == |prefix|
    modifies buf
    ensures buf.Valid()
    ensures buf.Text() == prefix + NewSide(changes) + suffix
    ensures ValidPos(buf.lines, cursor)
    ensures Offset(buf.lines, cursor) == |prefix| + |NewSide(changes)|
  {
    AnchorEndsPrefix(buf.lines, anchor, prefix, OldSide(changes) + suffix);
    assert changes[..0] == [] && changes[0..] == changes;
    cursor := anchor;
    ghost var done, todo := prefix, OldSide(changes) + suffix;
    assert done == prefix + NewSide(changes[..0]);
    for i := 0 to |changes|
      invariant buf.Valid()
      invariant done == prefix + NewSide(changes[..i])
      invariant todo == OldSide(changes[i..]) + suffix
      invariant buf.Text() == done + todo
      invariant cursor == EndPos(done)
    {
      ghost var rest := OldSide(changes[i + 1..]) + suffix;
      ScriptStep(changes, i, prefix, suffix);
      cursor := ReplayChange(buf, changes[i], cursor, done, rest);
      done, todo := done + NewPart(changes[i]), rest;
    }
    assert changes[..|changes|] == changes && changes[|changes|..] == [];
    assert todo == suffix;
    OffsetOfPrefix(buf.lines, done, suffix);
  }

  /** A position whose offset is the length of a prefix of the text is
      where that prefix ends. */
  lemma AnchorEndsPrefix(lines: seq<string>, anchor: Position, prefix: string, rest: string)
    requires WellFormed(lines) && Join(lines) == prefix + rest
    requires ValidPos(lines, anchor) && Offset(lines, anchor) == |prefix|
    ensures anchor == EndPos(prefix)
  {
    CutAtJoint(prefix, rest);
    EndPosAtOffset(lines, anchor);
  }

  /** `handleAppEdit(newText, appContext)`, with `newText` as it is after
      indentation and `changes` as the character diff of the old region
      text against it. The rows of the node's body are replaced by the
      rows of the new text; the rows above and below stay as they were. */
  method HandleAppEdit(buf: Buffer, newText: string, appContext: AppContext, changes: seq<Change>)
    requires buf.Valid() && SpanInBuffer(appContext.position, |buf.lines|)
    requires var span := appContext.position;
             !IsOldTextEmpty(span) ==>
               OldSide(changes) == Join(buf.lines[span.startLine..span.endLine - 1]) &&
               NewSide(changes) == newText
    modifies buf
    ensures buf.Valid()
    ensures var span := appContext.position;
            !IsOldTextEmpty(span) ==>
              buf.lines == old(buf.lines[..span.startLine]) + Split(newText) + old(buf.lines[span.endLine - 1..])
    ensures var span := appContext.position;
            IsOldTextEmpty(span) ==>
              buf.lines == old(buf.lines[..span.endLine - 1]) + Split(newText) + old(buf.lines[span.endLine - 1..])
    ensures var span := appContext.position;
            Join(buf.lines[span.startLine..span.startLine + |Split(newText)|]) == newText
  {
    var span := appContext.position;
    var isOldTextEmpty := IsOldTextEmpty(span);
    if !isOldTextEmpty {
      ReplaceBody(buf, span.startLine, span.endLine - 2, newText, changes);
    } else {
      InsertBody(buf, span.endLine - 1, newText);
    }
    assert buf.lines[span.startLine..span.startLine + |Split(newText)|] == Split(newText);
    JoinSplit(newText);
  }

  /** A non-empty body on rows `s..e`: its text, from the start of row `s`
      to the end of row `e`, is rewritten by the script into `newText`. */
  method ReplaceBody(buf: Buffer, s: nat, e: nat, newText: string, changes: seq<Change>)
    requires buf.Valid() && s <= e < |buf.lines|
    requires OldSide(changes) == Join(buf.lines[s..e + 1]) && NewSide(changes) == newText
    modifies buf
    ensures buf.Valid()
    ensures buf.lines == old(buf.lines[..s]) + Split(newText) + old(buf.lines[e + 1..])
  {
    ghost var was := buf.lines;
    var lastLine := buf.GetLine(e);
    var rangeStart, rangeEnd := Position(s, 0), Position(e, |lastLine|);
    OldRegionText(buf.lines, NodeSpan(s, e + 2));
    var oldText := buf.GetTextRange(rangeStart, rangeEnd);
    assert OldSide(changes) == oldText;
    RegionBounds(was, s, e);
    var cursor := ReplayChanges(buf, changes, rangeStart, Before(was, s), After(was, e));
    ReplacedRows(was, s, e, newText);
    SameTextSameLines(buf.lines, was[..s] + Split(newText) + was[e + 1..]);
  }

  /** An empty body: a newline goes at the start of the closing row `r`,
      then `newText` goes in front of it. */
  method InsertBody(buf: Buffer, r: nat, newText: string)
    requires buf.Valid() && r < |buf.lines|
    modifies buf
    ensures buf.Valid()
    ensures buf.lines == old(buf.lines[..r]) + Split(newText) + old(buf.lines[r..])
  {
    ghost var was := buf.lines;
    ghost var before, tail := Before(was, r), "\n" + was[r] + After(was, r);
    var position := Position(r, 0);
    EmptyBodyBounds(was, r);
    buf.Insert(position, "\n");
    OffsetOfPrefix(buf.lines, before, tail);
    CutAtJoint(before, tail);
    buf.Insert(position, newText);
    InsertedRows(was, r, newText);
    SameTextSameLines(buf.lines, was[..r] + Split(newText) + was[r..]);
  }

  /** Where the old region of a non-empty body sits in the text. */
  lemma RegionBounds(lines: seq<string>, s: nat, e: nat)
    requires WellFormed(lines) && s <= e < |lines|
    ensures ValidPos(lines, Position(s, 0)) && Offset(lines, Position(s, 0)) == |Before(lines, s)|
    ensures Join(lines) == Before(lines, s) + (Join(lines[s..e + 1]) + After(lines, e))
  {
    RegionLayout(lines, s, e);
    Assoc(Before(lines, s), Join(lines[s..e + 1]), After(lines, e));
  }

  /** Where the empty body's insertion point sits in the text, and the text
      after a newline went there. */
  lemma EmptyBodyBounds(lines: seq<string>, r: nat)
    requires WellFormed(lines) && r < |lines|
    ensures ValidPos(lines, Position(r, 0))
    ensures Join(lines)[..Offset(lines, Position(r, 0))] + "\n" + Join(lines)[Offset(lines, Position(r, 0))..]
            == Before(lines, r) + ("\n" + lines[r] + After(lines, r))
    ensures EndPos(Before(lines, r)) == Position(r, 0)
  {
    var p := Position(r, 0);
    OffsetSplitsText(lines, p);
    assert lines[r][..0] == "" && lines[r][0..] == lines[r];
    assert Join(lines)[..Offset(lines, p)] == Before(lines, r);
    assert Join(lines)[Offset(lines, p)..] == lines[r] + After(lines, r);
    Regroup(Before(lines, r), "\n", lines[r], After(lines, r));
    SplitBefore(lines, r);
  }

  /** Replacing rows `s..e` with the pieces of `x` in the text. */
  lemma ReplacedRows(lines: seq<string>, s: nat, e: nat, x: string)
    requires WellFormed(lines) && s <= e < |lines|
    ensures WellFormed(lines[..s] + Split(x) + lines[e + 1..])
    ensures Join(lines[..s] + Split(x) + lines[e + 1..]) == Before(lines, s) + x + After(lines, e)
  {
    SpliceWellFormed(lines, s, e, Split(x));
    Splice(lines, s, e, Split(x));
    JoinSplit(x);
  }

  /** Putting the pieces of `x` right before row `r` in the text. */
  lemma InsertedRows(lines: seq<string>, r: nat, x: string)
    requires WellFormed(lines) && r < |lines|
    ensures WellFormed(lines[..r] + Split(x) + lines[r..])
    ensures Join(lines[..r] + Split(x) + lines[r..]) == Before(lines, r) + x + ("\n" + lines[r] + After(lines, r))
  {
    var m := Split(x) + [lines[r]];
    assert lines[..r] + Split(x) + lines[r..] == lines[..r] + m + lines[r + 1..];
    assert NoNewlines(m) by {
      assert forall i :: 0 <= i < |Split(x)| ==> m[i] == Split(x)[i];
    }
    SpliceWellFormed(lines, r, r, m);
    Splice(lines, r, r, m);
    JoinAppend(Split(x), [lines[r]]);
    JoinSplit(x);
    assert Join([lines[r]]) == lines[r];
    Regroup5(Before(lines, r), x, "\n", lines[r], After(lines, r));
  }

  /** Writing back the text a body already holds leaves every row as it
      was: an application that re-emits its own text changes nothing. */
  lemma RewriteSameText(lines: seq<string>, s: nat, e: nat)
    requires WellFormed(lines) && s <= e < |lines|
    ensures lines[..s] + Split(Join(lines[s..e + 1])) + lines[e + 1..] == lines
  {
    var body := lines[s..e + 1];
    assert NoNewlines(body) by {
      assert forall i :: 0 <= i < |body| ==> body[i] == lines[s + i];
    }
    SplitJoin(body);
    assert lines[..s] + body + lines[e + 1..] == lines;
  }
}
