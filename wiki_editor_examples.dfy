/** A worked instance of the reconciler on a concrete session. */
module WikiEditorExamples {
  import opened LineText
  import opened SessionBuffer
  import opened WikiEditorAce

  /** A node on rows 0 and 1 with nothing between its delimiters: the new
      text becomes a row of its own just above the closing delimiter. */
  method EmptyBodyExample() returns (result: seq<string>)
    ensures result == ["A", "X", "B"]
  {
    var rows := ["A", "B"];
    assert Join(rows) == "A\nB" by {
      assert rows[1..] == ["B"];
    }
    var buf := new Buffer("A\nB");
    assert NoNewlines(rows) by {
      assert "A"[0] == 'A' && "B"[0] == 'B';
    }
    SameTextSameLines(buf.lines, rows);
    HandleAppEdit(buf, "X", AppContext(NodeSpan(1, 2)), []);
    assert "X"[0] == 'X';
    SplitOfLine("X");
    result := buf.lines;
  }
}
