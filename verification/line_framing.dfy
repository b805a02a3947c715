/**
 * `get_lines` of server.py and old/server.py: a generator that turns the chunks returned by
 * successive `recv` calls into lines. Chunks are taken as already-decoded strings; the end
 * of the sequence is the end of the stream. The delimiter is a parameter: server.py splits
 * at the newline character, old/server.py at the two characters backslash and `n`.
 */
module LineFraming {
  import opened Text

  /** The delimiter of server.py. */
  const Newline: string := "\n"
  /** The delimiter of old/server.py, which old/client.py also writes after each message. */
  const EscapedNewline: string := "\\n"

  /** The lines yielded while handling one chunk, and the line carried over to the next. */
  datatype Fed = Fed(lines: seq<string>, pending: string)

  /**
   * The loop over the pieces of one chunk: every piece but the last completes a line (the
   * first one completes the carried line), and the last piece is appended to what is carried.
   */
  function EmitPieces(current: string, parts: seq<string>): (r: Fed)
    requires |parts| >= 1
    ensures r.lines + [r.pending] == [current + parts[0]] + parts[1..]
    decreases |parts|
  {
    if |parts| == 1 then Fed([], current + parts[0])
    else
      var rest := EmitPieces("", parts[1..]);
      assert rest.lines + [rest.pending] == parts[1..] by {
        assert "" + parts[1] == parts[1];
        assert parts[1..] == [parts[1]] + parts[2..];
      }
      Fed([current + parts[0]] + rest.lines, rest.pending)
  }

  /** Handling one received chunk. */
  function Feed(current: string, chunk: string, d: string): Fed
    requires |d| > 0
  {
    EmitPieces(current, Split(chunk, d))
  }

  /** The lines yielded from the point where `current` is carried and `chunks` remain to be received. */
  function LinesFrom(current: string, chunks: seq<string>, d: string): seq<string>
    requires |d| > 0
    decreases |chunks|
  {
    if |chunks| == 0 then (if current != "" then [current] else [])
    else
      var f := Feed(current, chunks[0], d);
      f.lines + LinesFrom(f.pending, chunks[1..], d)
  }

  /**
   * Every line the generator yields over a whole stream, in order. With a one-character
   * delimiter these are the lines of the concatenated stream.
   */
  function GetLines(chunks: seq<string>, d: string): (r: seq<string>)
    requires |d| > 0
    ensures |d| == 1 ==> r == LinesOf(Concat(chunks), d)
  {
    if |d| == 1 then
      LinesFromIsLinesOf("", chunks, d[0]);
      assert d == [d[0]] && "" + Concat(chunks) == Concat(chunks);
      LinesFrom("", chunks, d)
    else LinesFrom("", chunks, d)
  }

  /**
   * The lines of a whole text, independent of how it arrived: the pieces between
   * delimiters, where the piece after the last delimiter counts only if it is non-empty.
   */
  function LinesOf(text: string, d: string): seq<string>
    requires |d| > 0
  {
    var parts := Split(text, d);
    parts[..|parts| - 1] + (if Last(parts) != "" then [Last(parts)] else [])
  }

  // ------------------------------------------------------------- proofs

  /** With a one-character delimiter, the lines and the carried line of a chunk are the pieces of the text so far. */
  lemma FeedPieces(current: string, chunk: string, c: char)
    requires c !in current
    ensures var f := Feed(current, chunk, [c]);
            f.lines + [f.pending] == Split(current + chunk, [c])
  {
    SplitFree(current, c);
    SplitConcat(current, chunk, c);
    assert [current][..0] == [] && Last([current]) == current;
  }

  /** The line carried between chunks never contains a one-character delimiter. */
  lemma PendingIsDelimiterFree(current: string, chunk: string, c: char)
    requires c !in current
    ensures c !in Feed(current, chunk, [c]).pending
    ensures forall k :: 0 <= k < |Feed(current, chunk, [c]).lines| ==> c !in Feed(current, chunk, [c]).lines[k]
  {
    var f := Feed(current, chunk, [c]);
    FeedPieces(current, chunk, c);
    SplitPiecesFree(current + chunk, c);
    var parts := f.lines + [f.pending];
    assert f.pending == parts[|parts| - 1];
    assert forall k :: 0 <= k < |f.lines| ==> f.lines[k] == parts[k];
  }

  /** Pieces in front of the rest carry over unchanged into the lines. */
  lemma LinesOfPrefix(x: string, y: string, front: seq<string>, d: string)
    requires |d| > 0
    requires Split(x, d) == front + Split(y, d)
    ensures LinesOf(x, d) == front + LinesOf(y, d)
  {
    var q := Split(y, d);
    var parts := front + q;
    assert parts[..|parts| - 1] == front + q[..|q| - 1];
    assert Last(parts) == Last(q);
  }

  /** The streaming generator yields the lines of everything received, for a one-character delimiter. */
  lemma {:induction false} LinesFromIsLinesOf(current: string, chunks: seq<string>, c: char)
    requires c !in current
    ensures LinesFrom(current, chunks, [c]) == LinesOf(current + Concat(chunks), [c])
    decreases |chunks|
  {
    if |chunks| == 0 {
      assert current + Concat(chunks) == current;
      SplitFree(current, c);
    } else {
      var chunk := chunks[0];
      var rest := Concat(chunks[1..]);
      var f := Feed(current, chunk, [c]);
      PendingIsDelimiterFree(current, chunk, c);
      LinesFromIsLinesOf(f.pending, chunks[1..], c);
      assert current + Concat(chunks) == (current + chunk) + rest;
      FeedPieces(current, chunk, c);
      SplitAppend(current + chunk, rest, f.lines, f.pending, c);
      LinesOfPrefix((current + chunk) + rest, f.pending + rest, f.lines, [c]);
    }
  }

  /** How the stream is cut into chunks does not matter, for a one-character delimiter. */
  lemma ChunkIndependence(a: seq<string>, b: seq<string>, c: char)
    requires Concat(a) == Concat(b)
    ensures GetLines(a, [c]) == GetLines(b, [c])
  {
  }

  /** No yielded line contains a one-character delimiter. */
  lemma LinesAreDelimiterFree(chunks: seq<string>, c: char)
    ensures forall k :: 0 <= k < |GetLines(chunks, [c])| ==> c !in GetLines(chunks, [c])[k]
  {
    var parts := Split(Concat(chunks), [c]);
    SplitPiecesFree(Concat(chunks), c);
    var lines := GetLines(chunks, [c]);
    assert forall k :: 0 <= k < |lines| ==> lines[k] == parts[k];
  }

  /** A text that is empty or ends with the delimiter has an empty last piece, and only then. */
  lemma LastPiece(text: string, c: char)
    ensures (Last(Split(text, [c])) == "") <==> (text == "" || text[|text| - 1] == c)
  {
    if |text| == 0 {
      assert Split(text, [c]) == [""];
    } else {
      var init := text[..|text| - 1];
      assert text == init + [text[|text| - 1]];
      LastPieceSnoc(init, text[|text| - 1], c);
    }
  }

  /** The last piece is empty after a final delimiter, and non-empty after any other character. */
  lemma LastPieceSnoc(init: string, x: char, c: char)
    ensures (Last(Split(init + [x], [c])) == "") <==> x == c
  {
    var pi := Split(init, [c]);
    SplitSnoc(init, x, c);
    if x != c {
      assert Last(Split(init + [x], [c])) == Last(pi) + [x];
    }
  }

  /**
   * Joining the yielded lines with the delimiter gives back everything received, except
   * that a final delimiter is not reproduced.
   */
  lemma JoinRestoresText(chunks: seq<string>, c: char)
    ensures var text := Concat(chunks);
            var joined := Join(GetLines(chunks, [c]), [c]);
            if text != "" && text[|text| - 1] == c then joined + [c] == text else joined == text
  {
    JoinLinesOf(Concat(chunks), c);
  }

  /** `JoinRestoresText` for the text as a whole. */
  lemma JoinLinesOf(text: string, c: char)
    ensures var joined := Join(LinesOf(text, [c]), [c]);
            if text != "" && text[|text| - 1] == c then joined + [c] == text else joined == text
  {
    var parts := Split(text, [c]);
    var lines := LinesOf(text, [c]);
    assert Join(parts, [c]) == text by {
      JoinSplit(text, [c]);
    }
    assert Last(parts) == "" <==> (text == "" || text[|text| - 1] == c) by {
      LastPiece(text, c);
    }
    if Last(parts) != "" {
      assert lines == parts;
    } else if |parts| == 1 {
      assert parts == [""];
    } else {
      assert lines == parts[..|parts| - 1];
      assert parts == lines + [""];
      assert Join(parts, [c]) == Join(lines, [c]) + [c] + "" by {
        JoinSnoc(lines, "", [c]);
      }
    }
  }

  /** Two delimiters in a row yield an empty line. */
  lemma DoubleDelimiterYieldsEmptyLine(chunks: seq<string>, c: char, before: string, after: string)
    requires Concat(chunks) == before + [c, c] + after
    ensures "" in GetLines(chunks, [c])
  {
    LinesOfDoubleDelimiter(before, after, c);
  }

  /** `DoubleDelimiterYieldsEmptyLine` for the text as a whole. */
  lemma LinesOfDoubleDelimiter(before: string, after: string, c: char)
    ensures "" in LinesOf(before + [c, c] + after, [c])
  {
    var pb := Split(before, [c]);
    var front := pb + [""];
    assert Split(before + [c], [c]) == front by {
      SplitSnoc(before, c, c);
    }
    assert Split(before + [c, c], [c]) == front + [""] by {
      assert before + [c, c] == (before + [c]) + [c];
      SplitSnoc(before + [c], c, c);
    }
    var parts := Split(before + [c, c] + after, [c]);
    assert parts == front + Split("" + after, [c]) by {
      SplitAppend(before + [c, c], after, front, "", c);
    }
    assert parts[..|parts| - 1][|pb|] == "";
  }

  /**
   * A final piece that no delimiter ends is yielded once, as the last line, and only if it
   * is non-empty; everything before it is yielded as the lines it completes.
   */
  lemma UnterminatedTail(chunks: seq<string>, c: char, body: string, tail: string)
    requires Concat(chunks) == body + tail
    requires c !in tail
    requires body == "" || body[|body| - 1] == c
    ensures GetLines(chunks, [c]) == LinesOf(body, [c]) + (if tail != "" then [tail] else [])
    ensures c !in body ==> LinesOf(body, [c]) == []
  {
    LinesOfUnterminated(body, tail, c);
  }

  /** `UnterminatedTail` for the text as a whole. */
  lemma LinesOfUnterminated(body: string, tail: string, c: char)
    requires c !in tail
    requires body == "" || body[|body| - 1] == c
    ensures LinesOf(body + tail, [c]) == LinesOf(body, [c]) + (if tail != "" then [tail] else [])
    ensures c !in body ==> LinesOf(body, [c]) == []
  {
    var pb := Split(body, [c]);
    assert Last(pb) == "" by {
      LastPiece(body, c);
    }
    assert Split(body + tail, [c]) == pb[..|pb| - 1] + [tail] by {
      SplitFree(tail, c);
      SplitConcat(body, tail, c);
      assert Last(pb) + tail == tail;
    }
    var front := pb[..|pb| - 1];
    var parts := front + [tail];
    assert parts[..|parts| - 1] == front && Last(parts) == tail;
    assert LinesOf(body, [c]) == front + [];
    if c !in body {
      SplitFree(body, c);
    }
  }

  /** The two messages `a` and `b` with the escaped delimiter between them, received in one chunk. */
  lemma OneChunkSplits()
    ensures GetLines([['a', '\\', 'n', 'b']], EscapedNewline) == ["a", "b"]
  {
    var d := EscapedNewline;
    var whole: string := ['a', '\\', 'n', 'b'];
    var afterA: string := ['\\', 'n', 'b'];
    assert Split(afterA, d) == ["", "b"] by {
      assert afterA[..2] == d && afterA[2..] == "b";
      assert Split("b", d) == ["b"];
    }
    assert Split(whole, d) == ["a", "b"] by {
      assert whole[..2] != d by {
        assert whole[..2][0] == 'a';
      }
      assert whole[1..] == afterA;
      assert ['a'] + "" == "a";
    }
    assert Feed("", whole, d) == Fed(["a"], "b") by {
      assert "" + "a" == "a" && "" + "b" == "b";
      assert EmitPieces("", ["b"]) == Fed([], "b");
      assert ["a", "b"][1..] == ["b"];
    }
    assert [whole][1..] == [];
  }

  /** The same text received as two chunks, cut inside the delimiter. */
  lemma TwoChunksDoNotSplit()
    ensures GetLines([['a', '\\'], ['n', 'b']], EscapedNewline) == [['a', '\\', 'n', 'b']]
  {
    var d := EscapedNewline;
    var first: string := ['a', '\\'];
    var second: string := ['n', 'b'];
    assert Feed("", first, d) == Fed([], first) by {
      assert first[..2] != d by {
        assert first[..2][0] == 'a';
      }
      assert first[1..] == ['\\'];
      assert Split(first, d) == [['a'] + ['\\']];
      assert "" + first == first;
    }
    assert Feed(first, second, d) == Fed([], first + second) by {
      assert second[..2] != d by {
        assert second[..2][0] == 'n';
      }
      assert second[1..] == "b";
      assert Split(second, d) == [['n'] + "b"];
    }
    var chunks := [first, second];
    assert chunks[1..] == [second] && [second][1..] == [];
    assert first + second == ['a', '\\', 'n', 'b'];
  }

  /**
   * With the two-character delimiter of old/server.py, the lines depend on where the stream
   * is cut: a delimiter split across two chunks is not recognised, so two messages arrive
   * as one line, and that line contains the delimiter.
   */
  lemma EscapedNewlineDependsOnChunking()
    ensures GetLines(["a\\nb"], EscapedNewline) == ["a", "b"]
    ensures GetLines(["a\\", "nb"], EscapedNewline) == ["a\\nb"]
    ensures Concat(["a\\nb"]) == Concat(["a\\", "nb"])
  {
    OneChunkSplits();
    TwoChunksDoNotSplit();
    assert Concat(["nb"]) == "nb" + "";
    assert Concat(["a\\", "nb"]) == "a\\" + Concat(["nb"]);
    assert Concat(["a\\nb"]) == "a\\nb" + "";
  }
}
