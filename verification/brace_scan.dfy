/**
 * The receiving side of old/client.py: the bytes from the server are appended to a buffer,
 * and the buffer is scanned for JSON objects by counting braces. Anything before an
 * opening brace is dropped, a block is taken once its braces balance, and an unbalanced
 * tail is kept until more data arrives. Each block that decodes replaces the game state the
 * client draws. `Drain` and `Receive` drop a block that does not decode and nothing else;
 * `ScanAsWritten` is the loop as old/client.py writes it, which cuts the buffer a second
 * time after such a block.
 */
module BraceScan {
  import opened Wrappers

  /** The change in nesting that one character makes. */
  function Delta(ch: char): int
  {
    if ch == '{' then 1 else if ch == '}' then -1 else 0
  }

  /** Opening braces minus closing braces in `s`. */
  function Depth(s: string): int
    decreases |s|
  {
    if |s| == 0 then 0 else Depth(s[..|s| - 1]) + Delta(s[|s| - 1])
  }

  /** The nesting after the first `k` characters of `t`. */
  function DepthAt(t: string, k: nat): int
    requires k <= |t|
  {
    Depth(t[..k])
  }

  /** Every non-empty prefix of `t` up to length `n` is still open. */
  ghost predicate OpenUpTo(t: string, n: nat)
    requires n <= |t|
  {
    forall k :: 0 < k <= n ==> DepthAt(t, k) > 0
  }

  /** The brace at `e` is the first one that brings the nesting of `t` back to zero. */
  ghost predicate FirstClose(t: string, e: nat)
  {
    e < |t| && t[e] == '}' && DepthAt(t, e + 1) == 0 && OpenUpTo(t, e)
  }

  /** A brace-balanced block: it opens with `{` and closes exactly at its last character. */
  ghost predicate Balanced(b: string)
  {
    |b| > 0 && b[0] == '{' && FirstClose(b, |b| - 1)
  }

  /** `buffer.find(ch)`: the first position of `ch`, or None for Python's -1. */
  function FindChar(s: string, ch: char): (r: Option<nat>)
    ensures r.Some? ==> r.value < |s| && s[r.value] == ch && ch !in s[..r.value]
    ensures r.None? <==> ch !in s
    decreases |s|
  {
    if |s| == 0 then None
    else if s[0] == ch then Some(0)
    else match FindChar(s[1..], ch)
      case None => None
      case Some(i) => Some(i + 1)
  }

  /**
   * The `for` loop that balances braces: `brace` is the count so far over `t[..i]`, and the
   * scan stops at the closing brace that brings it back to zero.
   */
  function Scan(t: string, i: nat, brace: int): (r: Option<nat>)
    requires |t| > 0 && t[0] == '{' && i <= |t|
    requires brace == DepthAt(t, i) && OpenUpTo(t, i)
    ensures r.Some? ==> i <= r.value && FirstClose(t, r.value)
    ensures r.None? ==> OpenUpTo(t, |t|)
    decreases |t| - i
  {
    if i == |t| then None
    else
      assert t[..i + 1][..i] == t[..i];
      assert DepthAt(t, i + 1) == brace + Delta(t[i]);
      var ch := t[i];
      if ch == '{' then Scan(t, i + 1, brace + 1)
      else if ch == '}' then
        if brace - 1 == 0 then Some(i) else Scan(t, i + 1, brace - 1)
      else Scan(t, i + 1, brace)
  }

  /** The position of the brace that closes the block `t` opens, if it has arrived. */
  function Close(t: string): (r: Option<nat>)
    requires |t| > 0 && t[0] == '{'
    ensures r.Some? ==> FirstClose(t, r.value)
    ensures r.None? ==> OpenUpTo(t, |t|)
  {
    Scan(t, 0, 0)
  }

  /** The blocks taken from a buffer, in order, and what is kept for the next receive. */
  datatype Drained = Drained(blocks: seq<string>, rest: string)

  /**
   * What draining leaves: balanced blocks, and a kept tail that is empty or an open block and
   * is the end of the text drained.
   */
  ghost predicate Shaped(d: Drained, text: string)
  {
    && (forall k :: 0 <= k < |d.blocks| ==> Balanced(d.blocks[k]))
    && (d.rest == "" || (d.rest[0] == '{' && OpenUpTo(d.rest, |d.rest|)))
    && |d.rest| <= |text| && d.rest == text[|text| - |d.rest|..]
  }

  /**
   * The `while True` loop over the buffer, from the first opening brace on, with every block
   * dropped after it is taken. What is kept starts at an opening brace and is no longer than
   * the buffer.
   */
  function Drain(buffer: string): (r: Drained)
    ensures r.rest == "" || r.rest[0] == '{'
    ensures |r.rest| <= |buffer|
    decreases |buffer|, 1
  {
    match FindChar(buffer, '{')
    case None => Drained([], "")
    case Some(start) => DrainOpen(buffer[start..])
  }

  /** The loop body once the buffer starts with an opening brace. */
  function DrainOpen(t: string): (r: Drained)
    requires |t| > 0 && t[0] == '{'
    ensures r.rest == "" || r.rest[0] == '{'
    ensures |r.rest| <= |t|
    ensures r.blocks == [] <==> r.rest == t
    decreases |t|, 0
  {
    match Close(t)
    case None => Drained([], t)
    case Some(e) =>
      var more := Drain(t[e + 1..]);
      Drained([t[..e + 1]] + more.blocks, more.rest)
  }

  /** The game state after the blocks: the last one that decodes wins, and failures are dropped. */
  function Latest<S>(state: Option<S>, blocks: seq<string>, decode: string -> Option<S>): Option<S>
    decreases |blocks|
  {
    if |blocks| == 0 then state
    else
      var next := decode(blocks[0]);
      Latest(if next.Some? then next else state, blocks[1..], decode)
  }

  /** What the receiving thread keeps between two `recv` calls. */
  datatype Receiver<S> = Receiver(buffer: string, state: Option<S>)

  /**
   * One `recv`: append the chunk, take every complete block, keep the open tail. What is
   * kept starts at an opening brace and is never longer than what there was to scan.
   */
  function Receive<S>(r: Receiver<S>, chunk: string, decode: string -> Option<S>): (r': Receiver<S>)
    ensures r'.buffer == "" || r'.buffer[0] == '{'
    ensures |r'.buffer| <= |r.buffer| + |chunk|
  {
    var d := Drain(r.buffer + chunk);
    Receiver(d.rest, Latest(r.state, d.blocks, decode))
  }

  /**
   * The loop as old/client.py writes it, deciding each block as soon as it is taken. What
   * is kept starts at an opening brace, and a state once reached is never lost.
   */
  function ScanAsWritten<S>(buffer: string, state: Option<S>, decode: string -> Option<S>): (r: Receiver<S>)
    ensures r.buffer == "" || r.buffer[0] == '{'
    ensures |r.buffer| <= |buffer|
    ensures state.Some? ==> r.state.Some?
    decreases |buffer|, 1
  {
    match FindChar(buffer, '{')
    case None => Receiver("", state)
    case Some(start) => ScanOpenAsWritten(buffer[start..], start, state, decode)
  }

  /**
   * The loop body as written, once the first opening brace is found at `start`; `t` is the
   * buffer from there on. The buffer is cut after the block before decoding. When decoding
   * fails it is cut again by `end + 1` characters, where `end = start + e` is the block's
   * closing position counted from the start of the buffer before the first cut, so the
   * second cut also drops that many characters of what follows the block.
   */
  function ScanOpenAsWritten<S>(t: string, start: nat, state: Option<S>, decode: string -> Option<S>): (r: Receiver<S>)
    requires |t| > 0 && t[0] == '{'
    ensures r.buffer == "" || r.buffer[0] == '{'
    ensures |r.buffer| <= |t|
    ensures state.Some? ==> r.state.Some?
    decreases |t|, 0
  {
    match Close(t)
    case None => Receiver(t, state)
    case Some(e) =>
      var cut := t[e + 1..];
      match decode(t[..e + 1])
      case Some(v) => ScanAsWritten(cut, Some(v), decode)
      case None => ScanAsWritten(DropFront(cut, start + e + 1), state, decode)
  }

  /** Python's `s[n:]`: empty once `n` passes the end. */
  function DropFront(s: string, n: nat): (r: string)
    ensures |r| <= |s|
  {
    if n <= |s| then s[n..] else ""
  }

  /** One `recv` of the loop as written. */
  function ReceiveAsWritten<S>(r: Receiver<S>, chunk: string, decode: string -> Option<S>): Receiver<S>
  {
    ScanAsWritten(r.buffer + chunk, r.state, decode)
  }

  // ------------------------------------------------------------- proofs

  /** Text before the first opening brace is skipped. */
  lemma {:induction false} FindCharSkip(x: string, y: string, ch: char)
    requires ch !in x
    ensures FindChar(y, ch).None? ==> FindChar(x + y, ch).None?
    ensures FindChar(y, ch).Some? ==> FindChar(x + y, ch) == Some(|x| + FindChar(y, ch).value)
    decreases |x|
  {
    if |x| == 0 {
      assert x + y == y;
    } else {
      var r := FindChar(x[1..] + y, ch);
      assert FindChar(x + y, ch) == if r.None? then None else Some(r.value + 1) by {
        assert (x + y)[1..] == x[1..] + y;
        assert (x + y)[0] == x[0];
      }
      FindCharSkip(x[1..], y, ch);
    }
  }

  /** The first closing point is unique. */
  lemma FirstCloseUnique(t: string, e: nat, e': nat)
    requires FirstClose(t, e) && FirstClose(t, e')
    ensures e == e'
  {
  }

  /** Data arriving after a block does not change where the block closes. */
  lemma CloseExtends(t: string, more: string)
    requires |t| > 0 && t[0] == '{'
    ensures Close(t).Some? ==> Close(t + more) == Close(t)
    ensures Close(t).None? ==> Close(t + more).None? || Close(t + more).value >= |t|
  {
    var tm := t + more;
    forall k | 0 <= k <= |t|
      ensures DepthAt(tm, k) == DepthAt(t, k)
    {
      assert tm[..k] == t[..k];
    }
    match Close(t)
    case Some(e) =>
      assert FirstClose(tm, e);
      if Close(tm).Some? {
        FirstCloseUnique(tm, e, Close(tm).value);
      }
    case None =>
  }

  /**
   * Every block taken is balanced; the tail kept is empty or an open block, and it is the
   * end of the buffer, so each pass of the loop moves forward.
   */
  lemma {:induction false} DrainShape(buffer: string)
    ensures Shaped(Drain(buffer), buffer)
    decreases |buffer|, 1
  {
    match FindChar(buffer, '{')
    case None =>
    case Some(start) =>
      var t := buffer[start..];
      assert Drain(buffer) == DrainOpen(t);
      DrainOpenShape(t);
      ShapedSuffix(DrainOpen(t), buffer, start);
  }

  lemma {:induction false} DrainOpenShape(t: string)
    requires |t| > 0 && t[0] == '{'
    ensures Shaped(DrainOpen(t), t)
    decreases |t|, 0
  {
    match Close(t)
    case None =>
      assert t[|t| - |t|..] == t;
    case Some(e) =>
      var b := t[..e + 1];
      var more := Drain(t[e + 1..]);
      assert DrainOpen(t) == Drained([b] + more.blocks, more.rest);
      BlockBalanced(t, e);
      DrainShape(t[e + 1..]);
      ShapedCons(b, more, t, e + 1);
  }

  /** What drains from the end of a text also drains from the whole text. */
  lemma ShapedSuffix(d: Drained, s: string, start: nat)
    requires start <= |s| && Shaped(d, s[start..])
    ensures Shaped(d, s)
  {
    assert s[start..][|s| - start - |d.rest|..] == s[|s| - |d.rest|..];
  }

  /** A balanced block in front of what drains from the rest of the text. */
  lemma ShapedCons(b: string, more: Drained, s: string, start: nat)
    requires start <= |s| && Balanced(b) && Shaped(more, s[start..])
    ensures Shaped(Drained([b] + more.blocks, more.rest), s)
  {
    ShapedSuffix(more, s, start);
    var blocks := [b] + more.blocks;
    assert forall k :: 0 < k < |blocks| ==> blocks[k] == more.blocks[k - 1];
  }

  /** The text up to the first closing point is a balanced block. */
  lemma BlockBalanced(t: string, e: nat)
    requires |t| > 0 && t[0] == '{' && FirstClose(t, e)
    ensures Balanced(t[..e + 1])
  {
    var b := t[..e + 1];
    forall k | 0 <= k <= e + 1
      ensures DepthAt(b, k) == DepthAt(t, k)
    {
      assert b[..k] == t[..k];
    }
  }

  /** Nothing is taken and nothing kept exactly when the buffer holds no opening brace. */
  /**
   * The first block taken runs from the first opening brace to the first point where the
   * braces balance again; the loop then goes on with what follows that point.
   */
  lemma DrainTakesFirstBlock(buffer: string, start: nat, e: nat)
    requires FindChar(buffer, '{') == Some(start)
    requires Close(buffer[start..]) == Some(e)
    ensures start + e + 1 <= |buffer|
    ensures var d := Drain(buffer);
            var next := Drain(buffer[start + e + 1..]);
            && |d.blocks| > 0 && d.blocks[0] == buffer[start..start + e + 1]
            && d.blocks[1..] == next.blocks && d.rest == next.rest
  {
    var t := buffer[start..];
    assert t[..e + 1] == buffer[start..start + e + 1];
    assert t[e + 1..] == buffer[start + e + 1..];
  }

  /** While the block at the first opening brace is open, nothing is taken and the buffer is kept from that brace on. */
  lemma DrainKeepsOpenBlock(buffer: string, start: nat)
    requires FindChar(buffer, '{') == Some(start)
    requires Close(buffer[start..]).None?
    ensures Drain(buffer) == Drained([], buffer[start..])
  {
  }

  lemma NothingTakenIffNoBrace(buffer: string)
    ensures Drain(buffer) == Drained([], "") <==> '{' !in buffer
  {
    match FindChar(buffer, '{')
    case None =>
    case Some(start) =>
      var t := buffer[start..];
      assert t[0] == '{';
      if Close(t).None? {
        assert DrainOpen(t).rest == t;
      }
  }

  /** A buffer without an opening brace is dropped whole, and text before one is dropped. */
  lemma DrainSkip(x: string, y: string)
    requires '{' !in x
    ensures Drain(x + y) == Drain(y)
  {
    FindCharSkip(x, y, '{');
    if FindChar(y, '{').Some? {
      var i := FindChar(y, '{').value;
      assert (x + y)[|x| + i..] == y[i..];
      assert Drain(x + y) == DrainOpen(y[i..]);
    } else {
      assert Drain(x + y) == Drained([], "");
    }
  }

  /**
   * Receiving in pieces takes the same blocks as receiving everything at once: draining
   * `buffer`, then draining what was kept with the data that follows, yields the blocks
   * of the whole text and keeps the same tail.
   */
  lemma {:induction false} DrainStreams(buffer: string, more: string)
    ensures var first := Drain(buffer);
            var second := Drain(first.rest + more);
            Drain(buffer + more) == Drained(first.blocks + second.blocks, second.rest)
    decreases |buffer|, 2
  {
    match FindChar(buffer, '{')
    case None =>
      assert Drain(buffer) == Drained([], "");
      var second := Drain(more);
      assert Drain(buffer + more) == second by {
        DrainSkip(buffer, more);
      }
      assert Drain("" + more) == second by {
        assert "" + more == more;
      }
      assert [] + second.blocks == second.blocks;
    case Some(start) =>
      DrainStreamsFrom(buffer, more, start);
  }

  /** `DrainStreams` once the first opening brace of the buffer is found at `start`. */
  lemma {:induction false} DrainStreamsFrom(buffer: string, more: string, start: nat)
    requires FindChar(buffer, '{') == Some(start)
    ensures var first := Drain(buffer);
            var second := Drain(first.rest + more);
            Drain(buffer + more) == Drained(first.blocks + second.blocks, second.rest)
    decreases |buffer|, 1
  {
    var t := buffer[start..];
    assert Drain(buffer + more) == DrainOpen(t + more) by {
      assert buffer + more == buffer[..start] + (t + more);
      DrainSkip(buffer[..start], t + more);
      assert (t + more)[0] == '{';
    }
    DrainOpenStreams(t, more);
  }

  lemma {:induction false} DrainOpenStreams(t: string, more: string)
    requires |t| > 0 && t[0] == '{'
    ensures var first := DrainOpen(t);
            var second := Drain(first.rest + more);
            DrainOpen(t + more) == Drained(first.blocks + second.blocks, second.rest)
    decreases |t|, 0
  {
    match Close(t)
    case None =>
      assert DrainOpen(t) == Drained([], t);
      var second := Drain(t + more);
      assert second == DrainOpen(t + more) by {
        assert (t + more)[0] == '{';
        assert FindChar(t + more, '{') == Some(0);
        assert (t + more)[0..] == t + more;
      }
      assert [] + second.blocks == second.blocks;
    case Some(e) =>
      var b := t[..e + 1];
      var after := t[e + 1..];
      var first := Drain(after);
      var second := Drain(first.rest + more);
      assert DrainOpen(t) == Drained([b] + first.blocks, first.rest);
      assert DrainOpen(t + more) == Drained([b] + Drain(after + more).blocks, Drain(after + more).rest) by {
        CloseExtends(t, more);
        DrainOpenAfterClose(t, e, more);
      }
      assert Drain(after + more) == Drained(first.blocks + second.blocks, second.rest) by {
        DrainStreams(after, more);
      }
      BlocksAssociate(b, first.blocks, second.blocks);
  }

  /**
   * Putting a block in front of two runs of blocks. Kept apart from `DrainOpenStreams`,
   * where this equation costs far more with the draining facts around it.
   */
  lemma BlocksAssociate(b: string, x: seq<string>, y: seq<string>)
    ensures [b] + (x + y) == ([b] + x) + y
  {
  }

  /** Once the block of `t` closes at `e`, the rest of `t` and what follows it are drained on. */
  lemma DrainOpenAfterClose(t: string, e: nat, more: string)
    requires |t| > 0 && t[0] == '{' && Close(t) == Some(e) && Close(t + more) == Some(e)
    ensures var next := Drain(t[e + 1..] + more);
            DrainOpen(t + more) == Drained([t[..e + 1]] + next.blocks, next.rest)
  {
    assert (t + more)[..e + 1] == t[..e + 1];
    assert (t + more)[e + 1..] == t[e + 1..] + more;
  }

  /** The messages of a stream: each block followed by the delimiter `sep`. */
  function Frame(blocks: seq<string>, sep: string): string
    decreases |blocks|
  {
    if |blocks| == 0 then "" else blocks[0] + sep + Frame(blocks[1..], sep)
  }

  /** A balanced block closes at its last character wherever it is followed by more data. */
  lemma BalancedCloses(b: string, more: string)
    requires Balanced(b)
    ensures Close(b + more) == Some(|b| - 1)
  {
    var e := Close(b);
    if e.Some? {
      FirstCloseUnique(b, e.value, |b| - 1);
    }
    CloseExtends(b, more);
  }

  /**
   * Round trip with the server's framing: a stream of balanced blocks, each followed by a
   * delimiter without an opening brace, is taken apart into exactly those blocks.
   */
  lemma {:induction false} DrainFrame(blocks: seq<string>, sep: string)
    requires forall k :: 0 <= k < |blocks| ==> Balanced(blocks[k])
    requires '{' !in sep
    ensures Drain(Frame(blocks, sep)) == Drained(blocks, "")
    decreases |blocks|
  {
    if |blocks| > 0 {
      var b := blocks[0];
      var tail := Frame(blocks[1..], sep);
      var t := b + (sep + tail);
      assert Frame(blocks, sep) == t;
      assert FindChar(t, '{') == Some(0);
      assert t[0..] == t;
      BalancedCloses(b, sep + tail);
      assert t[..|b|] == b && t[|b|..] == sep + tail;
      DrainSkip(sep, tail);
      DrainFrame(blocks[1..], sep);
      assert [b] + blocks[1..] == blocks;
    }
  }

  /** Decoding picks the last block that decodes, and keeps the old state if none does. */
  lemma {:induction false} LatestIsLastDecoded<S>(state: Option<S>, blocks: seq<string>, decode: string -> Option<S>)
    ensures (forall k :: 0 <= k < |blocks| ==> decode(blocks[k]).None?) ==> Latest(state, blocks, decode) == state
    ensures forall k :: 0 <= k < |blocks| && decode(blocks[k]).Some?
                        && (forall j :: k < j < |blocks| ==> decode(blocks[j]).None?)
                        ==> Latest(state, blocks, decode) == decode(blocks[k])
    decreases |blocks|
  {
    if |blocks| > 0 {
      var next := decode(blocks[0]);
      var s' := if next.Some? then next else state;
      LatestIsLastDecoded(s', blocks[1..], decode);
      assert forall k :: 0 < k < |blocks| ==> blocks[k] == blocks[1..][k - 1];
    }
  }

  /** Deciding block by block and deciding over the concatenation agree. */
  lemma {:induction false} LatestConcat<S>(state: Option<S>, a: seq<string>, b: seq<string>, decode: string -> Option<S>)
    ensures Latest(state, a + b, decode) == Latest(Latest(state, a, decode), b, decode)
    decreases |a|
  {
    if |a| > 0 {
      assert (a + b)[1..] == a[1..] + b;
      var next := decode(a[0]);
      LatestConcat(if next.Some? then next else state, a[1..], b, decode);
    } else {
      assert a + b == b;
    }
  }

  /** Two receives leave the client where one receive of both chunks would. */
  lemma ReceiveStreams<S>(r: Receiver<S>, c1: string, c2: string, decode: string -> Option<S>)
    ensures Receive(Receive(r, c1, decode), c2, decode) == Receive(r, c1 + c2, decode)
  {
    var first := Drain(r.buffer + c1);
    var second := Drain(first.rest + c2);
    var mid := Latest(r.state, first.blocks, decode);
    assert Receive(r, c1, decode) == Receiver(first.rest, mid);
    assert Receive(Receiver(first.rest, mid), c2, decode) == Receiver(second.rest, Latest(mid, second.blocks, decode));
    assert Drain(r.buffer + (c1 + c2)) == Drained(first.blocks + second.blocks, second.rest) by {
      DrainStreams(r.buffer + c1, c2);
      assert r.buffer + (c1 + c2) == (r.buffer + c1) + c2;
    }
    assert Latest(r.state, first.blocks + second.blocks, decode) == Latest(mid, second.blocks, decode) by {
      LatestConcat(r.state, first.blocks, second.blocks, decode);
    }
  }

  // ------------------------------------------------------------- the loop as written

  /**
   * When every block taken decodes, the loop as written and the corrected loop agree: the
   * second cut never happens, and the state is the last block decoded.
   */
  lemma {:induction false} ScanAsWrittenAllDecode<S>(buffer: string, state: Option<S>, decode: string -> Option<S>)
    requires forall k :: 0 <= k < |Drain(buffer).blocks| ==> decode(Drain(buffer).blocks[k]).Some?
    ensures ScanAsWritten(buffer, state, decode)
         == Receiver(Drain(buffer).rest, Latest(state, Drain(buffer).blocks, decode))
    decreases |buffer|, 1
  {
    match FindChar(buffer, '{')
    case None =>
    case Some(start) =>
      var t := buffer[start..];
      assert Drain(buffer) == DrainOpen(t);
      assert ScanAsWritten(buffer, state, decode) == ScanOpenAsWritten(t, start, state, decode);
      ScanOpenAllDecode(t, start, state, decode);
  }

  lemma {:induction false} ScanOpenAllDecode<S>(t: string, start: nat, state: Option<S>, decode: string -> Option<S>)
    requires |t| > 0 && t[0] == '{'
    requires forall k :: 0 <= k < |DrainOpen(t).blocks| ==> decode(DrainOpen(t).blocks[k]).Some?
    ensures ScanOpenAsWritten(t, start, state, decode)
         == Receiver(DrainOpen(t).rest, Latest(state, DrainOpen(t).blocks, decode))
    decreases |t|, 0
  {
    match Close(t)
    case None =>
    case Some(e) =>
      var b := t[..e + 1];
      var more := Drain(t[e + 1..]);
      var blocks := [b] + more.blocks;
      assert DrainOpen(t) == Drained(blocks, more.rest);
      var next := decode(b);
      assert next.Some? by {
        assert blocks[0] == b;
      }
      ScanOpenDecoded(t, start, state, decode, e);
      assert ScanAsWritten(t[e + 1..], next, decode) == Receiver(more.rest, Latest(next, more.blocks, decode)) by {
        assert forall k :: 0 <= k < |more.blocks| ==> more.blocks[k] == blocks[k + 1];
        ScanAsWrittenAllDecode(t[e + 1..], next, decode);
      }
      assert Latest(state, blocks, decode) == Latest(next, more.blocks, decode) by {
        assert blocks[1..] == more.blocks;
      }
  }

  /** A block that decodes is cut from the buffer once, and its value becomes the state. */
  lemma ScanOpenDecoded<S>(t: string, start: nat, state: Option<S>, decode: string -> Option<S>, e: nat)
    requires |t| > 0 && t[0] == '{' && Close(t) == Some(e)
    requires decode(t[..e + 1]).Some?
    ensures ScanOpenAsWritten(t, start, state, decode) == ScanAsWritten(t[e + 1..], decode(t[..e + 1]), decode)
  {
  }

  /**
   * The server's framing seen by the loop as written: a stream of balanced blocks that all
   * decode, each followed by a delimiter without an opening brace, leaves an empty buffer
   * and the last block as the state.
   */
  lemma FramedStreamAsWritten<S>(blocks: seq<string>, sep: string, state: Option<S>, decode: string -> Option<S>)
    requires forall k :: 0 <= k < |blocks| ==> Balanced(blocks[k]) && decode(blocks[k]).Some?
    requires '{' !in sep
    ensures |blocks| > 0 ==> ScanAsWritten(Frame(blocks, sep), state, decode) == Receiver("", decode(blocks[|blocks| - 1]))
    ensures |blocks| == 0 ==> ScanAsWritten(Frame(blocks, sep), state, decode) == Receiver("", state)
  {
    DrainFrame(blocks, sep);
    ScanAsWrittenAllDecode(Frame(blocks, sep), state, decode);
    LatestIsLastDecoded(state, blocks, decode);
  }

  /** A decoder under which `{"k":1}` gives 1 and every other text fails. */
  function DecodeK(s: string): Option<int>
  {
    if s == GoodBlock then Some(1) else None
  }

  /** A block that does not decode is cut from the buffer twice, and the state stays. */
  lemma ScanOpenFailed<S>(t: string, start: nat, state: Option<S>, decode: string -> Option<S>, e: nat)
    requires |t| > 0 && t[0] == '{' && Close(t) == Some(e)
    requires decode(t[..e + 1]).None?
    ensures ScanOpenAsWritten(t, start, state, decode)
         == ScanAsWritten(DropFront(t[e + 1..], start + e + 1), state, decode)
  {
  }

  /** The failing block of the counterexample. */
  const BadBlock: string := "{x}"
  /** The good block of the counterexample, which `DecodeK` reads as 1. */
  const GoodBlock: string := "{\"k\":1}"

  lemma BadBlockBalanced()
    ensures Balanced(BadBlock)
  {
    var b := BadBlock;
    assert b[..1][..0] == "" && b[..2][..1] == b[..1] && b[..3][..2] == b[..2];
    assert Depth(b[..1]) == 1 && Depth(b[..2]) == 1 && Depth(b[..3]) == 0;
    assert b[..3] == b;
  }

  lemma GoodBlockBalanced()
    ensures Balanced(GoodBlock)
  {
    var b := GoodBlock;
    assert b[..1][..0] == "";
    assert Depth(b[..1]) == 1;
    assert b[..2][..1] == b[..1];
    assert Depth(b[..2]) == 1;
    assert b[..3][..2] == b[..2];
    assert Depth(b[..3]) == 1;
    assert b[..4][..3] == b[..3];
    assert Depth(b[..4]) == 1;
    assert b[..5][..4] == b[..4];
    assert Depth(b[..5]) == 1;
    assert b[..6][..5] == b[..5];
    assert Depth(b[..6]) == 1;
    assert b[..7][..6] == b[..6];
    assert Depth(b[..7]) == 0;
    assert b[..7] == b;
  }

  /** A framed block the loop as written takes from the front of the buffer. */
  lemma ClosesAtFront(b: string, more: string)
    requires Balanced(b)
    ensures FindChar(b + more, '{') == Some(0)
    ensures (b + more)[0..] == b + more
    ensures Close(b + more) == Some(|b| - 1)
    ensures (b + more)[..|b|] == b && (b + more)[|b|..] == more
  {
    BalancedCloses(b, more);
  }

  /**
   * The second cut after a failed block swallows the block that follows it in the same
   * `recv`: one `recv` of `{x}{"k":1}` keeps no state, two `recv`s split after `{x}` reach
   * the state 1, and the corrected loop reaches 1 from the single `recv`.
   */
  lemma DoubleCutLosesNextBlock()
    ensures ReceiveAsWritten(Receiver("", None), BadBlock + GoodBlock, DecodeK) == Receiver("", None)
    ensures ReceiveAsWritten(ReceiveAsWritten(Receiver("", None), BadBlock, DecodeK), GoodBlock, DecodeK)
         == Receiver("", Some(1))
    ensures Receive(Receiver("", None), BadBlock + GoodBlock, DecodeK) == Receiver("", Some(1))
  {
    OneReceiveAsWritten();
    TwoReceivesAsWritten();
    OneReceiveCorrected();
  }

  /** As written, the second cut after `{x}` removes the opening of `{"k":1}` too. */
  lemma OneReceiveAsWritten()
    ensures ScanAsWritten("" + (BadBlock + GoodBlock), None, DecodeK) == Receiver("", None)
  {
    assert "" + (BadBlock + GoodBlock) == BadBlock + GoodBlock;
    BadBlockCutsTwice();
    LeftoverHasNoOpen();
  }

  /** After the failed `{x}`, only `":1}` of the next block is left to scan. */
  lemma BadBlockCutsTwice()
    ensures ScanAsWritten(BadBlock + GoodBlock, None, DecodeK) == ScanAsWritten("\":1}", None, DecodeK)
  {
    var x, k := BadBlock, GoodBlock;
    BadBlockBalanced();
    ClosesAtFront(x, k);
    assert DecodeK(x) == None;
    ScanOpenFailed(x + k, 0, None, DecodeK, 2);
    assert DropFront(k, 3) == "\":1}";
  }

  /** What the second cut leaves holds no `{`, so it is discarded whole. */
  lemma LeftoverHasNoOpen()
    ensures ScanAsWritten("\":1}", None, DecodeK) == Receiver("", None)
  {
    assert FindChar("\":1}", '{') == None by {
      assert '{' !in "\":1}";
    }
  }

  /** As written, `{x}` alone is dropped once, and `{"k":1}` in the next `recv` is decoded. */
  lemma TwoReceivesAsWritten()
    ensures ScanAsWritten("" + BadBlock, None, DecodeK) == Receiver("", None)
    ensures ScanAsWritten("" + GoodBlock, None, DecodeK) == Receiver("", Some(1))
  {
    var x, k := BadBlock, GoodBlock;
    assert "" + x == x && "" + k == k;
    assert ScanAsWritten(x, None, DecodeK) == Receiver("", None) by {
      BadBlockBalanced();
      ClosesAtFront(x, "");
      assert x + "" == x;
      assert DecodeK(x) == None;
      ScanOpenFailed(x, 0, None, DecodeK, 2);
    }
    assert ScanAsWritten(k, None, DecodeK) == Receiver("", Some(1)) by {
      GoodBlockBalanced();
      ClosesAtFront(k, "");
      assert k + "" == k;
      ScanOpenDecoded(k, 0, None, DecodeK, 6);
    }
  }

  /** The corrected loop takes both blocks from the one `recv` and shows 1. */
  lemma OneReceiveCorrected()
    ensures Receive(Receiver("", None), BadBlock + GoodBlock, DecodeK) == Receiver("", Some(1))
  {
    var x, k := BadBlock, GoodBlock;
    assert "" + (x + k) == x + k;
    assert Drain(x + k) == Drained([x, k], "") by {
      BadBlockBalanced();
      GoodBlockBalanced();
      DrainFrame([x, k], "");
      assert Frame([x, k], "") == x + k by {
        assert Frame([k], "") == k + "" + Frame([], "");
        assert [x, k][1..] == [k];
      }
    }
    assert Latest(None, [x, k], DecodeK) == Some(1) by {
      assert DecodeK(x) == None && DecodeK(k) == Some(1);
      assert [x, k][1..] == [k];
      assert Latest(None, [k], DecodeK) == Latest(Some(1), [], DecodeK);
    }
  }
}
