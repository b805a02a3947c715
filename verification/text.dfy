/**
 * The string operations the framers rely on, with Python's meaning: `split` cuts at every
 * non-overlapping occurrence of the separator, leftmost first, and joining the pieces
 * with the separator gives the text back.
 */
module Text {

  /**
   * `s.split(d)`: scanning from the left, an occurrence of `d` ends the current piece and
   * is skipped; any other character extends it. There is always at least one piece.
   */
  function Split(s: string, d: string): (parts: seq<string>)
    requires |d| > 0
    ensures |parts| >= 1
    decreases |s|
  {
    if |s| < |d| then [s]
    else if s[..|d|] == d then [""] + Split(s[|d|..], d)
    else
      var rest := Split(s[1..], d);
      [[s[0]] + rest[0]] + rest[1..]
  }

  /** `d.join(parts)`. */
  function Join(parts: seq<string>, d: string): string
    decreases |parts|
  {
    if |parts| == 0 then ""
    else if |parts| == 1 then parts[0]
    else parts[0] + d + Join(parts[1..], d)
  }

  /** The text of a sequence of chunks, one after the other. */
  function Concat(chunks: seq<string>): string
    decreases |chunks|
  {
    if |chunks| == 0 then "" else chunks[0] + Concat(chunks[1..])
  }

  function Last<T>(xs: seq<T>): T
    requires |xs| > 0
  {
    xs[|xs| - 1]
  }

  /** A join starts with its first piece and ends with its last, the separator only between them. */
  lemma {:induction false} JoinEnds(parts: seq<string>, d: string)
    requires |parts| > 0
    ensures var r := Join(parts, d);
            && parts[0] <= r
            && |Last(parts)| <= |r| && r[|r| - |Last(parts)|..] == Last(parts)
    decreases |parts|
  {
    if |parts| > 1 {
      var rest := Join(parts[1..], d);
      JoinEnds(parts[1..], d);
      assert Last(parts[1..]) == Last(parts);
      var r := parts[0] + d + rest;
      assert r[|r| - |Last(parts)|..] == rest[|rest| - |Last(parts)|..];
    }
  }

  /** Extending the first piece extends the join by the same character. */
  lemma JoinExtendFirst(x: char, parts: seq<string>, d: string)
    requires |parts| > 0
    ensures Join([[x] + parts[0]] + parts[1..], d) == [x] + Join(parts, d)
  {
    var ext := [[x] + parts[0]] + parts[1..];
    assert ext[1..] == parts[1..];
  }

  /** Joining the pieces of a split gives the text back, for any non-empty separator. */
  lemma {:induction false} JoinSplit(s: string, d: string)
    requires |d| > 0
    ensures Join(Split(s, d), d) == s
    decreases |s|
  {
    if |s| < |d| {
    } else if s[..|d|] == d {
      var rest := Split(s[|d|..], d);
      assert Split(s, d) == [""] + rest;
      assert Join([""] + rest, d) == "" + d + Join(rest, d) by {
        assert ([""] + rest)[1..] == rest;
      }
      assert Join(rest, d) == s[|d|..] by {
        JoinSplit(s[|d|..], d);
      }
      assert s == s[..|d|] + s[|d|..];
    } else {
      var rest := Split(s[1..], d);
      assert Split(s, d) == [[s[0]] + rest[0]] + rest[1..];
      assert Join([[s[0]] + rest[0]] + rest[1..], d) == [s[0]] + Join(rest, d) by {
        JoinExtendFirst(s[0], rest, d);
      }
      assert Join(rest, d) == s[1..] by {
        JoinSplit(s[1..], d);
      }
      assert s == [s[0]] + s[1..];
    }
  }

  lemma {:induction false} JoinSnoc(parts: seq<string>, p: string, d: string)
    requires |parts| > 0
    ensures Join(parts + [p], d) == Join(parts, d) + d + p
    decreases |parts|
  {
    if |parts| == 1 {
      assert (parts + [p])[1..] == [p];
    } else {
      assert (parts + [p])[1..] == parts[1..] + [p];
      JoinSnoc(parts[1..], p, d);
    }
  }

  lemma {:induction false} ConcatSnoc(chunks: seq<string>, c: string)
    ensures Concat(chunks + [c]) == Concat(chunks) + c
    decreases |chunks|
  {
    if |chunks| > 0 {
      assert (chunks + [c])[1..] == chunks[1..] + [c];
      ConcatSnoc(chunks[1..], c);
    }
  }

  // ------------------------------------------------ one-character separators

  /** The two steps of a split at a one-character separator. */
  lemma SplitCons(x: char, s: string, c: char)
    ensures x == c ==> Split([x] + s, [c]) == [""] + Split(s, [c])
    ensures x != c ==> Split([x] + s, [c]) == [[x] + Split(s, [c])[0]] + Split(s, [c])[1..]
  {
    var t := [x] + s;
    assert t[..1] == [x] && t[1..] == s && t[0] == x;
  }

  /** No piece of a split contains a one-character separator. */
  lemma {:induction false} SplitPiecesFree(s: string, c: char)
    ensures forall k :: 0 <= k < |Split(s, [c])| ==> c !in Split(s, [c])[k]
    decreases |s|
  {
    if |s| > 0 {
      SplitPiecesFree(s[1..], c);
      SplitCons(s[0], s[1..], c);
      assert s == [s[0]] + s[1..];
    }
  }

  /** Text without the separator is one piece. */
  lemma {:induction false} SplitFree(s: string, c: char)
    requires c !in s
    ensures Split(s, [c]) == [s]
    decreases |s|
  {
    if |s| > 0 {
      SplitFree(s[1..], c);
      SplitCons(s[0], s[1..], c);
      assert s == [s[0]] + s[1..];
    }
  }

  /** How the pieces of `a` and `b` combine into the pieces of `a + b`. */
  function Fuse(pa: seq<string>, pb: seq<string>): seq<string>
    requires |pa| > 0 && |pb| > 0
  {
    pa[..|pa| - 1] + [Last(pa) + pb[0]] + pb[1..]
  }

  lemma FuseEmptyFront(pb: seq<string>)
    requires |pb| > 0
    ensures Fuse([""], pb) == pb
  {
    assert "" + pb[0] == pb[0];
  }

  lemma FuseSingleFront(p: string, pb: seq<string>)
    requires |pb| > 0
    ensures Fuse([p], pb) == [p + pb[0]] + pb[1..]
  {
  }

  lemma FuseCons(p: string, pa: seq<string>, pb: seq<string>)
    requires |pa| > 0 && |pb| > 0
    ensures Fuse([p] + pa, pb) == [p] + Fuse(pa, pb)
  {
    assert ([p] + pa)[..|pa|] == [p] + pa[..|pa| - 1];
  }

  lemma FuseExtendFirst(x: char, pa: seq<string>, pb: seq<string>)
    requires |pa| > 0 && |pb| > 0
    ensures var q := Fuse(pa, pb);
            Fuse([[x] + pa[0]] + pa[1..], pb) == [[x] + q[0]] + q[1..]
  {
    var q := Fuse(pa, pb);
    if |pa| == 1 {
      assert [x] + (pa[0] + pb[0]) == ([x] + pa[0]) + pb[0];
    } else {
      var xpa := [[x] + pa[0]] + pa[1..];
      assert xpa[..|xpa| - 1] == [[x] + pa[0]] + pa[1..|pa| - 1];
      assert q[0] == pa[0];
      assert q[1..] == pa[1..|pa| - 1] + [Last(pa) + pb[0]] + pb[1..];
    }
  }

  lemma FuseSnoc(front: seq<string>, last: string, pb: seq<string>)
    requires |pb| > 0
    ensures Fuse(front + [last], pb) == front + Fuse([last], pb)
  {
    var whole := front + [last];
    assert whole[..|whole| - 1] == front && Last(whole) == last;
  }

  /**
   * Splitting at a one-character separator distributes over concatenation: the last piece
   * of `a` and the first piece of `b` fuse, the other pieces are kept.
   */
  lemma {:induction false} SplitConcat(a: string, b: string, c: char)
    ensures Split(a + b, [c]) == Fuse(Split(a, [c]), Split(b, [c]))
    decreases |a|
  {
    if |a| == 0 {
      assert a + b == b;
      assert Split(a, [c]) == [""];
      FuseEmptyFront(Split(b, [c]));
    } else {
      var a' := a[1..];
      assert a == [a[0]] + a';
      assert a + b == [a[0]] + (a' + b);
      SplitConcat(a', b, c);
      SplitConcatStep(a[0], a', b, c);
    }
  }

  /** The induction step of `SplitConcat`: one more character in front of `a`. */
  lemma SplitConcatStep(x: char, a: string, b: string, c: char)
    requires Split(a + b, [c]) == Fuse(Split(a, [c]), Split(b, [c]))
    ensures Split([x] + (a + b), [c]) == Fuse(Split([x] + a, [c]), Split(b, [c]))
  {
    var pa := Split(a, [c]);
    var pb := Split(b, [c]);
    var q := Split(a + b, [c]);
    if x == c {
      assert Split([x] + (a + b), [c]) == [""] + q by {
        SplitCons(x, a + b, c);
      }
      assert Split([x] + a, [c]) == [""] + pa by {
        SplitCons(x, a, c);
      }
      FuseCons("", pa, pb);
    } else {
      assert Split([x] + (a + b), [c]) == [[x] + q[0]] + q[1..] by {
        SplitCons(x, a + b, c);
      }
      assert Split([x] + a, [c]) == [[x] + pa[0]] + pa[1..] by {
        SplitCons(x, a, c);
      }
      FuseExtendFirst(x, pa, pb);
    }
  }

  /** The separator alone splits into two empty pieces. */
  lemma SplitSeparator(c: char)
    ensures Split([c], [c]) == ["", ""]
  {
    assert [c][..1] == [c] && [c][1..] == "";
  }

  /** Text free of the separator fuses with the first piece of what follows it. */
  lemma SplitFreeFront(p: string, rest: string, c: char)
    requires c !in p
    ensures var sr := Split(rest, [c]);
            Split(p + rest, [c]) == [p + sr[0]] + sr[1..]
  {
    SplitFree(p, c);
    SplitConcat(p, rest, c);
    FuseSingleFront(p, Split(rest, [c]));
  }

  /** Pieces free of a one-character separator are recovered from their join. */
  lemma {:induction false} SplitJoin(parts: seq<string>, c: char)
    requires |parts| > 0
    requires forall k :: 0 <= k < |parts| ==> c !in parts[k]
    ensures Split(Join(parts, [c]), [c]) == parts
    decreases |parts|
  {
    if |parts| == 1 {
      SplitFree(parts[0], c);
    } else {
      var p0 := parts[0];
      var tail := parts[1..];
      var rest := Join(tail, [c]);
      assert Join(parts, [c]) == p0 + ([c] + rest);
      assert Split([c] + rest, [c]) == [""] + tail by {
        SplitJoin(tail, c);
        SplitCons(c, rest, c);
      }
      assert Split(p0 + ([c] + rest), [c]) == [p0 + ""] + tail by {
        SplitFreeFront(p0, [c] + rest, c);
        assert ([""] + tail)[1..] == tail;
      }
      assert p0 + "" == p0;
    }
  }

  /**
   * Appending text after `x` only changes the pieces from the last piece of `x` on: the
   * earlier pieces stay in front.
   */
  lemma SplitAppend(x: string, rest: string, front: seq<string>, last: string, c: char)
    requires Split(x, [c]) == front + [last]
    ensures Split(x + rest, [c]) == front + Split(last + rest, [c])
  {
    var sr := Split(rest, [c]);
    assert Split(x + rest, [c]) == front + Fuse([last], sr) by {
      SplitConcat(x, rest, c);
      FuseSnoc(front, last, sr);
    }
    assert Split(last + rest, [c]) == Fuse([last], sr) by {
      SplitPiecesFree(x, c);
      assert last == Split(x, [c])[|front|];
      SplitFree(last, c);
      SplitConcat(last, rest, c);
    }
  }

  /** One more character at the end: the separator opens an empty piece, any other character extends the last one. */
  lemma SplitSnoc(init: string, x: char, c: char)
    ensures var pi := Split(init, [c]);
            Split(init + [x], [c]) == if x == c then pi + [""] else pi[..|pi| - 1] + [Last(pi) + [x]]
  {
    var pi := Split(init, [c]);
    if x == c {
      assert Split(init + [x], [c]) == Fuse(pi, ["", ""]) by {
        SplitConcat(init, [x], c);
        SplitSeparator(c);
      }
      FuseSeparator(pi);
    } else {
      assert Split(init + [x], [c]) == Fuse(pi, [[x]]) by {
        SplitConcat(init, [x], c);
        SplitFree([x], c);
      }
    }
  }

  lemma FuseSeparator(pa: seq<string>)
    requires |pa| > 0
    ensures Fuse(pa, ["", ""]) == pa + [""]
  {
    assert Last(pa) + "" == Last(pa);
    assert pa[..|pa| - 1] + [Last(pa)] == pa;
  }
}
