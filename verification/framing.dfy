/**
 * The buffered framing both stream readers share: append each read to a
 * pending buffer, split the buffer on a delimiter with JavaScript's
 * `String.prototype.split`, hand on every piece but the last and keep the
 * last as the new buffer.
 */
module Framing {

  import opened Wrappers
  import opened Text

  /** What a `ReadableStream` reader delivers: decoded reads, then either end of stream or a rejected read. */
  datatype Body = Body(chunks: seq<string>, failure: Option<string>)

  /** `d` occurs somewhere in `s`. */
  predicate Occurs(s: string, d: string)
    requires |d| > 0
    decreases |s|
  {
    |s| >= |d| && (s[..|d|] == d || Occurs(s[1..], d))
  }

  /** The inverse of splitting: the pieces with `d` between neighbours. */
  function Join(ps: seq<string>, d: string): string
    requires |ps| >= 1
  {
    if |ps| == 1 then ps[0] else ps[0] + d + Join(ps[1..], d)
  }

  /**
   * `s.split(d)` for a non-empty separator: scan left to right, cut at each
   * occurrence of `d` that starts after the previous cut.
   */
  function Split(s: string, d: string): (r: seq<string>)
    requires |d| > 0
    ensures |r| >= 1
    decreases |s|
  {
    if |s| < |d| then [s]
    else if s[..|d|] == d then [""] + Split(s[|d|..], d)
    else var t := Split(s[1..], d); [[s[0]] + t[0]] + t[1..]
  }

  /** Splitting loses nothing: joining the pieces back with `d` gives `s`; the first piece is a prefix of `s`. */
  lemma {:induction false} SplitJoin(s: string, d: string)
    requires |d| > 0
    ensures Join(Split(s, d), d) == s
    ensures Split(s, d)[0] <= s
    decreases |s|
  {
    if |s| < |d| {
    } else if s[..|d|] == d {
      SplitJoin(s[|d|..], d);
      SplitAtDelimiter(s, d);
      JoinAtDelimiter(s, d, Split(s[|d|..], d));
    } else {
      SplitJoin(s[1..], d);
      SplitPastChar(s, d);
      JoinPastChar(s, d, Split(s[1..], d));
    }
  }

  /** Join algebra for a split that starts at a delimiter. */
  lemma {:induction false} JoinAtDelimiter(s: string, d: string, t: seq<string>)
    requires |d| > 0 && |s| >= |d| && s[..|d|] == d
    requires |t| >= 1 && Join(t, d) == s[|d|..]
    ensures Join([""] + t, d) == s && "" <= s
  {
    assert ([""] + t)[1..] == t;
    assert s == d + s[|d|..];
  }

  /** Join algebra for a split whose first piece grows by one character. */
  lemma {:induction false} JoinPastChar(s: string, d: string, t: seq<string>)
    requires |s| >= 1
    requires |t| >= 1 && Join(t, d) == s[1..] && t[0] <= s[1..]
    ensures var u := [[s[0]] + t[0]] + t[1..]; Join(u, d) == s && u[0] <= s
  {
    var first := [s[0]] + t[0];
    var u := [first] + t[1..];
    assert u[1..] == t[1..];
    assert s == [s[0]] + s[1..];
    if |t| > 1 {
      assert Join(t, d) == t[0] + d + Join(t[1..], d);
    }
  }

  /** No piece of a split contains the delimiter. */
  lemma {:induction false} SplitPiecesAvoidDelimiter(s: string, d: string)
    requires |d| > 0
    ensures forall i :: 0 <= i < |Split(s, d)| ==> !Occurs(Split(s, d)[i], d)
    decreases |s|
  {
    if |s| < |d| {
    } else if s[..|d|] == d {
      SplitPiecesAvoidDelimiter(s[|d|..], d);
      SplitAtDelimiter(s, d);
      AvoidAtDelimiter(Split(s[|d|..], d), d);
    } else {
      SplitPiecesAvoidDelimiter(s[1..], d);
      SplitJoin(s[1..], d);
      SplitPastChar(s, d);
      AvoidPastChar(s, d, Split(s[1..], d));
    }
  }

  /** A split that starts at a delimiter adds an empty piece. */
  lemma {:induction false} AvoidAtDelimiter(t: seq<string>, d: string)
    requires |d| > 0
    requires forall i :: 0 <= i < |t| ==> !Occurs(t[i], d)
    ensures var u := [""] + t; forall i :: 0 <= i < |u| ==> !Occurs(u[i], d)
  {
    var u := [""] + t;
    assert forall i :: 1 <= i < |u| ==> u[i] == t[i - 1];
  }

  /** A first piece grown by a character that does not start the delimiter still avoids it. */
  lemma {:induction false} AvoidPastChar(s: string, d: string, t: seq<string>)
    requires |d| > 0 && |s| >= |d| && s[..|d|] != d
    requires |t| >= 1 && t[0] <= s[1..]
    requires forall i :: 0 <= i < |t| ==> !Occurs(t[i], d)
    ensures var u := [[s[0]] + t[0]] + t[1..]; forall i :: 0 <= i < |u| ==> !Occurs(u[i], d)
  {
    var first := [s[0]] + t[0];
    assert first[1..] == t[0];
    assert first <= s;
    assert |first| >= |d| ==> first[..|d|] == s[..|d|];
    assert !Occurs(first, d);
    var u := [first] + t[1..];
    assert forall i :: 1 <= i < |u| ==> u[i] == t[i];
  }

  /**
   * `split` cuts at the leftmost occurrence of `d`: a text without `d` is one
   * piece; otherwise the first piece ends where the first `d` starts, and the
   * other pieces are the split of the text after that `d`.
   */
  lemma {:induction false} SplitLeftmost(s: string, d: string)
    requires |d| > 0
    ensures Leftmost(s, d, Split(s, d))
    decreases |s|
  {
    if |s| < |d| {
    } else if s[..|d|] == d {
      LeftmostAtDelimiter(s, d);
    } else {
      SplitLeftmost(s[1..], d);
      LeftmostPastChar(s, d);
    }
  }

  /** The pieces `r` of `s` are cut at the leftmost occurrence of `d`, in the sense of `SplitLeftmost`. */
  predicate Leftmost(s: string, d: string, r: seq<string>)
    requires |d| > 0
  {
    |r| >= 1
    && (|r| == 1 <==> !Occurs(s, d))
    && (|r| == 1 ==> r[0] == s)
    && (|r| > 1 ==>
          |r[0]| + |d| <= |s| && s[|r[0]|..|r[0]| + |d|] == d
          && !Occurs(s[..|r[0]| + |d| - 1], d)
          && r[1..] == Split(s[|r[0]| + |d|..], d))
  }

  lemma {:induction false} LeftmostAtDelimiter(s: string, d: string)
    requires |d| > 0 && |s| >= |d| && s[..|d|] == d
    ensures Leftmost(s, d, Split(s, d))
  {
    SplitAtDelimiter(s, d);
    var r := Split(s, d);
    assert r[1..] == Split(s[|d|..], d);
    assert |s[..|d| - 1]| < |d|;
  }

  lemma {:induction false} LeftmostPastChar(s: string, d: string)
    requires |d| > 0 && |s| >= |d| && s[..|d|] != d
    requires Leftmost(s[1..], d, Split(s[1..], d))
    ensures Leftmost(s, d, Split(s, d))
  {
    SplitPastChar(s, d);
    if |Split(s[1..], d)| == 1 {
      LeftmostOnePiece(s, d);
    } else {
      LeftmostManyPieces(s, d);
    }
  }

  lemma {:induction false} LeftmostOnePiece(s: string, d: string)
    requires |d| > 0 && |s| >= |d| && s[..|d|] != d
    requires var t := Split(s[1..], d); |t| == 1 && t[0] == s[1..] && !Occurs(s[1..], d)
    requires var t := Split(s[1..], d); Split(s, d) == [[s[0]] + t[0]] + t[1..]
    ensures Leftmost(s, d, Split(s, d))
  {
    assert s == [s[0]] + s[1..];
  }

  lemma {:induction false} LeftmostManyPieces(s: string, d: string)
    requires |d| > 0 && |s| >= |d| && s[..|d|] != d
    requires var t := Split(s[1..], d); |t| > 1 && Leftmost(s[1..], d, t)
    requires var t := Split(s[1..], d); Split(s, d) == [[s[0]] + t[0]] + t[1..]
    ensures Leftmost(s, d, Split(s, d))
  {
    var t := Split(s[1..], d);
    var r := Split(s, d);
    assert r[1..] == t[1..];
    assert Occurs(s[1..], d);
    CutPastChar(s, d, |t[0]|);
  }

  /** A cut found `n` characters into `s[1..]` is a cut `n + 1` characters into `s`, with nothing earlier added. */
  lemma {:induction false} CutPastChar(s: string, d: string, n: nat)
    requires |d| > 0 && |s| >= |d| && s[..|d|] != d
    requires n + |d| <= |s| - 1 && s[1..][n..n + |d|] == d && !Occurs(s[1..][..n + |d| - 1], d)
    ensures s[n + 1..n + 1 + |d|] == d
    ensures !Occurs(s[..n + |d|], d)
    ensures s[n + 1 + |d|..] == s[1..][n + |d|..]
  {
    assert s[n + 1..n + 1 + |d|] == s[1..][n..n + |d|];
    var u := s[..n + |d|];
    assert u[..|d|] == s[..|d|];
    assert u[1..] == s[1..][..n + |d| - 1];
  }

  /** The pieces a read loop processes: all but the last piece of the split. */
  function CompletePieces(s: string, d: string): seq<string>
    requires |d| > 0
  {
    var ps := Split(s, d);
    ps[..|ps| - 1]
  }

  /** What a read loop keeps as its pending buffer: the last piece of the split. */
  function Remainder(s: string, d: string): string
    requires |d| > 0
  {
    var ps := Split(s, d);
    ps[|ps| - 1]
  }

  /** No complete piece contains the delimiter, and there are some exactly when the delimiter occurs. */
  lemma {:induction false} CompletePiecesAvoid(s: string, d: string)
    requires |d| > 0
    ensures forall i :: 0 <= i < |CompletePieces(s, d)| ==> !Occurs(CompletePieces(s, d)[i], d)
    ensures |CompletePieces(s, d)| == 0 <==> !Occurs(s, d)
  {
    SplitPiecesAvoidDelimiter(s, d);
    SplitLeftmost(s, d);
  }

  /** The buffer holds the text after the last delimiter: it contains no delimiter and `s` ends with it. */
  lemma {:induction false} RemainderIsTail(s: string, d: string)
    requires |d| > 0
    ensures !Occurs(Remainder(s, d), d)
    ensures |CompletePieces(s, d)| == 0 ==> Remainder(s, d) == s
    ensures |CompletePieces(s, d)| > 0 ==> s == Join(CompletePieces(s, d), d) + d + Remainder(s, d)
  {
    SplitJoin(s, d);
    SplitPiecesAvoidDelimiter(s, d);
    if |Split(s, d)| >= 2 {
      JoinSnoc(Split(s, d), d);
    }
  }

  lemma {:induction false} JoinSnoc(ps: seq<string>, d: string)
    requires |ps| >= 2
    ensures Join(ps, d) == Join(ps[..|ps| - 1], d) + d + ps[|ps| - 1]
    decreases |ps|
  {
    if |ps| > 2 {
      JoinSnoc(ps[1..], d);
      assert ps[1..][..|ps| - 2] == ps[..|ps| - 1][1..];
    }
  }

  lemma {:induction false} SplitAtDelimiter(s: string, d: string)
    requires |d| > 0 && |s| >= |d| && s[..|d|] == d
    ensures Split(s, d) == [""] + Split(s[|d|..], d)
  {
  }

  lemma {:induction false} SplitPastChar(s: string, d: string)
    requires |d| > 0 && |s| >= |d| && s[..|d|] != d
    ensures var t := Split(s[1..], d); Split(s, d) == [[s[0]] + t[0]] + t[1..]
  {
  }

  /**
   * Splitting is stable under appending text: the pieces already complete in
   * `s` stay complete, and the rest is the split of the buffer plus the new text.
   */
  lemma {:induction false} SplitAppend(s: string, c: string, d: string)
    requires |d| > 0
    ensures Split(s + c, d) == CompletePieces(s, d) + Split(Remainder(s, d) + c, d)
    decreases |s|
  {
    if |s| < |d| {
      assert Split(s, d) == [s];
    } else if s[..|d|] == d {
      SplitAppend(s[|d|..], c, d);
      SplitAppendAtDelimiter(s, c, d);
    } else {
      SplitAppend(s[1..], c, d);
      SplitAppendPastChar(s, c, d);
    }
  }

  lemma {:induction false} SplitAppendAtDelimiter(s: string, c: string, d: string)
    requires |d| > 0 && |s| >= |d| && s[..|d|] == d
    requires Split(s[|d|..] + c, d) == CompletePieces(s[|d|..], d) + Split(Remainder(s[|d|..], d) + c, d)
    ensures Split(s + c, d) == CompletePieces(s, d) + Split(Remainder(s, d) + c, d)
  {
    var s' := s[|d|..];
    assert (s + c)[..|d|] == d;
    assert (s + c)[|d|..] == s' + c;
    SplitAtDelimiter(s, d);
    SplitAtDelimiter(s + c, d);
    var t := Split(s', d);
    assert CompletePieces(s, d) == [""] + t[..|t| - 1];
  }

  lemma {:induction false} SplitAppendPastChar(s: string, c: string, d: string)
    requires |d| > 0 && |s| >= |d| && s[..|d|] != d
    requires Split(s[1..] + c, d) == CompletePieces(s[1..], d) + Split(Remainder(s[1..], d) + c, d)
    ensures Split(s + c, d) == CompletePieces(s, d) + Split(Remainder(s, d) + c, d)
  {
    if |Split(s[1..], d)| == 1 {
      PastCharSinglePiece(s, c, d);
    } else {
      PastCharManyPieces(s, c, d);
    }
  }

  lemma {:induction false} PastCharSinglePiece(s: string, c: string, d: string)
    requires |d| > 0 && |s| >= |d| && s[..|d|] != d
    requires |Split(s[1..], d)| == 1
    ensures Split(s + c, d) == CompletePieces(s, d) + Split(Remainder(s, d) + c, d)
  {
    var s' := s[1..];
    SplitJoin(s', d);
    SplitPastChar(s, d);
    assert [s[0]] + s' == s;
    assert Split(s, d) == [s];
  }

  lemma {:induction false} PastCharManyPieces(s: string, c: string, d: string)
    requires |d| > 0 && |s| >= |d| && s[..|d|] != d
    requires Split(s[1..] + c, d) == CompletePieces(s[1..], d) + Split(Remainder(s[1..], d) + c, d)
    requires |Split(s[1..], d)| > 1
    ensures Split(s + c, d) == CompletePieces(s, d) + Split(Remainder(s, d) + c, d)
  {
    var s' := s[1..];
    var t := Split(s', d);
    var sc := s + c;
    assert sc[..|d|] == s[..|d|];
    assert sc[1..] == s' + c;
    SplitPastChar(sc, d);
    SplitPastChar(s, d);
    ConsPieces(s[0], t, Split(t[|t| - 1] + c, d));
  }

  lemma {:induction false} ConsPieces(x: char, t: seq<string>, R: seq<string>)
    requires |t| > 1
    ensures var t' := t[..|t| - 1] + R; var u := [[x] + t[0]] + t[1..];
      [[x] + t'[0]] + t'[1..] == u[..|u| - 1] + R && u[|u| - 1] == t[|t| - 1]
  {
    var t' := t[..|t| - 1] + R;
    var u := [[x] + t[0]] + t[1..];
    assert t'[1..] == t[1..|t| - 1] + R;
    assert u[..|u| - 1] == [[x] + t[0]] + t[1..|t| - 1];
  }

  /** One iteration of a read loop, stated on the whole text read so far. */
  lemma {:induction false} FeedRead(s: string, c: string, d: string)
    requires |d| > 0
    ensures CompletePieces(s + c, d) == CompletePieces(s, d) + CompletePieces(Remainder(s, d) + c, d)
    ensures Remainder(s + c, d) == Remainder(Remainder(s, d) + c, d)
  {
    SplitAppend(s, c, d);
  }

  /** Text without the delimiter splits into itself. */
  lemma {:induction false} SplitWithoutDelimiter(s: string, d: string)
    requires |d| > 0
    requires !Occurs(s, d)
    ensures Split(s, d) == [s]
    decreases |s|
  {
    if |s| >= |d| {
      SplitWithoutDelimiter(s[1..], d);
      assert [s[0]] + s[1..] == s;
    }
  }

  predicate Avoids(s: string, d: string) {
    forall k :: 0 <= k < |d| ==> d[k] !in s
  }

  lemma {:induction false} NoOccurrenceInAvoiding(b: string, d: string)
    requires |d| > 0 && Avoids(b, d)
    ensures !Occurs(b, d)
    decreases |b|
  {
    if |b| >= |d| {
      assert b[0] == b[..|d|][0];
      NoOccurrenceInAvoiding(b[1..], d);
    }
  }

  /** Appending text that shares no character with `d` creates no occurrence of `d`. */
  lemma {:induction false} OccursAppend(a: string, b: string, d: string)
    requires |d| > 0 && Avoids(b, d)
    ensures Occurs(a + b, d) ==> Occurs(a, d)
    decreases |a|
  {
    if |a| == 0 {
      assert a + b == b;
      NoOccurrenceInAvoiding(b, d);
    } else if Occurs(a + b, d) {
      if (a + b)[..|d|] == d {
        PrefixNotAcross(a, b, d);
        assert (a + b)[..|d|] == a[..|d|];
      } else {
        assert (a + b)[1..] == a[1..] + b;
        OccursAppend(a[1..], b, d);
      }
    }
  }

  lemma {:induction false} PrefixNotAcross(a: string, b: string, d: string)
    requires |d| > 0 && Avoids(b, d)
    ensures |a| < |d| <= |a + b| ==> (a + b)[..|d|] != d
  {
    if |a| < |d| <= |a + b| {
      assert (a + b)[..|d|][|a|] == b[0];
    }
  }

  /** A piece free of the delimiter's first character, followed by the delimiter, is cut off intact. */
  lemma {:induction false} SplitAfterPiece(x: string, d: string, rest: string)
    requires |d| > 0 && d[0] !in x
    ensures Split(x + d + rest, d) == [x] + Split(rest, d)
    decreases |x|
  {
    var s := x + d + rest;
    if |x| == 0 {
      assert s == d + rest;
      assert s[..|d|] == d;
      assert s[|d|..] == rest;
    } else {
      assert s[..|d|][0] == x[0];
      assert s[1..] == x[1..] + d + rest;
      SplitAfterPiece(x[1..], d, rest);
      assert [x[0]] + x[1..] == x;
    }
  }

  /** Each piece followed by the delimiter. */
  function Terminated(xs: seq<string>, d: string): (r: seq<string>)
    ensures |r| == |xs|
    ensures forall i :: 0 <= i < |xs| ==> r[i] == xs[i] + d
  {
    if |xs| == 0 then [] else [xs[0] + d] + Terminated(xs[1..], d)
  }

  /** Pieces free of the delimiter's first character, each terminated, split back into themselves. */
  lemma {:induction false} SplitTerminated(xs: seq<string>, d: string)
    requires |d| > 0
    requires forall i :: 0 <= i < |xs| ==> d[0] !in xs[i]
    ensures Split(Concat(Terminated(xs, d)), d) == xs + [""]
    decreases |xs|
  {
    if |xs| > 0 {
      var tail := Terminated(xs[1..], d);
      var rest := Concat(tail);
      assert Terminated(xs, d) == [xs[0] + d] + tail;
      ConcatCons(xs[0] + d, tail);
      SplitAfterPiece(xs[0], d, rest);
      SplitTerminated(xs[1..], d);
      ConsTerminator(xs);
    }
  }

  lemma {:induction false} ConsTerminator(xs: seq<string>)
    requires |xs| > 0
    ensures [xs[0]] + (xs[1..] + [""]) == xs + [""]
  {
    assert xs == [xs[0]] + xs[1..];
  }

  lemma {:induction false} CompleteTerminated(xs: seq<string>, d: string)
    requires |d| > 0
    requires forall i :: 0 <= i < |xs| ==> d[0] !in xs[i]
    ensures CompletePieces(Concat(Terminated(xs, d)), d) == xs
  {
    SplitTerminated(xs, d);
    assert (xs + [""])[..|xs|] == xs;
  }

  /** Left fold of a per-piece step over the pieces, in order. */
  function Fold<S>(step: (S, string) -> S, init: S, ps: seq<string>): S
    decreases |ps|
  {
    if |ps| == 0 then init else step(Fold(step, init, ps[..|ps| - 1]), ps[|ps| - 1])
  }

  lemma {:induction false} FoldAppend<S>(step: (S, string) -> S, init: S, a: seq<string>, b: seq<string>)
    ensures Fold(step, init, a + b) == Fold(step, Fold(step, init, a), b)
    decreases |b|
  {
    if |b| == 0 {
      assert a + b == a;
    } else {
      assert (a + b)[..|a + b| - 1] == a + b[..|b| - 1];
      FoldAppend(step, init, a, b[..|b| - 1]);
    }
  }

  lemma {:induction false} FoldLast<S>(step: (S, string) -> S, init: S, ps: seq<string>)
    requires |ps| > 0
    ensures Fold(step, init, ps) == step(Fold(step, init, ps[..|ps| - 1]), ps[|ps| - 1])
  {
  }

  /** One more piece from `more`, as a loop over `more` takes it. */
  lemma {:induction false} FoldNext<S>(step: (S, string) -> S, init: S, done: seq<string>, more: seq<string>, i: nat)
    requires i < |more|
    ensures Fold(step, init, done + more[..i + 1]) == step(Fold(step, init, done + more[..i]), more[i])
  {
    assert (done + more[..i + 1])[..|done| + i] == done + more[..i];
  }

  /** Once the fold reaches a state every step leaves alone, it stays there. */
  lemma {:induction false} FoldAbsorbing<S>(step: (S, string) -> S, s: S, ps: seq<string>)
    requires forall p :: step(s, p) == s
    ensures Fold(step, s, ps) == s
    decreases |ps|
  {
    if |ps| > 0 {
      FoldAbsorbing(step, s, ps[..|ps| - 1]);
    }
  }

  /** A property every step preserves holds of the fold. */
  lemma {:induction false} FoldInvariant<S>(step: (S, string) -> S, inv: S -> bool, init: S, ps: seq<string>)
    requires inv(init)
    requires forall s, p :: inv(s) ==> inv(step(s, p))
    ensures inv(Fold(step, init, ps))
    decreases |ps|
  {
    if |ps| > 0 {
      FoldInvariant(step, inv, init, ps[..|ps| - 1]);
    }
  }

  /**
   * A read loop that leaves in the middle of the pieces of one read, in a
   * state no step changes, has the result the fold over the whole text has.
   */
  lemma {:induction false} FoldEarlyExit<S>(step: (S, string) -> S, init: S, before: string, read: string, after: string, d: string, i: nat)
    requires |d| > 0
    requires i < |Split(Remainder(before, d) + read, d)| - 1
    requires var s := Fold(step, init, CompletePieces(before, d) + Split(Remainder(before, d) + read, d)[..i + 1]);
      forall p :: step(s, p) == s
    ensures Fold(step, init, CompletePieces(before + read + after, d))
         == Fold(step, init, CompletePieces(before, d) + Split(Remainder(before, d) + read, d)[..i + 1])
  {
    var lines := Split(Remainder(before, d) + read, d);
    var head := CompletePieces(before, d) + lines[..i + 1];
    var tail := lines[i + 1..|lines| - 1] + CompletePieces(Remainder(before + read, d) + after, d);
    EarlyExitPieces(before, read, after, d, i);
    FoldAppend(step, init, head, tail);
    FoldAbsorbing(step, Fold(step, init, head), tail);
  }

  /** The pieces of the whole text, cut after piece `i` of read `read`. */
  lemma {:induction false} EarlyExitPieces(before: string, read: string, after: string, d: string, i: nat)
    requires |d| > 0
    requires i < |Split(Remainder(before, d) + read, d)| - 1
    ensures var lines := Split(Remainder(before, d) + read, d);
      CompletePieces(before + read + after, d)
        == (CompletePieces(before, d) + lines[..i + 1])
           + (lines[i + 1..|lines| - 1] + CompletePieces(Remainder(before + read, d) + after, d))
  {
    var lines := Split(Remainder(before, d) + read, d);
    FeedRead(before, read, d);
    FeedRead(before + read, after, d);
    CutAfter(CompletePieces(before + read + after, d), CompletePieces(before, d), lines,
             CompletePieces(Remainder(before + read, d) + after, d), i);
  }

  /** Sequence algebra for `EarlyExitPieces`, kept apart from splitting. */
  lemma {:induction false} CutAfter(whole: seq<string>, done: seq<string>, lines: seq<string>, rest: seq<string>, i: nat)
    requires i < |lines| - 1
    requires whole == (done + lines[..|lines| - 1]) + rest
    ensures whole == (done + lines[..i + 1]) + (lines[i + 1..|lines| - 1] + rest)
  {
    assert lines[..|lines| - 1] == lines[..i + 1] + lines[i + 1..|lines| - 1];
  }

  /** The loop invariant of a read loop carried across one read. */
  lemma {:induction false} ReadLoopStep<S>(step: (S, string) -> S, init: S, chunks: seq<string>, k: nat, d: string)
    requires |d| > 0 && k < |chunks|
    ensures var before := Concat(chunks[..k]);
      var lines := Split(Remainder(before, d) + chunks[k], d);
      Fold(step, init, CompletePieces(Concat(chunks[..k + 1]), d))
        == Fold(step, init, CompletePieces(before, d) + lines[..|lines| - 1])
      && Remainder(Concat(chunks[..k + 1]), d) == lines[|lines| - 1]
  {
    assert chunks[..k + 1][..k] == chunks[..k];
    FeedRead(Concat(chunks[..k]), chunks[k], d);
  }

  /** Once `open` fails, `step` leaves the state as it is. */
  ghost predicate Absorbing<S(!new)>(step: (S, string) -> S, open: S -> bool) {
    forall x: S, p: string :: !open(x) ==> step(x, p) == x
  }

  /** Leaving the read loop at piece `i` of read `k`, once the state absorbs every piece, gives the fold over the whole text. */
  lemma {:induction false} LeaveAt<S(!new)>(step: (S, string) -> S, init: S, open: S -> bool,
                                      chunks: seq<string>, k: nat, i: nat, d: string)
    requires |d| > 0 && k < |chunks|
    requires Absorbing(step, open)
    requires var before := Concat(chunks[..k]);
      var lines := Split(Remainder(before, d) + chunks[k], d);
      i < |lines| - 1 && !open(Fold(step, init, CompletePieces(before, d) + lines[..i + 1]))
    ensures Fold(step, init, CompletePieces(Concat(chunks), d))
         == Fold(step, init, CompletePieces(Concat(chunks[..k]), d) + Split(Remainder(Concat(chunks[..k]), d) + chunks[k], d)[..i + 1])
  {
    ConcatAround(chunks, k);
    FoldEarlyExit(step, init, Concat(chunks[..k]), chunks[k], Concat(chunks[k + 1..]), d, i);
  }

  /**
   * The read loop both stream readers share: each read is appended to the
   * pending text and split; every complete piece goes through `step` in
   * order, and the loop returns as soon as a piece leaves the state closed;
   * the last, unterminated piece is kept for the next read. Whatever the
   * cuts between reads, the result is the fold over the whole text.
   */
  method ReadPieces<S(!new)>(chunks: seq<string>, d: string, step: (S, string) -> S, init: S, open: S -> bool) returns (s: S)
    requires |d| > 0
    requires Absorbing(step, open)
    ensures s == Fold(step, init, CompletePieces(Concat(chunks), d))
  {
    var buffer := "";
    s := init;
    var k := 0;
    while k < |chunks|
      invariant 0 <= k <= |chunks|
      invariant buffer == Remainder(Concat(chunks[..k]), d)
      invariant s == Fold(step, init, CompletePieces(Concat(chunks[..k]), d))
    {
      ghost var whole := Concat(chunks[..k]);
      ghost var done := CompletePieces(whole, d);
      ghost var pending := Split(Remainder(whole, d) + chunks[k], d);
      buffer := buffer + chunks[k];
      var lines := Split(buffer, d);
      assert lines == pending;
      buffer := lines[|lines| - 1];
      var i := 0;
      assert done + lines[..i] == done;
      while i < |lines| - 1
        invariant 0 <= i <= |lines| - 1
        invariant s == Fold(step, init, done + lines[..i])
      {
        FoldNext(step, init, done, lines, i);
        s := step(s, lines[i]);
        if !open(s) {
          assert s == Fold(step, init, done + pending[..i + 1]);
          LeaveAt(step, init, open, chunks, k, i, d);
          return;
        }
        i := i + 1;
      }
      assert lines[..i] == lines[..|lines| - 1];
      ReadLoopStep(step, init, chunks, k, d);
      k := k + 1;
    }
    assert chunks[..k] == chunks;
  }
}
