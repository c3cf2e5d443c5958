/** The three kinds of event a chat exchange streams: content chunks, then one terminal event. */
module Events {

  datatype Event = Chunk(text: string) | Done | Error(message: string) {
    predicate IsTerminal() { !Chunk? }
  }

  predicate AllChunks(es: seq<Event>) {
    forall i :: 0 <= i < |es| ==> es[i].Chunk?
  }

  /** Zero or more chunks followed by exactly one terminal event. */
  predicate IsExchange(es: seq<Event>) {
    |es| >= 1 && es[|es| - 1].IsTerminal() && AllChunks(es[..|es| - 1])
  }

  lemma {:induction false} Snoc(es: seq<Event>)
    requires |es| > 0
    ensures es[..|es| - 1] + [es[|es| - 1]] == es
  {
  }

  lemma {:induction false} ExchangeParts(es: seq<Event>)
    requires IsExchange(es)
    ensures AllChunks(es[..|es| - 1]) && es[|es| - 1].IsTerminal()
    ensures es[..|es| - 1] + [es[|es| - 1]] == es
  {
  }

  /** Chunks closed by a terminal event form an exchange. */
  lemma {:induction false} Close(es: seq<Event>, last: Event)
    requires AllChunks(es) && last.IsTerminal()
    ensures IsExchange(es + [last])
  {
    assert (es + [last])[..|es|] == es;
  }

  /** The events up to and including the first terminal one; all of them when none is terminal. */
  function UpToTerminal(es: seq<Event>): seq<Event>
    decreases |es|
  {
    if |es| == 0 then []
    else if es[0].IsTerminal() then [es[0]]
    else [es[0]] + UpToTerminal(es[1..])
  }

  /** Cut at the first terminal event, chunks alone stay whole and anything else becomes an exchange. */
  lemma {:induction false} UpToTerminalShape(es: seq<Event>)
    ensures UpToTerminal(es) <= es
    ensures AllChunks(es) ==> UpToTerminal(es) == es
    ensures !AllChunks(es) ==> IsExchange(UpToTerminal(es))
  {
    UpToTerminalPrefix(es);
    if AllChunks(es) {
      UpToTerminalChunks(es);
    } else {
      UpToTerminalExchange(es);
    }
  }

  lemma {:induction false} UpToTerminalPrefix(es: seq<Event>)
    ensures UpToTerminal(es) <= es
    decreases |es|
  {
    if |es| > 0 && !es[0].IsTerminal() {
      UpToTerminalPrefix(es[1..]);
      assert es == [es[0]] + es[1..];
    }
  }

  lemma {:induction false} UpToTerminalChunks(es: seq<Event>)
    requires AllChunks(es)
    ensures UpToTerminal(es) == es
    decreases |es|
  {
    if |es| > 0 {
      assert es[0].Chunk?;
      assert AllChunks(es[1..]) by {
        assert forall i :: 0 <= i < |es| - 1 ==> es[1..][i] == es[i + 1];
      }
      UpToTerminalChunks(es[1..]);
      assert es == [es[0]] + es[1..];
    }
  }

  lemma {:induction false} UpToTerminalExchange(es: seq<Event>)
    requires !AllChunks(es)
    ensures IsExchange(UpToTerminal(es))
    decreases |es|
  {
    if !es[0].IsTerminal() {
      var t := es[1..];
      assert !AllChunks(t) by {
        var j :| 0 <= j < |es| && !es[j].Chunk?;
        assert j > 0 && t[j - 1] == es[j];
      }
      UpToTerminalExchange(t);
      var u := UpToTerminal(t);
      var r := [es[0]] + u;
      assert r[..|r| - 1] == [es[0]] + u[..|u| - 1];
      assert r[|r| - 1] == u[|u| - 1];
      ConsChunks(es[0], u[..|u| - 1]);
    } else {
      assert UpToTerminal(es)[..0] == [];
    }
  }

  lemma {:induction false} ConsChunks(e: Event, es: seq<Event>)
    requires e.Chunk? && AllChunks(es)
    ensures AllChunks([e] + es)
  {
    assert forall i :: 0 < i < |[e] + es| ==> ([e] + es)[i] == es[i - 1];
  }

  /** An event after the first terminal one leaves the cut alone; before it, it joins the cut. */
  lemma {:induction false} UpToTerminalSnoc(es: seq<Event>, e: Event)
    ensures UpToTerminal(es + [e]) == if AllChunks(es) then es + [e] else UpToTerminal(es)
    decreases |es|
  {
    if |es| > 0 && !es[0].IsTerminal() {
      var t := es[1..];
      assert (es + [e])[1..] == t + [e];
      UpToTerminalSnoc(t, e);
      assert AllChunks(es) <==> AllChunks(t) by {
        assert forall i :: 0 < i < |es| ==> es[i] == t[i - 1];
      }
      assert [es[0]] + (t + [e]) == es + [e];
    }
  }

  /** The in-order concatenation of the chunk texts. */
  function Transcript(es: seq<Event>): string {
    if |es| == 0 then ""
    else
      var last := es[|es| - 1];
      Transcript(es[..|es| - 1]) + (if last.Chunk? then last.text else "")
  }
}
