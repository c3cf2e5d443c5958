/**
 * Viseme timelines: every character of an utterance is classified into a
 * mouth shape, given one uniform slot of `80 / rate` milliseconds, and runs
 * of equal shapes are merged into single events.
 */
module LipSync {

  import opened Text

  datatype Viseme = Sil | Aa | Ee | Oh | Oo | Pp

  /** `start` and `duration` are in milliseconds from the beginning of the utterance. */
  datatype VisemeEvent = VisemeEvent(viseme: Viseme, start: real, duration: real) {
    function End(): real { start + duration }
  }

  /** The fixed character-class table; keys are lower-case. */
  const CharToViseme: map<char, Viseme> := map[
    'a' := Aa, 'e' := Ee, 'i' := Ee, 'o' := Oh, 'u' := Oo,
    'b' := Pp, 'p' := Pp, 'm' := Pp, 'f' := Pp, 'v' := Pp,
    'w' := Oo,
    ' ' := Sil, ',' := Sil, '.' := Sil, '!' := Sil, '?' := Sil,
    ';' := Sil, ':' := Sil, '\n' := Sil, '\t' := Sil
  ]

  /** Whitespace and punctuation: the keys that close the mouth. */
  predicate IsSilent(c: char) {
    c == ' ' || c == ',' || c == '.' || c == '!' || c == '?' || c == ';' || c == ':' || c == '\n' || c == '\t'
  }

  /** The letters of the table, by the shape they make. */
  predicate IsSpread(l: char) { l == 'e' || l == 'i' }
  predicate IsRounded(l: char) { l == 'u' || l == 'w' }
  predicate IsClosed(l: char) { l == 'b' || l == 'p' || l == 'm' || l == 'f' || l == 'v' }

  /** The table lookup after lower-casing; anything not in the table opens the mouth. */
  function GetViseme(c: char): (v: Viseme)
    ensures v == Sil <==> IsSilent(c)
    ensures v == Ee <==> IsSpread(ToLower(c))
    ensures v == Oh <==> ToLower(c) == 'o'
    ensures v == Oo <==> IsRounded(ToLower(c))
    ensures v == Pp <==> IsClosed(ToLower(c))
    ensures v == Aa <==> !IsSilent(c) && !IsSpread(ToLower(c)) && ToLower(c) != 'o'
                         && !IsRounded(ToLower(c)) && !IsClosed(ToLower(c))
  {
    var lower := ToLower(c);
    if lower in CharToViseme then CharToViseme[lower] else Aa
  }

  /** Upper- and lower-case letters share a viseme. */
  lemma {:induction false} VisemeIgnoresCase(c: char)
    requires 'A' <= c <= 'Z'
    ensures GetViseme(c) == GetViseme((c as int + 32) as char)
  {
  }

  /** The per-character slot, `baseDuration` in milliseconds. */
  function FrameDuration(rate: real): (d: real)
    requires rate > 0.0
    ensures d > 0.0
    ensures d * rate == 80.0
  {
    80.0 / rate
  }

  /**
   * The raw pass: one event per character. The clock stands at `slot * base`
   * when the character in position `slot` of the utterance is reached.
   */
  function RawFrom(text: string, slot: nat, base: real): (r: seq<VisemeEvent>)
    ensures |r| == |text|
    ensures forall i :: 0 <= i < |r| ==>
      r[i] == VisemeEvent(GetViseme(text[i]), SlotStart(slot + i, base), base)
    decreases |text|
  {
    if |text| == 0 then []
    else [VisemeEvent(GetViseme(text[0]), SlotStart(slot, base), base)] + RawFrom(text[1..], slot + 1, base)
  }

  /** The clock value at the start of slot `n`. */
  function SlotStart(n: int, base: real): real {
    (n as real) * base
  }

  /** One step of the merge loop: extend the last merged event, or append a copy. */
  function Absorb(merged: seq<VisemeEvent>, e: VisemeEvent): seq<VisemeEvent> {
    if |merged| > 0 && merged[|merged| - 1].viseme == e.viseme then
      var last := merged[|merged| - 1];
      merged[..|merged| - 1] + [last.(duration := last.duration + e.duration)]
    else
      merged + [e]
  }

  /**
   * A merge step keeps the earlier events as they are, ends on `e`'s viseme,
   * and adds no event exactly when the last one already showed that viseme;
   * then the last event absorbs `e`'s duration.
   */
  lemma {:induction false} AbsorbStep(merged: seq<VisemeEvent>, e: VisemeEvent)
    ensures var r := Absorb(merged, e);
      |merged| <= |r| <= |merged| + 1 && |r| > 0 && r[|r| - 1].viseme == e.viseme
      && (|merged| > 0 ==> r[..|merged| - 1] == merged[..|merged| - 1])
      && (|r| == |merged| <==> |merged| > 0 && merged[|merged| - 1].viseme == e.viseme)
      && (|r| == |merged| ==> r[|r| - 1].duration == merged[|merged| - 1].duration + e.duration)
      && (|r| > |merged| ==> r == merged + [e])
  {
  }

  /** The merge pass over the raw events, in order. */
  function Merge(es: seq<VisemeEvent>): seq<VisemeEvent>
    decreases |es|
  {
    if |es| == 0 then [] else Absorb(Merge(es[..|es| - 1]), es[|es| - 1])
  }

  predicate Contiguous(tl: seq<VisemeEvent>) {
    forall i :: 0 < i < |tl| ==> tl[i].start == tl[i - 1].End()
  }

  predicate PositiveDurations(tl: seq<VisemeEvent>) {
    forall i :: 0 <= i < |tl| ==> tl[i].duration > 0.0
  }

  /** Events follow each other without gap or overlap and each lasts a positive time. */
  predicate WellFormed(tl: seq<VisemeEvent>) {
    Contiguous(tl) && PositiveDurations(tl)
  }

  predicate NoRepeats(tl: seq<VisemeEvent>) {
    forall i :: 0 < i < |tl| ==> tl[i].viseme != tl[i - 1].viseme
  }

  function TotalDuration(tl: seq<VisemeEvent>): real {
    if |tl| == 0 then 0.0 else TotalDuration(tl[..|tl| - 1]) + tl[|tl| - 1].duration
  }

  function EndTime(tl: seq<VisemeEvent>): real
    requires |tl| > 0
  {
    tl[|tl| - 1].End()
  }

  /**
   * Merging never leaves two neighbours with the same viseme, never lengthens
   * the sequence, yields nothing only for no events, and ends on the last
   * event's viseme.
   */
  lemma {:induction false} MergeNoRepeats(es: seq<VisemeEvent>)
    ensures NoRepeats(Merge(es))
    ensures |Merge(es)| <= |es|
    ensures |Merge(es)| == 0 <==> |es| == 0
    ensures |es| > 0 ==> Merge(es)[|Merge(es)| - 1].viseme == es[|es| - 1].viseme
    decreases |es|
  {
    if |es| > 0 {
      MergeNoRepeats(es[..|es| - 1]);
    }
  }

  /** Merging preserves the total duration. */
  lemma {:induction false} MergeDuration(es: seq<VisemeEvent>)
    ensures TotalDuration(Merge(es)) == TotalDuration(es)
    decreases |es|
  {
    if |es| > 0 {
      var p := es[..|es| - 1];
      var e := es[|es| - 1];
      var m := Merge(p);
      MergeDuration(p);
      if |m| > 0 && m[|m| - 1].viseme == e.viseme {
        var last := m[|m| - 1];
        var m' := m[..|m| - 1] + [last.(duration := last.duration + e.duration)];
        assert m'[..|m'| - 1] == m[..|m| - 1];
      } else {
        assert (m + [e])[..|m|] == m;
      }
    }
  }

  /** Merging a well-formed sequence keeps it well-formed, with the same start and end. */
  lemma {:induction false} MergeShape(es: seq<VisemeEvent>)
    requires WellFormed(es)
    ensures WellFormed(Merge(es))
    ensures |es| > 0 ==> |Merge(es)| > 0 && Merge(es)[0].start == es[0].start && EndTime(Merge(es)) == EndTime(es)
    decreases |es|
  {
    if |es| > 0 {
      var p := es[..|es| - 1];
      var e := es[|es| - 1];
      assert WellFormed(p);
      MergeShape(p);
      if |p| > 0 {
        assert e.start == EndTime(p);
      }
      AbsorbShape(Merge(p), e);
    }
  }

  lemma {:induction false} AbsorbShape(m: seq<VisemeEvent>, e: VisemeEvent)
    requires WellFormed(m) && e.duration > 0.0
    requires |m| > 0 ==> e.start == EndTime(m)
    ensures var r := Absorb(m, e);
      WellFormed(r) && |r| > 0 && EndTime(r) == e.End() && (|m| > 0 ==> r[0].start == m[0].start)
      && (|m| == 0 ==> r[0].start == e.start)
  {
    var n := |m|;
    if n > 0 && m[n - 1].viseme == e.viseme {
      var last := m[n - 1];
      var last' := last.(duration := last.duration + e.duration);
      var r := m[..n - 1] + [last'];
      assert forall i :: 0 <= i < n - 1 ==> r[i] == m[i];
      assert r[n - 1] == last';
      assert Contiguous(r);
    } else {
      var r := m + [e];
      assert forall i :: 0 <= i < n ==> r[i] == m[i];
      assert Contiguous(r);
    }
  }

  lemma {:induction false} SlotStep(n: int, base: real)
    ensures SlotStart(n - 1, base) + base == SlotStart(n, base)
  {
    assert (n as real) == ((n - 1) as real) + 1.0;
  }

  /** The raw pass yields a well-formed timeline covering `|text|` slots from `slot * base`. */
  lemma RawShape(text: string, slot: nat, base: real)
    requires base > 0.0
    ensures var raw := RawFrom(text, slot, base);
      WellFormed(raw) && (|raw| > 0 ==> EndTime(raw) == SlotStart(slot + |text|, base))
  {
    var raw := RawFrom(text, slot, base);
    forall i | 0 < i < |raw| ensures raw[i].start == raw[i - 1].End() {
      SlotStep(slot + i, base);
    }
    if |raw| > 0 {
      SlotStep(slot + |text|, base);
    }
  }

  lemma {:induction false} UniformDuration(tl: seq<VisemeEvent>, base: real)
    requires forall i :: 0 <= i < |tl| ==> tl[i].duration == base
    ensures TotalDuration(tl) == SlotStart(|tl|, base)
    decreases |tl|
  {
    if |tl| > 0 {
      UniformDuration(tl[..|tl| - 1], base);
      SlotStep(|tl|, base);
    }
  }

  /**
   * `generateVisemeTimeline`: the merged timeline for `text` at speech rate
   * `rate`. It starts at 0, runs without gaps for `|text| * 80 / rate`
   * milliseconds and never repeats a viseme in neighbouring events.
   */
  function GenerateVisemeTimeline(text: string, rate: real): (r: seq<VisemeEvent>)
    requires rate > 0.0
    ensures WellFormed(r) && NoRepeats(r)
    ensures |r| <= |text|
    ensures |r| == 0 <==> |text| == 0
    ensures |r| > 0 ==> r[0].start == 0.0 && EndTime(r) == SlotStart(|text|, FrameDuration(rate))
    ensures TotalDuration(r) == SlotStart(|text|, FrameDuration(rate))
  {
    var base := FrameDuration(rate);
    var raw := RawFrom(text, 0, base);
    RawShape(text, 0, base);
    UniformDuration(raw, base);
    MergeShape(raw);
    MergeNoRepeats(raw);
    MergeDuration(raw);
    Merge(raw)
  }

  /**
   * The scan `tick` performs: the first event covering `t`, stopping early at
   * an event that starts after `t`; silence when none covers it.
   */
  function VisemeAt(tl: seq<VisemeEvent>, t: real): Viseme {
    if |tl| == 0 then Sil
    else if tl[0].start <= t < tl[0].End() then tl[0].viseme
    else if tl[0].start > t then Sil
    else VisemeAt(tl[1..], t)
  }

  /** The lookup shows silence unless some event covers `t`, and then it shows a covering event's viseme. */
  lemma {:induction false} VisemeAtShowsCovering(tl: seq<VisemeEvent>, t: real)
    ensures (forall j :: 0 <= j < |tl| ==> !(tl[j].start <= t < tl[j].End())) ==> VisemeAt(tl, t) == Sil
    ensures VisemeAt(tl, t) != Sil ==>
      exists j :: 0 <= j < |tl| && tl[j].start <= t < tl[j].End() && tl[j].viseme == VisemeAt(tl, t)
    decreases |tl|
  {
    if |tl| > 0 && !(tl[0].start <= t < tl[0].End()) && tl[0].start <= t {
      VisemeAtShowsCovering(tl[1..], t);
      assert forall j :: 0 <= j < |tl| - 1 ==> tl[1..][j] == tl[j + 1];
      if VisemeAt(tl, t) != Sil {
        var j :| 0 <= j < |tl| - 1 && tl[1..][j].start <= t < tl[1..][j].End() && tl[1..][j].viseme == VisemeAt(tl, t);
        assert tl[j + 1] == tl[1..][j];
      }
    }
  }

  lemma {:induction false} EndsBeforeLaterStarts(tl: seq<VisemeEvent>, i: int, j: int)
    requires WellFormed(tl) && 0 <= i < j < |tl|
    ensures tl[i].End() <= tl[j].start
    decreases j - i
  {
    if j > i + 1 {
      EndsBeforeLaterStarts(tl, i, j - 1);
    }
  }

  /** In a well-formed timeline the scan finds the event that covers `t`. */
  lemma {:induction false} VisemeAtCovering(tl: seq<VisemeEvent>, j: int, t: real)
    requires WellFormed(tl) && 0 <= j < |tl|
    requires tl[j].start <= t < tl[j].End()
    ensures VisemeAt(tl, t) == tl[j].viseme
    decreases j
  {
    if j > 0 {
      EndsBeforeLaterStarts(tl, 0, j);
      assert WellFormed(tl[1..]);
      VisemeAtCovering(tl[1..], j - 1, t);
    }
  }

  /** From the end of a well-formed timeline on, the scan passes over all of it. */
  lemma {:induction false} VisemeAtPastEnd(tl: seq<VisemeEvent>, rest: seq<VisemeEvent>, t: real)
    requires WellFormed(tl) && |tl| > 0 && t >= EndTime(tl)
    ensures VisemeAt(tl + rest, t) == VisemeAt(rest, t)
    decreases |tl|
  {
    if |tl| > 1 {
      EndsBeforeLaterStarts(tl, 0, |tl| - 1);
      assert (tl + rest)[1..] == tl[1..] + rest;
      assert WellFormed(tl[1..]);
      VisemeAtPastEnd(tl[1..], rest, t);
    } else {
      assert (tl + rest)[1..] == rest;
    }
  }

  /** Before the end of a well-formed timeline, what follows it is never reached. */
  lemma {:induction false} VisemeAtBeforeEnd(tl: seq<VisemeEvent>, rest: seq<VisemeEvent>, t: real)
    requires WellFormed(tl) && |tl| > 0 && t < EndTime(tl)
    ensures VisemeAt(tl + rest, t) == VisemeAt(tl, t)
    decreases |tl|
  {
    assert (tl + rest)[0] == tl[0];
    if t >= tl[0].End() {
      assert |tl| > 1;
      assert (tl + rest)[1..] == tl[1..] + rest;
      assert WellFormed(tl[1..]);
      VisemeAtBeforeEnd(tl[1..], rest, t);
    }
  }

  lemma {:induction false} AbsorbBeforeEnd(m: seq<VisemeEvent>, e: VisemeEvent, t: real)
    requires WellFormed(m) && |m| > 0 && e.duration > 0.0 && e.start == EndTime(m)
    requires t < EndTime(m)
    ensures VisemeAt(Absorb(m, e), t) == VisemeAt(m, t)
  {
    var n := |m|;
    if m[n - 1].viseme == e.viseme {
      var last := m[n - 1];
      var last' := last.(duration := last.duration + e.duration);
      var q := m[..n - 1];
      assert m == q + [last];
      if n > 1 {
        assert WellFormed(q);
        if t < EndTime(q) {
          VisemeAtBeforeEnd(q, [last'], t);
          VisemeAtBeforeEnd(q, [last], t);
        } else {
          VisemeAtPastEnd(q, [last'], t);
          VisemeAtPastEnd(q, [last], t);
        }
      }
    } else {
      VisemeAtBeforeEnd(m, [e], t);
    }
  }

  lemma {:induction false} AbsorbPastEnd(m: seq<VisemeEvent>, e: VisemeEvent, t: real)
    requires WellFormed(m) && |m| > 0 && e.duration > 0.0 && e.start == EndTime(m)
    requires t >= EndTime(m)
    ensures VisemeAt(Absorb(m, e), t) == VisemeAt([e], t)
  {
    var n := |m|;
    if m[n - 1].viseme == e.viseme {
      var last := m[n - 1];
      var last' := last.(duration := last.duration + e.duration);
      var q := m[..n - 1];
      if n > 1 {
        assert WellFormed(q);
        VisemeAtPastEnd(q, [last'], t);
      }
    } else {
      VisemeAtPastEnd(m, [e], t);
    }
  }

  /** Merging never changes which viseme is showing at any instant. */
  lemma {:induction false} MergePreservesVisemeAt(es: seq<VisemeEvent>, t: real)
    requires WellFormed(es)
    ensures VisemeAt(Merge(es), t) == VisemeAt(es, t)
    decreases |es|
  {
    if |es| > 1 {
      var p := es[..|es| - 1];
      var e := es[|es| - 1];
      assert es == p + [e];
      assert WellFormed(p);
      MergePreservesVisemeAt(p, t);
      MergeShape(p);
      if t < EndTime(p) {
        VisemeAtBeforeEnd(p, [e], t);
        AbsorbBeforeEnd(Merge(p), e, t);
      } else {
        VisemeAtPastEnd(p, [e], t);
        AbsorbPastEnd(Merge(p), e, t);
      }
    } else if |es| == 1 {
      assert Merge(es) == es;
    }
  }

  /** The position of the character being spoken `t` milliseconds into the utterance: `floor(t * rate / 80)`. */
  function SpokenIndex(t: real, rate: real): int {
    (t * rate / 80.0).Floor
  }

  lemma {:induction false} ScaleCancel(a: real, b: real, base: real)
    requires base > 0.0 && a * base < b * base
    ensures a < b
  {
    assert (b - a) * base > 0.0;
  }

  /** Inside the slot of character `k`, the merged timeline shows that character's viseme. */
  lemma {:induction false} VisemeAtCharacter(text: string, rate: real, k: int, t: real)
    requires rate > 0.0 && 0 <= k < |text|
    requires SlotStart(k, FrameDuration(rate)) <= t < SlotStart(k + 1, FrameDuration(rate))
    ensures VisemeAt(GenerateVisemeTimeline(text, rate), t) == GetViseme(text[k])
  {
    var base := FrameDuration(rate);
    var raw := RawFrom(text, 0, base);
    RawShape(text, 0, base);
    SlotStep(k + 1, base);
    VisemeAtCovering(raw, k, t);
    MergePreservesVisemeAt(raw, t);
  }

  /**
   * For every offset `t` inside the utterance, the merged timeline shows the
   * viseme of character `floor(t * rate / 80)`.
   */
  lemma {:induction false} VisemeAtInstant(text: string, rate: real, t: real)
    requires rate > 0.0
    requires 0.0 <= t < SlotStart(|text|, FrameDuration(rate))
    ensures 0 <= SpokenIndex(t, rate) < |text|
    ensures VisemeAt(GenerateVisemeTimeline(text, rate), t) == GetViseme(text[SpokenIndex(t, rate)])
  {
    var base := FrameDuration(rate);
    var x := t * rate / 80.0;
    var k := SpokenIndex(t, rate);
    assert x * base == t by {
      assert base * rate == 80.0;
      calc {
        x * base;
        (t * rate / 80.0) * base;
        t * (base * rate) / 80.0;
        t;
      }
    }
    assert (k as real) <= x < (k as real) + 1.0;
    assert (k as real) * base <= t by {
      assert (k as real) * base <= x * base;
    }
    assert t < ((k + 1) as real) * base by {
      assert x * base < ((k as real) + 1.0) * base;
    }
    assert 0 <= k by {
      assert x >= 0.0;
    }
    assert x < |text| as real by {
      ScaleCancel(x, |text| as real, base);
    }
    VisemeAtCharacter(text, rate, k, t);
  }
}
