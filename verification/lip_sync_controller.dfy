/**
 * The animation-frame scheduler that plays a viseme timeline. The clock
 * (`performance.now`) and the frame ids handed out by `requestAnimationFrame`
 * are parameters; each operation returns the controller's next state together
 * with what it reports to its `onVisemeChange` listener.
 */
module LipSyncController {

  import opened Wrappers
  import opened LipSync

  /** `rafId` is the id of the last frame requested, `None` once `stop` cleared it. */
  datatype Controller = Controller(timeline: seq<VisemeEvent>, running: bool, startTime: real, rafId: Option<nat>)

  /** What one tick did: the report to the listener, if any, and the frame it requested, if any. */
  datatype TickOutcome = TickOutcome(controller: Controller, report: Option<Viseme>, requested: Option<nat>)

  /** What `stop` did: it always reports silence and cancels the frame it held, if any. */
  datatype StopOutcome = StopOutcome(controller: Controller, report: Viseme, cancelled: Option<nat>)

  function Create(timeline: seq<VisemeEvent>): (c: Controller)
    ensures c.timeline == timeline && !c.running && c.rafId.None?
  {
    Controller(timeline, false, 0.0, None)
  }

  /** `start` at clock value `now`: run from `now` and request frame `frame`. */
  function Start(c: Controller, now: real, frame: nat): (c': Controller)
    ensures c'.running && c'.startTime == now && c'.rafId == Some(frame)
    ensures c'.timeline == c.timeline
  {
    c.(running := true, startTime := now, rafId := Some(frame))
  }

  /**
   * One animation frame at clock value `now`; `frame` is the id the browser
   * would hand out for a further request.
   */
  function Tick(c: Controller, now: real, frame: nat): (o: TickOutcome)
    ensures !c.running ==> o == TickOutcome(c, None, None)
    ensures c.running ==> o.report.Some?
    ensures o.controller.timeline == c.timeline && o.controller.running == c.running
    ensures o.controller.startTime == c.startTime
    ensures o.requested.Some? ==> o.requested == Some(frame) && o.controller.rafId == o.requested
    ensures o.requested.None? ==> o.controller == c
  {
    if !c.running then TickOutcome(c, None, None)
    else
      var elapsed := now - c.startTime;
      var current := VisemeAt(c.timeline, elapsed);
      if |c.timeline| > 0 && elapsed > EndTime(c.timeline) then TickOutcome(c, Some(Sil), None)
      else TickOutcome(c.(rafId := Some(frame)), Some(current), Some(frame))
  }

  function Stop(c: Controller): (o: StopOutcome)
    ensures !o.controller.running && o.controller.rafId.None? && o.report == Sil
    ensures o.cancelled == c.rafId
    ensures o.controller.timeline == c.timeline && o.controller.startTime == c.startTime
  {
    StopOutcome(c.(running := false, rafId := None), Sil, c.rafId)
  }

  /** Inside an event, a tick reports that event's viseme and asks for another frame. */
  lemma {:induction false} TickInsideEvent(c: Controller, now: real, frame: nat, j: int)
    requires c.running && WellFormed(c.timeline) && 0 <= j < |c.timeline|
    requires c.timeline[j].start <= now - c.startTime < c.timeline[j].End()
    ensures Tick(c, now, frame).report == Some(c.timeline[j].viseme)
    ensures Tick(c, now, frame).requested == Some(frame)
  {
    VisemeAtCovering(c.timeline, j, now - c.startTime);
    if j < |c.timeline| - 1 {
      EndsBeforeLaterStarts(c.timeline, j, |c.timeline| - 1);
    }
  }

  /** Strictly after the last event ends, a tick reports silence and schedules nothing. */
  lemma {:induction false} TickPastEnd(c: Controller, now: real, frame: nat)
    requires c.running && |c.timeline| > 0 && now - c.startTime > EndTime(c.timeline)
    ensures Tick(c, now, frame) == TickOutcome(c, Some(Sil), None)
  {
  }

  /** Exactly at the end of a well-formed timeline, a tick reports silence and keeps ticking. */
  lemma {:induction false} TickAtEnd(c: Controller, now: real, frame: nat)
    requires c.running && WellFormed(c.timeline) && |c.timeline| > 0
    requires now - c.startTime == EndTime(c.timeline)
    ensures Tick(c, now, frame).report == Some(Sil)
    ensures Tick(c, now, frame).requested == Some(frame)
  {
    VisemeAtPastEnd(c.timeline, [], now - c.startTime);
    assert c.timeline + [] == c.timeline;
  }

  /** A controller over an empty timeline never stops by itself: every tick reports silence and reschedules. */
  lemma {:induction false} EmptyTimelineNeverEnds(c: Controller, now: real, frame: nat)
    requires c.running && |c.timeline| == 0
    ensures Tick(c, now, frame) == TickOutcome(c.(rafId := Some(frame)), Some(Sil), Some(frame))
  {
  }

  /** `stop` is idempotent, reports silence every time, and a tick after it reports nothing. */
  lemma {:induction false} StopThenAnything(c: Controller, now: real, frame: nat)
    ensures var s := Stop(c).controller;
      Stop(s).controller == s && Stop(s).report == Sil && Stop(s).cancelled.None?
      && Tick(s, now, frame) == TickOutcome(s, None, None)
  {
  }

  /**
   * Played from `start`, the controller for a generated timeline reports, at
   * every tick inside the utterance, the viseme of the character being spoken.
   */
  lemma {:induction false} PlaysTextInSync(text: string, rate: real, startTime: real, first: nat, now: real, frame: nat)
    requires rate > 0.0
    requires 0.0 <= now - startTime < SlotStart(|text|, FrameDuration(rate))
    ensures var c := Start(Create(GenerateVisemeTimeline(text, rate)), startTime, first);
      var k := SpokenIndex(now - startTime, rate);
      0 <= k < |text| && Tick(c, now, frame) == TickOutcome(c.(rafId := Some(frame)), Some(GetViseme(text[k])), Some(frame))
  {
    var tl := GenerateVisemeTimeline(text, rate);
    var t := now - startTime;
    VisemeAtInstant(text, rate, t);
    NotPastEnd(text, rate, t);
    TickBeforeEnd(tl, startTime, first, now, frame);
  }

  /** Before the end of a non-empty timeline, a tick after `start` reports the scan's result and reschedules. */
  lemma {:induction false} TickBeforeEnd(tl: seq<VisemeEvent>, startTime: real, first: nat, now: real, frame: nat)
    requires |tl| > 0 && now - startTime <= EndTime(tl)
    ensures var c := Start(Create(tl), startTime, first);
      Tick(c, now, frame) == TickOutcome(c.(rafId := Some(frame)), Some(VisemeAt(tl, now - startTime)), Some(frame))
  {
  }

  lemma {:induction false} NotPastEnd(text: string, rate: real, t: real)
    requires rate > 0.0
    requires 0.0 <= t < SlotStart(|text|, FrameDuration(rate))
    ensures |GenerateVisemeTimeline(text, rate)| > 0
    ensures t < EndTime(GenerateVisemeTimeline(text, rate))
  {
    assert SlotStart(0, FrameDuration(rate)) == 0.0;
  }
}
