/**
 * The speech-bubble queue: bubbles wait in a first-in first-out queue and are
 * shown one at a time, each for its own duration; when the last bubble of an
 * active conversation expires, the conversation is reported finished.
 *
 * The game clock is an integer parameter of the tick, and the floating-point
 * durations are integers. Showing a bubble on the map is recorded as the
 * bubble the tick returns and in the ghost history `shown`.
 *
 * `Tick` is the specification of one tick, and the four lemmas after it are the
 * per-tick facts the tick promises, one per branch. The facts about many ticks
 * are `RunShowsInQueueOrder` (first in, first out) and `FinishesAtMostOnce`;
 * with enqueues between ticks, first in, first out is the class invariant `Valid`.
 */
module Speech {
  import opened Options
  import opened Verse

  /** One line of speech: who says it, what, and for how long it stays visible. */
  datatype SpeechBubble = SpeechBubble(speaker: Pawn, text: string, duration: int)

  /** The state one tick reads and writes: the waiting bubbles and the display flags. */
  datatype Display = Display(queue: seq<SpeechBubble>, visible: bool, endTime: int, active: bool)

  /** The state after a tick, whether the conversation finished in it, and the bubble it put up, if any. */
  datatype TickResult = TickResult(after: Display, finished: bool, shownBubble: Option<SpeechBubble>)

  /** One tick at time `now`: expiry of the visible bubble first, then showing the next one. */
  function Tick(d: Display, now: int): (r: TickResult)
    ensures (if r.shownBubble.Some? then [r.shownBubble.value] else []) + r.after.queue == d.queue
    ensures r.shownBubble.Some? ==> r.after.visible
    ensures r.finished ==> d.active && !r.after.active
    ensures !d.active ==> !r.after.active
  {
    var expired := d.visible && now >= d.endTime;
    var finished := expired && d.queue == [] && d.active;
    var visible := d.visible && !expired;
    var active := d.active && !finished;
    if !visible && d.queue != [] then
      TickResult(Display(d.queue[1..], true, now + d.queue[0].duration, active), finished, Some(d.queue[0]))
    else
      TickResult(Display(d.queue, visible, d.endTime, active), finished, None)
  }

  /** A visible bubble whose end time has not come stays up, and nothing else happens. */
  lemma VisibleBubbleStays(d: Display, now: int)
    requires d.visible && now < d.endTime
    ensures Tick(d, now) == TickResult(d, false, None)
  {
  }

  /**
   * A visible bubble whose end time has come is hidden, and in the same tick the
   * next queued bubble, if there is one, takes its place.
   */
  lemma ExpiredBubbleReplaced(d: Display, now: int)
    requires d.visible && now >= d.endTime
    ensures var r := Tick(d, now);
            (r.after.visible <==> d.queue != [])
            && (d.queue != [] ==> r.shownBubble == Some(d.queue[0]) && r.after.endTime == now + d.queue[0].duration)
  {
  }

  /**
   * The conversation finishes exactly when a bubble has just expired, nothing
   * is waiting and a conversation was active; finishing clears the active flag.
   */
  lemma FinishedWhenLastBubbleExpires(d: Display, now: int)
    ensures var r := Tick(d, now);
            (r.finished <==> d.visible && now >= d.endTime && d.queue == [] && d.active)
            && r.after.active == (d.active && !r.finished)
  {
  }

  /**
   * A bubble is taken off the queue exactly when none is visible after expiry and
   * one is waiting; it is the front bubble, and it stays up for its duration.
   * Otherwise the queue and the end time are untouched.
   */
  lemma ShowsFrontWhenIdle(d: Display, now: int)
    ensures var r := Tick(d, now);
            var idle := !(d.visible && now < d.endTime);
            if idle && d.queue != [] then
              r.shownBubble == Some(d.queue[0]) && r.after.queue == d.queue[1..]
              && r.after.visible && r.after.endTime == now + d.queue[0].duration
            else
              r.shownBubble == None && r.after.queue == d.queue && r.after.endTime == d.endTime
              && r.after.visible == (d.visible && now < d.endTime)
  {
  }

  /** What a run of ticks did: the final state, the bubbles put up in order, and how often the conversation finished. */
  datatype RunResult = RunResult(final: Display, shown: seq<SpeechBubble>, finishes: nat)

  /** Ticks at the given times, one after the other, with nothing enqueued in between. */
  function Run(d: Display, times: seq<int>): (r: RunResult)
    decreases |times|
  {
    if times == [] then RunResult(d, [], 0)
    else
      var t := Tick(d, times[0]);
      var rest := Run(t.after, times[1..]);
      RunResult(rest.final,
                (if t.shownBubble.Some? then [t.shownBubble.value] else []) + rest.shown,
                (if t.finished then 1 else 0) + rest.finishes)
  }

  /** Over any run of ticks bubbles are put up in queue order: what was shown, then what still waits, is the queue. */
  lemma {:induction false} RunShowsInQueueOrder(d: Display, times: seq<int>)
    decreases |times|
    ensures Run(d, times).shown + Run(d, times).final.queue == d.queue
  {
    if times != [] {
      var t := Tick(d, times[0]);
      RunShowsInQueueOrder(t.after, times[1..]);
      if t.shownBubble.Some? {
        assert [d.queue[0]] + d.queue[1..] == d.queue;
      }
    }
  }

  /** An active conversation is reported finished at most once, and an inactive one never. */
  lemma {:induction false} FinishesAtMostOnce(d: Display, times: seq<int>)
    decreases |times|
    ensures Run(d, times).finishes <= (if d.active then 1 else 0)
  {
    if times != [] {
      var t := Tick(d, times[0]);
      FinishesAtMostOnce(t.after, times[1..]);
    }
  }

  /** Once finished, the conversation stays inactive however many ticks follow. */
  lemma {:induction false} InactiveStaysInactive(d: Display, times: seq<int>)
    decreases |times|
    requires !d.active
    ensures !Run(d, times).final.active && Run(d, times).finishes == 0
  {
    if times != [] {
      InactiveStaysInactive(Tick(d, times[0]).after, times[1..]);
    }
  }

  /** The bubble queue and its display state; a single instance stands for the static fields. */
  class SpeechBubbleManager {
    var speechBubbleQueue: seq<SpeechBubble>
    var isBubbleVisible: bool
    var bubbleEndTime: int
    var isConversationActive: bool

    /** Every bubble ever enqueued, and every bubble ever shown, in order. */
    ghost var enqueued: seq<SpeechBubble>
    ghost var shown: seq<SpeechBubble>

    /** The fields a tick reads and writes. */
    function State(): Display
      reads this
    {
      Display(speechBubbleQueue, isBubbleVisible, bubbleEndTime, isConversationActive)
    }

    /** Bubbles are shown in the order they were enqueued: what was shown, then what waits, is all that was enqueued. */
    ghost predicate Valid()
      reads this
    {
      enqueued == shown + speechBubbleQueue
    }

    constructor ()
      ensures speechBubbleQueue == [] && !isBubbleVisible && bubbleEndTime == 0 && !isConversationActive
      ensures enqueued == [] && shown == []
      ensures Valid()
    {
      speechBubbleQueue := [];
      isBubbleVisible := false;
      bubbleEndTime := 0;
      isConversationActive := false;
      enqueued := [];
      shown := [];
    }

    /** Puts a new bubble with exactly the given speaker, text and duration at the back of the queue. */
    method Enqueue(speaker: Pawn, text: string, duration: int)
      modifies this
      ensures speechBubbleQueue == old(speechBubbleQueue) + [SpeechBubble(speaker, text, duration)]
      ensures isBubbleVisible == old(isBubbleVisible) && bubbleEndTime == old(bubbleEndTime)
      ensures isConversationActive == old(isConversationActive)
      ensures enqueued == old(enqueued) + [SpeechBubble(speaker, text, duration)] && shown == old(shown)
      ensures old(Valid()) ==> Valid()
    {
      speechBubbleQueue := speechBubbleQueue + [SpeechBubble(speaker, text, duration)];
      enqueued := enqueued + [SpeechBubble(speaker, text, duration)];
    }

    /**
     * One game tick at time `now`. First a visible bubble whose end time has come
     * is hidden, and if that leaves the queue empty during an active conversation,
     * the conversation ends and `finished` reports it. Then, if no bubble is
     * visible, the front bubble is taken off the queue and shown until
     * `now + duration`; `shownBubble` is that bubble.
     */
    method GameComponentTick(now: int) returns (finished: bool, shownBubble: Option<SpeechBubble>)
      modifies this
      ensures TickResult(State(), finished, shownBubble) == Tick(old(State()), now)
      ensures shown == old(shown) + (if shownBubble.Some? then [shownBubble.value] else [])
      ensures enqueued == old(enqueued)
      ensures old(Valid()) ==> Valid()
    {
      finished := false;
      shownBubble := None;

      if isBubbleVisible && now >= bubbleEndTime {
        isBubbleVisible := false;
        if |speechBubbleQueue| == 0 && isConversationActive {
          isConversationActive := false;
          finished := true;
        }
      }

      if !isBubbleVisible && |speechBubbleQueue| > 0 {
        var bubble := speechBubbleQueue[0];
        speechBubbleQueue := speechBubbleQueue[1..];
        shown := shown + [bubble];
        isBubbleVisible := true;
        bubbleEndTime := now + bubble.duration;
        shownBubble := Some(bubble);
      }
    }
  }
}
