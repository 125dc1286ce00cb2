/** The timer table of drivers/clock/clock.cpp as values, and what timers promise over whole runs. */
module ClockLaws {

  const MAX_TIMERS := 10
  const FREQUENCY := 1000

  type Callback = nat

  /** timer_event_t; the tag counts creations, and tells timers apart that share a slot or a callback. */
  datatype Timer = Timer(delay: nat, active: bool, callback: Callback, tag: nat)

  /** A callback that ran, for which timer, and the tick on which it did. */
  datatype Firing = Firing(tick: nat, tag: nat, callback: Callback)

  datatype Clock = Clock(ticks: nat, timers: seq<Timer>, created: nat, log: seq<Firing>)

  predicate Due(t: Timer, now: nat) {
    t.active && now >= t.delay
  }

  function Expire(t: Timer, now: nat): Timer {
    if Due(t, now) then t.(active := false) else t
  }

  function FiringOf(t: Timer, now: nat): seq<Firing> {
    if Due(t, now) then [Firing(now, t.tag, t.callback)] else []
  }

  /** The first n slots after the handler's loop, and the callbacks it ran for them, in slot order. */
  function Expired(timers: seq<Timer>, now: nat, n: nat): seq<Timer>
    requires n <= |timers|
  {
    seq(|timers|, i requires 0 <= i < |timers| => if i < n then Expire(timers[i], now) else timers[i])
  }

  function Fired(timers: seq<Timer>, now: nat, n: nat): seq<Firing>
    requires n <= |timers|
  {
    if n == 0 then [] else Fired(timers, now, n - 1) + FiringOf(timers[n - 1], now)
  }

  lemma ExpiredStep(timers: seq<Timer>, now: nat, n: nat)
    requires n < |timers|
    ensures Expired(timers, now, n)[n] == timers[n]
    ensures Fired(timers, now, n + 1) == Fired(timers, now, n) + FiringOf(timers[n], now)
    ensures Expired(timers, now, n + 1) ==
            if Due(timers[n], now) then Expired(timers, now, n)[n := timers[n].(active := false)] else Expired(timers, now, n)
  {
  }

  lemma NothingExpired(timers: seq<Timer>, now: nat)
    ensures Expired(timers, now, 0) == timers
  {
  }

  /** generic_timer_handler, for callbacks that leave the table alone */
  function Tick(c: Clock): Clock {
    var now := c.ticks + 1;
    Clock(now, Expired(c.timers, now, |c.timers|), c.created, c.log + Fired(c.timers, now, |c.timers|))
  }

  function FirstInactive(timers: seq<Timer>): (i: nat)
    ensures i <= |timers| && (i < |timers| ==> !timers[i].active)
    ensures forall j :: 0 <= j < i ==> timers[j].active
  {
    if timers == [] || !timers[0].active then 0 else 1 + FirstInactive(timers[1..])
  }

  /** clock_create_timer between two ticks; a full table takes nothing. */
  function Create(c: Clock, ms: nat, callback: Callback): Clock {
    var i := FirstInactive(c.timers);
    if i < |c.timers| then
      c.(timers := c.timers[i := Timer(c.ticks + ms, true, callback, c.created)], created := c.created + 1)
    else
      c
  }

  /** clock_destroy_timer */
  function Destroy(c: Clock, id: int): Clock {
    if 0 <= id < MAX_TIMERS && id < |c.timers| then
      c.(timers := c.timers[id := c.timers[id].(active := false)])
    else
      c
  }

  // ---------------------------------------------------------------- runs

  datatype Event = TimerTick | CreateTimer(ms: nat, callback: Callback) | DestroyTimer(id: int)

  function Apply(c: Clock, e: Event): Clock {
    match e
    case TimerTick => Tick(c)
    case CreateTimer(ms, callback) => Create(c, ms, callback)
    case DestroyTimer(id) => Destroy(c, id)
  }

  function Run(c: Clock, es: seq<Event>): Clock
    decreases |es|
  {
    if es == [] then c else Run(Apply(c, es[0]), es[1..])
  }

  /** Tags tell the slots apart, and whoever is created next from everything before. */
  predicate Tagged(c: Clock) {
    && (forall i :: 0 <= i < |c.timers| ==> c.timers[i].tag < c.created)
    && (forall i, j :: 0 <= i < j < |c.timers| ==> c.timers[i].tag != c.timers[j].tag)
    && forall f <- c.log :: f.tag < c.created
  }

  lemma {:induction false} FiredTags(timers: seq<Timer>, now: nat, n: nat, created: nat)
    requires n <= |timers| && forall i :: 0 <= i < |timers| ==> timers[i].tag < created
    ensures forall f <- Fired(timers, now, n) :: f.tag < created
  {
    if n > 0 {
      FiredTags(timers, now, n - 1, created);
    }
  }

  lemma {:induction false} RunKeepsTags(c: Clock, es: seq<Event>)
    requires Tagged(c)
    ensures Tagged(Run(c, es)) && Run(c, es).ticks >= c.ticks
    decreases |es|
  {
    hide Tagged, Apply;
    if es != [] {
      ApplyKeepsTags(c, es[0]);
      RunKeepsTags(Apply(c, es[0]), es[1..]);
    }
  }

  lemma ApplyKeepsTags(c: Clock, e: Event)
    requires Tagged(c)
    ensures Tagged(Apply(c, e)) && Apply(c, e).ticks >= c.ticks
  {
    if e.TimerTick? {
      FiredTags(c.timers, c.ticks + 1, |c.timers|, c.created);
    }
  }

  /** The firings of one timer */
  function Runs(log: seq<Firing>, tag: nat): seq<Firing> {
    if log == [] then []
    else Runs(log[..|log| - 1], tag) + if log[|log| - 1].tag == tag then [log[|log| - 1]] else []
  }

  lemma {:induction false} RunsAppend(a: seq<Firing>, b: seq<Firing>, tag: nat)
    ensures Runs(a + b, tag) == Runs(a, tag) + Runs(b, tag)
  {
    if b == [] {
      assert a + b == a;
    } else {
      RunsAppend(a, b[..|b| - 1], tag);
      assert (a + b)[..|a + b| - 1] == a + b[..|b| - 1];
    }
  }

  lemma {:induction false} NoRuns(log: seq<Firing>, tag: nat)
    requires forall f <- log :: f.tag != tag
    ensures Runs(log, tag) == []
  {
    if log != [] {
      assert log[|log| - 1] in log;
      NoRuns(log[..|log| - 1], tag);
    }
  }

  /** No slot but i holds an active timer with the tag; i need not be a slot. */
  predicate OnlySlot(timers: seq<Timer>, i: nat, tag: nat) {
    forall j :: 0 <= j < |timers| && j != i && timers[j].active ==> timers[j].tag != tag
  }

  lemma OneRun(t: Timer, now: nat, tag: nat)
    ensures Runs(FiringOf(t, now), tag) == if t.tag == tag then FiringOf(t, now) else []
  {
    if Due(t, now) {
      assert FiringOf(t, now)[..0] == [];
    }
  }

  /** What one tick runs of a timer that only slot i can hold. */
  lemma {:induction false} FiredRuns(timers: seq<Timer>, now: nat, n: nat, i: nat, tag: nat)
    requires n <= |timers| && OnlySlot(timers, i, tag)
    ensures Runs(Fired(timers, now, n), tag) == if i < n && timers[i].tag == tag then FiringOf(timers[i], now) else []
  {
    hide Runs;
    if n > 0 {
      FiredRuns(timers, now, n - 1, i, tag);
      RunsAppend(Fired(timers, now, n - 1), FiringOf(timers[n - 1], now), tag);
      OneRun(timers[n - 1], now, tag);
    } else {
      NoRuns([], tag);
    }
  }

  lemma TickRuns(c: Clock, i: nat, tag: nat)
    requires OnlySlot(c.timers, i, tag)
    ensures OnlySlot(Tick(c).timers, i, tag)
    ensures Runs(Tick(c).log, tag)
            == Runs(c.log, tag)
               + if i < |c.timers| && c.timers[i].tag == tag then FiringOf(c.timers[i], c.ticks + 1) else []
  {
    hide Runs, Fired;
    FiredRuns(c.timers, c.ticks + 1, |c.timers|, i, tag);
    RunsAppend(c.log, Fired(c.timers, c.ticks + 1, |c.timers|), tag);
  }

  // ---------------------------------------------------------------- exactly once, on time

  /** No slot holds the timer any more, and it will not come back. */
  predicate Gone(c: Clock, tag: nat) {
    tag < c.created && OnlySlot(c.timers, |c.timers|, tag)
  }

  lemma {:induction false} GoneForever(c: Clock, es: seq<Event>, tag: nat)
    requires Gone(c, tag)
    ensures Runs(Run(c, es).log, tag) == Runs(c.log, tag) && Run(c, es).ticks >= c.ticks
    decreases |es|
  {
    hide Runs;
    if es != [] {
      if es[0].TimerTick? {
        TickRuns(c, |c.timers|, tag);
      }
      GoneForever(Apply(c, es[0]), es[1..], tag);
    }
  }

  /** The timer is armed in slot i and will be found due on the tick `deadline`. */
  predicate Armed(c: Clock, i: nat, t: Timer, deadline: nat) {
    && i < |c.timers| && c.timers[i] == t && t.active && t.tag < c.created
    && OnlySlot(c.timers, i, t.tag)
    && c.ticks < deadline && (t.delay == deadline || (t.delay <= c.ticks && deadline == c.ticks + 1))
  }

  /** The events do not destroy the timer of slot i before the tick `deadline`. */
  predicate Spared(now: nat, deadline: nat, i: nat, es: seq<Event>)
    decreases |es|
  {
    || es == [] || now >= deadline
    || (es[0] != DestroyTimer(i) && Spared(if es[0].TimerTick? then now + 1 else now, deadline, i, es[1..]))
  }

  /** Whatever other timers come and go: an armed timer that is spared runs once, on its tick; another one never. */
  lemma {:induction false} RunOnTime(c: Clock, es: seq<Event>, i: nat, t: Timer, deadline: nat)
    requires Armed(c, i, t, deadline) && i < MAX_TIMERS
    ensures var end := Run(c, es);
            Runs(end.log, t.tag)
            == Runs(c.log, t.tag)
               + if Spared(c.ticks, deadline, i, es) && end.ticks >= deadline then [Firing(deadline, t.tag, t.callback)] else []
    decreases |es|
  {
    hide Runs;
    if es != [] {
      var d, rest := Apply(c, es[0]), es[1..];
      if es[0].TimerTick? {
        TickRuns(c, i, t.tag);
        if deadline == d.ticks {
          GoneForever(d, rest, t.tag);
        } else {
          RunOnTime(d, rest, i, t, deadline);
        }
      } else if es[0] == DestroyTimer(i) {
        GoneForever(d, rest, t.tag);
      } else {
        RunOnTime(d, rest, i, t, deadline);
      }
    }
  }

  /**
   * A timer created at tick t for ms milliseconds runs exactly once, on tick t + max(ms, 1), if it is not
   * destroyed before, and never if it is: whatever other timers come and go, in its slot, too, and with its
   * callback.
   */
  lemma FiresExactlyOnce(c: Clock, ms: nat, callback: Callback, es: seq<Event>)
    requires Tagged(c) && FirstInactive(c.timers) < |c.timers| <= MAX_TIMERS
    ensures var deadline := c.ticks + if ms == 0 then 1 else ms;
            var end := Run(Create(c, ms, callback), es);
            Runs(end.log, c.created)
            == if Spared(c.ticks, deadline, FirstInactive(c.timers), es) && end.ticks >= deadline
               then [Firing(deadline, c.created, callback)] else []
  {
    hide Runs;
    var i, deadline := FirstInactive(c.timers), c.ticks + if ms == 0 then 1 else ms;
    NoRuns(c.log, c.created);
    RunOnTime(Create(c, ms, callback), es, i, Timer(c.ticks + ms, true, callback, c.created), deadline);
  }

  // ---------------------------------------------------------------- creation against the interrupt

  function Ticks(c: Clock, n: nat): Clock {
    if n == 0 then c else Tick(Ticks(c, n - 1))
  }

  lemma {:induction false} TicksOnSlot(c: Clock, n: nat, i: nat)
    requires i < |c.timers|
    ensures Ticks(c, n).ticks == c.ticks + n && |Ticks(c, n).timers| == |c.timers| && Ticks(c, n).created == c.created
    ensures Ticks(c, n).timers[i] == if n > 0 then Expire(c.timers[i], c.ticks + n) else c.timers[i]
  {
    if n > 0 {
      TicksOnSlot(c, n - 1, i);
    }
  }

  function SetSlot(c: Clock, i: nat, t: Timer): Clock
    requires i < |c.timers|
  {
    c.(timers := c.timers[i := t])
  }

  /** clock_create_timer up to the store of the delay, with j ticks after the time was read. */
  function DelayStored(c: Clock, i: nat, ms: nat, j: nat): (d: Clock)
    requires i < |c.timers|
    ensures |d.timers| == |c.timers|
  {
    TicksOnSlot(c, j, i);
    SetSlot(Ticks(c, j), i, Ticks(c, j).timers[i].(delay := c.ticks + ms))
  }

  /** k ticks later the slot is made active. */
  function ActiveStored(c: Clock, i: nat, ms: nat, j: nat, k: nat): (d: Clock)
    requires i < |c.timers|
    ensures |d.timers| == |c.timers|
  {
    var s := DelayStored(c, i, ms, j);
    TicksOnSlot(s, k, i);
    SetSlot(Ticks(s, k), i, Ticks(s, k).timers[i].(active := true))
  }

  /** l ticks later the callback is stored, and the slot is the new timer's. */
  function CreateSlowly(c: Clock, i: nat, ms: nat, callback: Callback, j: nat, k: nat, l: nat): (end: Clock)
    requires i < |c.timers|
    ensures |end.timers| == |c.timers|
  {
    var s := ActiveStored(c, i, ms, j, k);
    TicksOnSlot(s, l, i);
    var d := Ticks(s, l);
    SetSlot(d, i, d.timers[i].(callback := callback, tag := d.created)).(created := d.created + 1)
  }

  /** The slot when it has been made active: the new delay, the old callback. */
  lemma HalfCreated(c: Clock, i: nat, ms: nat, j: nat, k: nat)
    requires i < |c.timers| && !c.timers[i].active
    ensures var s := ActiveStored(c, i, ms, j, k);
            && s.ticks == c.ticks + j + k && s.created == c.created
            && s.timers[i] == c.timers[i].(delay := c.ticks + ms, active := true)
  {
    hide Ticks;
    TicksOnSlot(c, j, i);
    TicksOnSlot(DelayStored(c, i, ms, j), k, i);
  }

  /**
   * The slot ends up armed with its own callback exactly unless a tick between the last two stores finds
   * the delay passed.
   */
  lemma SlowCreationArmsIff(c: Clock, i: nat, ms: nat, callback: Callback, j: nat, k: nat, l: nat)
    requires i < |c.timers| && !c.timers[i].active
    ensures var end := CreateSlowly(c, i, ms, callback, j, k, l);
            end.timers[i] == Timer(c.ticks + ms, true, callback, c.created) <==> !(l > 0 && j + k + l >= ms)
  {
    hide Ticks, ActiveStored;
    HalfCreated(c, i, ms, j, k);
    TicksOnSlot(ActiveStored(c, i, ms, j, k), l, i);
  }

  /** What n ticks run of a timer that only slot i can hold. */
  lemma {:induction false} TicksRuns(c: Clock, n: nat, i: nat, tag: nat)
    requires i < |c.timers| && OnlySlot(c.timers, i, tag) && c.timers[i].tag == tag
    ensures OnlySlot(Ticks(c, n).timers, i, tag)
    ensures var t := c.timers[i];
            Runs(Ticks(c, n).log, tag)
            == Runs(c.log, tag)
               + if n > 0 && t.active && c.ticks + n >= t.delay
                 then [Firing(if t.delay > c.ticks then t.delay else c.ticks + 1, tag, t.callback)] else []
  {
    hide OnlySlot, Tick, Runs;
    if n > 0 {
      TicksRuns(c, n - 1, i, tag);
      TicksOnSlot(c, n - 1, i);
      TickRuns(Ticks(c, n - 1), i, tag);
    }
  }

  lemma TagsApart(c: Clock, i: nat)
    requires Tagged(c) && i < |c.timers|
    ensures OnlySlot(c.timers, i, c.timers[i].tag)
  {
  }

  lemma SlotStored(c: Clock, i: nat, t: Timer, tag: nat)
    requires i < |c.timers| && OnlySlot(c.timers, i, tag)
    ensures OnlySlot(SetSlot(c, i, t).timers, i, tag) && SetSlot(c, i, t).log == c.log
  {
  }

  /** Up to the store of `active` the slot's old timer is not run. */
  lemma OldTimerRests(c: Clock, i: nat, ms: nat, j: nat, k: nat)
    requires Tagged(c) && i < |c.timers| && !c.timers[i].active
    ensures var s, tag := ActiveStored(c, i, ms, j, k), c.timers[i].tag;
            Runs(s.log, tag) == Runs(c.log, tag) && OnlySlot(s.timers, i, tag)
  {
    hide Runs, OnlySlot, Ticks, Tagged;
    var tag, d := c.timers[i].tag, DelayStored(c, i, ms, j);
    TagsApart(c, i);
    TicksOnSlot(c, j, i);
    TicksRuns(c, j, i, tag);
    SlotStored(Ticks(c, j), i, d.timers[i], tag);
    TicksOnSlot(d, k, i);
    TicksRuns(d, k, i, tag);
    SlotStored(Ticks(d, k), i, ActiveStored(c, i, ms, j, k).timers[i], tag);
  }

  /**
   * That tick runs the callback that the slot held before, for a timer that has had its turn or was
   * destroyed; and it is the only such run.
   */
  lemma SlowCreationRunsOldCallbackIff(c: Clock, i: nat, ms: nat, callback: Callback, j: nat, k: nat, l: nat)
    requires Tagged(c) && i < |c.timers| && !c.timers[i].active
    ensures var t := c.timers[i];
            var first := if ms > j + k then c.ticks + ms else c.ticks + j + k + 1;
            Runs(CreateSlowly(c, i, ms, callback, j, k, l).log, t.tag)
            == Runs(c.log, t.tag) + if l > 0 && j + k + l >= ms then [Firing(first, t.tag, t.callback)] else []
  {
    hide Runs, OnlySlot, Ticks, Tagged, ActiveStored;
    var s, tag := ActiveStored(c, i, ms, j, k), c.timers[i].tag;
    HalfCreated(c, i, ms, j, k);
    OldTimerRests(c, i, ms, j, k);
    TicksOnSlot(s, l, i);
    TicksRuns(s, l, i, tag);
  }
}
