/** drivers/clock/clock.cpp: the tick counters and the timer table, changed in place. */
module ClockDriver {
  import opened ClockLaws

  class TimerTable {
    var ticks: nat
    var seconds: nat
    var divider: nat
    const timers: array<Timer>
    /** How many timers have been created; the zeroed slots count as the first ten. */
    var created: nat
    /** Whether callbacks leave the timer table alone. */
    const tame: bool
    /** The callbacks that the handler's loop has run. */
    ghost var log: seq<Firing>

    ghost predicate Valid()
      reads this, timers
    {
      timers.Length == MAX_TIMERS && ticks == FREQUENCY * seconds + divider && divider < FREQUENCY
    }

    ghost function Now(): Clock
      reads this, timers
    {
      Clock(ticks, timers[..], created, log)
    }

    /** init_clock; the statics are zero. */
    constructor (tame: bool)
      ensures Valid() && this.tame == tame && ticks == 0 && log == []
      ensures forall i :: 0 <= i < MAX_TIMERS ==> !timers[i].active
      ensures Tagged(Now()) && fresh(timers) && timers.Length == 10
    {
      ticks, seconds, divider := 0, 0, 0;
      timers := new Timer[MAX_TIMERS](i => Timer(0, false, 0, i));
      created := MAX_TIMERS;
      this.tame := tame;
      log := [];
    }

    /** generic_timer_handler */
    method Handler()
      requires Valid()
      modifies this, timers
      ensures Valid() && ticks == old(ticks) + 1 == 1000 * seconds + divider && divider < 1000
      ensures tame ==> Now() == Tick(old(Now()))
      ensures old(log) <= log && |log| <= |old(log)| + 10
    {
      hide Expired, FiringOf;
      NothingExpired(timers[..], ticks + 1);
      ticks := ticks + 1;
      divider := divider + 1;
      if FREQUENCY == divider {
        seconds := seconds + 1;
        divider := 0;
      }
      RunCallback();
      var now := ticks;
      ghost var before := timers[..];
      for i := 0 to MAX_TIMERS
        invariant Valid() && ticks == now == old(ticks) + 1
        invariant old(log) <= log && |log| <= |old(log)| + i
        invariant tame ==> created == old(created) && timers[..] == Expired(before, now, i)
        invariant tame ==> log == old(log) + Fired(before, now, i)
      {
        CheckTimer(i, now, before);
        ExpiredStep(before, now, i);
      }
    }

    /** One round of the handler's loop; `before` is the table when the loop began. */
    method CheckTimer(i: nat, now: nat, ghost before: seq<Timer>)
      requires Valid() && i < MAX_TIMERS && |before| == MAX_TIMERS
      modifies this`log, this`created, timers
      ensures Valid() && old(log) <= log && |log| <= |old(log)| + 1
      ensures tame && old(timers[..]) == Expired(before, now, i) ==>
                && created == old(created)
                && timers[..] == Expired(before, now, i + 1)
                && old(log) + FiringOf(before[i], now) == log
    {
      hide Expired, Fired, Expire;
      ExpiredStep(before, now, i);
      if timers[i].active && now >= timers[i].delay {
        ghost var slots := timers[..];
        timers[i] := timers[i].(active := false);
        assert timers[..] == slots[i := slots[i].(active := false)];
        log := log + [Firing(now, timers[i].tag, timers[i].callback)];
        RunCallback();
      }
    }

    /** A callback: unless it is tame it may create and destroy timers at will. */
    method RunCallback()
      requires Valid()
      modifies this`created, timers
      ensures tame ==> timers[..] == old(timers[..]) && created == old(created)
    {
      if !tame {
        var n: nat :| true;
        for i := 0 to n {
          if * {
            var ms: nat, callback: nat :| true;
            var id := CreateTimer(ms, callback);
          } else {
            var id: int :| true;
            DestroyTimer(id);
          }
        }
      }
    }

    /** clock_create_timer, between two ticks */
    method CreateTimer(ms: nat, callback: Callback) returns (id: int)
      requires Valid()
      modifies this`created, timers
      ensures Now() == Create(old(Now()), ms, callback)
      ensures id == if FirstInactive(old(timers[..])) < MAX_TIMERS then FirstInactive(old(timers[..])) else -1
    {
      var now := ticks;
      for i := 0 to MAX_TIMERS
        invariant timers[..] == old(timers[..])
        invariant forall j :: 0 <= j < i ==> timers[j].active
      {
        if !timers[i].active {
          timers[i] := timers[i].(delay := now + ms);
          timers[i] := timers[i].(active := true);
          timers[i] := timers[i].(callback := callback, tag := created);
          created := created + 1;
          return i;
        }
      }
      id := -1;
    }

    /** clock_destroy_timer */
    method DestroyTimer(id: int)
      requires Valid()
      modifies timers
      ensures Now() == Destroy(old(Now()), id)
    {
      if 0 <= id < MAX_TIMERS {
        timers[id] := timers[id].(active := false);
      }
    }
  }
}
