/**
 * drivers/blocks/ata/ata_pio.c: the PIO read and write paths of one channel. Between any two of its
 * accesses the device and the interrupt handler may make any number of steps.
 */
module Ata {
  import opened AtaDevice

  const READ_COMMAND: Byte := 0x20
  const WRITE_COMMAND: Byte := 0x30
  const FLUSH_COMMAND: Byte := 0xE7

  class Driver {
    var c: Channel
    /** Whether the device may fail. */
    const faulty: bool

    constructor (c: Channel, faulty: bool)
      ensures this.c == c && this.faulty == faulty
    {
      this.c := c;
      this.faulty := faulty;
    }

    /** One step of device or interrupt controller, if there is one to make. */
    method EnvironmentStep()
      requires c.phase.Busy? ==> InRange(c) && (c.phase.job.Commit? ==> c.left > 0)
      modifies this
      ensures if c.phase.Busy? || old(c).phase.Busy? || old(c).pending then Next(old(c), c, faulty) else c == old(c)
    {
      if {
        case c.phase.Busy? && c.phase.delay > 0 =>
          c := c.(phase := Busy(c.phase.delay - 1, c.phase.job));
        case c.phase.Busy? && c.phase.delay == 0 =>
          c := Finish(c);
        case c.phase.Busy? && c.phase.delay == 0 && faulty && !c.phase.job.Fetch? =>
          c := c.(phase := Failed, pending := true);
        case c.pending =>
          c := c.(pending := false, flag := true);
        case !c.phase.Busy? && !c.pending =>
      }
    }

    /**
     * Any number of steps of device and interrupt controller, at least one if `some` and one is
     * possible; b is the channel when the device last went busy.
     */
    method Interfere(some: bool, ghost b: Channel)
      requires Begun(b) && (Still(c) || After(b, c, faulty))
      modifies this
      ensures Still(old(c)) ==> c == old(c)
      ensures After(b, old(c), faulty) ==> After(b, c, faulty) && Work(c) <= Work(old(c))
      ensures some && !Still(old(c)) ==> Work(c) < Work(old(c))
    {
      var k: nat :| some ==> k > 0;
      for i := 0 to k
        invariant Still(old(c)) ==> c == old(c)
        invariant Still(c) || After(b, c, faulty)
        invariant After(b, old(c), faulty) ==> After(b, c, faulty) && Work(c) <= Work(old(c))
        invariant i > 0 && !Still(old(c)) ==> Work(c) < Work(old(c))
      {
        ghost var before := c;
        EnvironmentStep();
        if !Still(before) {
          OneStepAfter(b, before, c, faulty);
        }
      }
    }

    /** `while (status & BSY) {}` */
    method PollBusy(ghost b: Channel)
      requires Begun(b) && (Still(c) || After(b, c, faulty))
      modifies this
      ensures Still(old(c)) ==> c == old(c)
      ensures After(b, old(c), faulty) ==> After(b, c, faulty)
      ensures !c.phase.Busy?
    {
      Interfere(false, b);
      while c.phase.Busy?
        invariant Still(old(c)) ==> c == old(c)
        invariant After(b, old(c), faulty) ==> After(b, c, faulty)
        invariant Still(c) || After(b, c, faulty)
        decreases Work(c)
      {
        Interfere(true, b);
      }
    }

    /** `while (*irq_flag == 0) arch_halt(); *irq_flag = 0;` */
    method AwaitInterrupt(ghost b: Channel)
      requires Begun(b) && After(b, c, faulty) && !b.phase.job.Accept?
      modifies this
      ensures Still(c) && !c.flag
      ensures c == Finished(b).(pending := false, flag := false)
              || (faulty && !b.phase.job.Fetch? && c == b.(phase := Failed))
    {
      Interfere(false, b);
      while !c.flag
        invariant After(b, c, faulty)
        decreases Work(c)
      {
        NoDeadlock(b, c, faulty);
        Interfere(true, b);
      }
      c := c.(flag := false);
    }

    /** The register writes and the command byte; the flag is cleared before the command. */
    method Command(slave: nat, lba: nat, count: nat, command: Byte) returns (ghost b: Channel)
      requires Ready(c) && Still(c) && slave < 2 && 1 <= count <= 256 && lba < LBA_LIMIT
      requires InRange(c.(slave := slave, next := lba, left := count)) && (command == READ_COMMAND || command == WRITE_COMMAND)
      modifies this
      ensures c == b && Begun(b) && b.phase.job == JobOf(command)
      ensures b == old(c).(phase := b.phase, slave := slave, next := lba, left := count, flag := false)
    {
      var t := Encode(slave, lba, count);
      DecodesIff(slave, lba, count);
      c := c.(flag := false);
      var delay: nat :| true;
      c := Start(c, t, command, delay);
      b := c;
    }

    /** The inner loop of ata_read_lba28: the 256 words of one sector. */
    method ReadSector(buffer: array<Half>, at: nat, ghost from: Channel)
      requires Begun(from) && InRange(c) && c.phase == DataIn(0) && Still(c) && !c.flag && c.left > 0
      requires Formatted(c.drives) && at + WORDS <= buffer.Length
      modifies this, buffer
      ensures buffer[at..at + WORDS] == old(c.drives[c.slave][c.next])
      ensures forall k :: 0 <= k < buffer.Length && !(at <= k < at + WORDS) ==> buffer[k] == old(buffer[k])
      ensures c == old(c).(phase := c.phase, next := old(c).next + 1, left := old(c).left - 1)
      ensures if old(c).left > 1 then c.phase.Busy? && c.phase.job.Fetch? else c.phase.Idle?
    {
      ghost var start := c;
      ghost var sector := c.drives[c.slave][c.next];
      assert c.drives[c.slave] in c.drives && sector in c.drives[c.slave];
      for j := 0 to WORDS
        invariant if j < WORDS then c == start.(phase := DataIn(j))
                  else c == start.(phase := c.phase, next := start.next + 1, left := start.left - 1)
                       && if start.left > 1 then c.phase.Busy? && c.phase.job.Fetch? else c.phase.Idle?
        invariant buffer[at..at + j] == sector[..j]
        invariant forall k :: 0 <= k < buffer.Length && !(at <= k < at + j) ==> buffer[k] == old(buffer[k])
      {
        Interfere(false, from);
        buffer[at + j] := c.drives[c.slave][c.next][j];
        var delay: nat :| true;
        c := Taken(c, delay);
      }
    }

    /** ata_read_lba28 */
    method ReadLba28(slave: nat, lba: nat, buffer: array<Half>, size: nat)
      requires Ready(c) && Still(c) && Formatted(c.drives) && slave < 2
      requires 1 <= SectorsFor(size) <= 256
      requires lba + SectorsFor(size) <= |c.drives[slave]| && lba + SectorsFor(size) <= LBA_LIMIT
      requires SectorsFor(size) * WORDS <= buffer.Length
      modifies this, buffer
      ensures c.phase.Idle? && Still(c) && !c.flag && c.drives == old(c).drives
      ensures forall i :: 0 <= i < SectorsFor(size) ==> buffer[i * WORDS..(i + 1) * WORDS] == c.drives[slave][lba + i]
      ensures buffer[SectorsFor(size) * WORDS..] == old(buffer[SectorsFor(size) * WORDS..])
    {
      var n := SectorsFor(size);
      ghost var drives := c.drives;
      ghost var b := Command(slave, lba, n, READ_COMMAND);
      PollBusy(b);
      for i := 0 to n
        invariant c.drives == drives
        invariant if i < n then Begun(b) && After(b, c, faulty) && b.phase.job.Fetch?
                                && b.drives == drives && b.slave == slave && b.next == lba + i && b.left == n - i
                  else c.phase.Idle? && Still(c) && !c.flag
        invariant forall k :: 0 <= k < i ==> buffer[k * WORDS..(k + 1) * WORDS] == drives[slave][lba + k]
        invariant buffer[n * WORDS..] == old(buffer[n * WORDS..])
      {
        AwaitInterrupt(b);
        ghost var before := buffer[..];
        ReadSector(buffer, i * WORDS, b);
        OtherSectorsStay(before, buffer[..], i, n);
        b := c;
      }
    }

    /** The endless loop of ata_write_lba28 before a sector: true for ERR, false for DRQ without BSY. */
    method PollRequest(ghost b: Channel) returns (error: bool)
      requires Begun(b)
      requires (b.phase.job.Accept? && After(b, c, faulty)) || (Still(c) && (c.phase.DataOut? || c.phase.Failed?))
      modifies this
      ensures if error then c.phase.Failed? else c.phase.DataOut?
      ensures Still(old(c)) ==> c == old(c)
      ensures !Still(old(c)) ==> if error then faulty && Raised(c, b.(phase := Failed)) else c == Finished(b)
    {
      Interfere(false, b);
      while c.phase.Busy?
        invariant Still(old(c)) ==> c == old(c)
        invariant Still(c) || After(b, c, faulty)
        invariant !Still(old(c)) ==> After(b, c, faulty)
        decreases Work(c)
      {
        Interfere(true, b);
      }
      error := c.phase.Failed?;
    }

    /** The inner loop of ata_write_lba28: the 256 words of one sector. */
    method WriteSector(buffer: array<Half>, at: nat, ghost from: Channel)
      requires Begun(from) && c.phase == DataOut([]) && Still(c) && at + WORDS <= buffer.Length
      modifies this
      ensures c.phase.Busy? && c.phase.job == Commit(buffer[at..at + WORDS])
      ensures c == old(c).(phase := c.phase, wire := old(c).wire + buffer[at..at + WORDS])
    {
      ghost var start := c;
      for j := 0 to WORDS
        invariant if j < WORDS then c.phase == DataOut(buffer[at..at + j])
                  else c.phase.Busy? && c.phase.job == Commit(buffer[at..at + j])
        invariant c == start.(phase := c.phase, wire := start.wire + buffer[at..at + j])
      {
        Interfere(false, from);
        var delay: nat :| true;
        assert buffer[at..at + j] + [buffer[at + j]] == buffer[at..at + j + 1];
        c := Given(c, buffer[at + j], delay);
      }
    }

    /** One round of the loop of ata_write_lba28 after the poll. */
    method SendSector(buffer: array<Half>, at: nat, ghost from: Channel) returns (ghost b: Channel)
      requires Begun(from) && c.phase == DataOut([]) && Still(c) && !c.flag && InRange(c) && c.left > 0
      requires at + WORDS <= buffer.Length
      modifies this
      ensures Begun(b) && Still(c) && !c.flag && InRange(c)
      ensures c.wire == old(c).wire + buffer[at..at + WORDS] && c.slave == old(c).slave
      ensures if c.phase.Failed? then
                faulty && c.drives == old(c).drives && c.next == old(c).next && c.left == old(c).left
              else
                && c.drives == old(c).drives[c.slave := old(c).drives[c.slave][old(c).next := buffer[at..at + WORDS]]]
                && c.next == old(c).next + 1 && c.left == old(c).left - 1
                && c.phase == if c.left > 0 then DataOut([]) else Idle
    {
      WriteSector(buffer, at, from);
      b := c;
      AwaitInterrupt(b);
    }

    /**
     * ata_write_lba28. `sent` sectors went over the wire and `committed` of them are on the drive;
     * `aborted` is the return at ERR. Before the first sector the interrupt of the failure may then be on its
     * way, or its flag set; later no interrupt is left.
     */
    method WriteLba28(slave: nat, lba: nat, buffer: array<Half>, size: nat)
      returns (aborted: bool, ghost sent: nat, ghost committed: nat)
      requires Ready(c) && Still(c) && Formatted(c.drives) && slave < 2
      requires 1 <= SectorsFor(size) <= 256
      requires lba + SectorsFor(size) <= |c.drives[slave]| && lba + SectorsFor(size) <= LBA_LIMIT
      requires SectorsFor(size) * WORDS <= buffer.Length
      modifies this
      ensures committed <= sent <= committed + 1 && sent <= SectorsFor(size)
      ensures aborted ==> sent < SectorsFor(size)
      ensures !aborted ==> sent == SectorsFor(size) && Ready(c) && Still(c) && !c.flag
      ensures !faulty ==> !aborted && committed == SectorsFor(size)
      ensures committed < SectorsFor(size) ==> (aborted <==> committed < SectorsFor(size) - 1 || sent == 0)
      ensures aborted ==> c.phase.Failed? && (Still(c) <==> sent > 0 || c.flag) && (c.flag ==> sent == 0)
      ensures c.wire == old(c).wire + buffer[..sent * WORDS]
      ensures c.drives == Written(old(c).drives, slave, lba, buffer[..], committed)
      ensures Formatted(c.drives)
    {
      hide Steps;
      var n := SectorsFor(size);
      ghost var start := c;
      ghost var b := Command(slave, lba, n, WRITE_COMMAND);
      committed := 0;
      assert buffer[..0] == [];
      for i := 0 to n
        invariant committed <= i <= committed + 1
        invariant Begun(b) && Writing(start, b, slave, lba, buffer[..], n, i, committed)
      {
        var error;
        error, b, committed := WriteRound(start, b, slave, lba, buffer, n, i, committed);
        if error {
          sent := i;
          WrittenFormatted(start.drives, slave, lba, buffer[..], committed);
          return true, sent, committed;
        }
      }
      sent := n;
      WrittenFormatted(start.drives, slave, lba, buffer[..], committed);
      Flush();
      aborted := false;
    }

    /**
     * ata_write_lba28 before round i of its n: the drives hold `committed` sectors of the words. The last
     * one that was sent is missing only if it failed.
     */
    ghost predicate Writing(start: Channel, b: Channel, slave: nat, lba: nat, words: seq<Half>, n: nat, i: nat, committed: nat)
      requires Begun(b) && slave < |start.drives| && lba + n <= |start.drives[slave]| && committed <= n
      requires i <= n && n * WORDS <= |words|
      reads this
    {
      && c.wire == start.wire + words[..i * WORDS]
      && c.drives == Written(start.drives, slave, lba, words, committed)
      && c.slave == slave && c.next == lba + committed && c.left == n - committed
      && if i == 0 then
           && b.phase.job.Accept? && After(b, c, faulty)
           && b.drives == start.drives && b.wire == start.wire && b.slave == slave && b.next == lba && b.left == n
         else
           && Still(c) && !c.flag && InRange(c)
           && if committed < i then faulty && c.phase.Failed?
              else if i < n then c.phase == DataOut([]) else c.phase.Idle?
    }

    /** One round of the loop of ata_write_lba28. */
    method WriteRound(ghost start: Channel, ghost b: Channel, slave: nat, lba: nat, buffer: array<Half>, n: nat, i: nat,
                      ghost committed: nat)
      returns (error: bool, ghost b': Channel, ghost committed': nat)
      requires |start.drives| == 2 && slave < 2 && lba + n <= |start.drives[slave]| && n * WORDS <= buffer.Length
      requires committed <= i < n && i <= committed + 1
      requires Begun(b) && Writing(start, b, slave, lba, buffer[..], n, i, committed)
      modifies this
      ensures Begun(b')
      ensures if error then
                && faulty && committed' == committed && (i == 0 || committed < i)
                && c.phase.Failed? && (Still(c) <==> i > 0 || c.flag) && (c.flag ==> i == 0)
                && c.wire == start.wire + buffer[..i * WORDS]
                && c.drives == Written(start.drives, slave, lba, buffer[..], committed)
              else
                && committed' <= i + 1 <= committed' + 1
                && Writing(start, b', slave, lba, buffer[..], n, i + 1, committed')
    {
      hide Written, Steps;
      error := PollRequest(b);
      committed', b' := committed, b;
      if !error {
        PrefixGrows(buffer[..], i);
        WrittenOneMore(start.drives, slave, lba, buffer[..], committed);
        b' := SendSector(buffer, i * WORDS, b);
        committed' := if c.phase.Failed? then committed else committed + 1;
      }
    }

    /** The flush command that ends ata_write_lba28. */
    method Flush()
      requires Ready(c) && Still(c) && !c.flag && InRange(c)
      modifies this
      ensures Ready(c) && Still(c) && !c.flag && c == old(c).(phase := c.phase)
      ensures !faulty ==> c.phase.Idle?
    {
      var delay: nat :| true;
      c := c.(phase := Busy(delay, JobOf(FLUSH_COMMAND)));
      AwaitInterrupt(c);
    }
  }

  lemma OtherSectorsStay(before: seq<Half>, after: seq<Half>, i: nat, n: nat)
    requires i < n && n * WORDS <= |before| == |after|
    requires forall k :: 0 <= k < |before| && !(i * WORDS <= k < i * WORDS + WORDS) ==> after[k] == before[k]
    ensures forall k :: 0 <= k < i ==> after[k * WORDS..(k + 1) * WORDS] == before[k * WORDS..(k + 1) * WORDS]
    ensures after[n * WORDS..] == before[n * WORDS..]
  {
    forall k | 0 <= k < i
      ensures after[k * WORDS..(k + 1) * WORDS] == before[k * WORDS..(k + 1) * WORDS]
    {
      assert (k + 1) * WORDS <= i * WORDS;
    }
  }

  lemma PrefixGrows(words: seq<Half>, i: nat)
    requires (i + 1) * WORDS <= |words|
    ensures words[..i * WORDS] + words[i * WORDS..(i + 1) * WORDS] == words[..(i + 1) * WORDS]
  {
  }

  lemma OneStepAfter(b: Channel, c: Channel, d: Channel, faulty: bool)
    requires Begun(b) && After(b, c, faulty) && Next(c, d, faulty)
    ensures After(b, d, faulty) && Work(d) < Work(c)
  {
    assert Steps(d, d, 0, faulty);
    assert Steps(c, d, 1, faulty);
    StepsAfter(b, c, d, 1, faulty);
  }

  /**
   * Without faults a write followed by a read of the same sectors returns the words that were written,
   * and every other sector of both drives is as before.
   */
  method WriteThenRead(driver: Driver, slave: nat, lba: nat, source: array<Half>, target: array<Half>, size: nat)
    requires !driver.faulty && source != target
    requires Ready(driver.c) && Still(driver.c) && Formatted(driver.c.drives) && slave < 2
    requires 1 <= SectorsFor(size) <= 256
    requires lba + SectorsFor(size) <= |driver.c.drives[slave]| && lba + SectorsFor(size) <= LBA_LIMIT
    requires SectorsFor(size) * WORDS <= source.Length && SectorsFor(size) * WORDS <= target.Length
    modifies driver, target
    ensures target[..SectorsFor(size) * WORDS] == source[..SectorsFor(size) * WORDS]
    ensures |driver.c.drives| == 2 && driver.c.drives[1 - slave] == old(driver.c.drives[1 - slave])
    ensures |driver.c.drives[slave]| == |old(driver.c.drives[slave])|
    ensures forall x :: 0 <= x < |driver.c.drives[slave]| && !(lba <= x < lba + SectorsFor(size)) ==>
              driver.c.drives[slave][x] == old(driver.c.drives[slave])[x]
  {
    var n := SectorsFor(size);
    ghost var before, words := driver.c.drives, source[..];
    var aborted, sent, committed := driver.WriteLba28(slave, lba, source, size);
    forall x | 0 <= x < |before[slave]|
      ensures driver.c.drives[slave][x]
              == if lba <= x < lba + n then words[(x - lba) * WORDS..(x - lba + 1) * WORDS] else before[slave][x]
    {
      WrittenSector(before[slave], lba, words, n, x);
    }
    driver.ReadLba28(slave, lba, target, size);
    SameSectors(target[..], words, n);
  }

  lemma SameSectors(a: seq<Half>, b: seq<Half>, n: nat)
    requires n * WORDS <= |a| && n * WORDS <= |b|
    requires forall i :: 0 <= i < n ==> a[i * WORDS..(i + 1) * WORDS] == b[i * WORDS..(i + 1) * WORDS]
    ensures a[..n * WORDS] == b[..n * WORDS]
  {
    forall k | 0 <= k < n * WORDS
      ensures a[k] == b[k]
    {
      var i := k / WORDS;
      assert a[i * WORDS..(i + 1) * WORDS][k - i * WORDS] == a[k];
      assert b[i * WORDS..(i + 1) * WORDS][k - i * WORDS] == b[k];
    }
  }

  // ---------------------------------------------------------------- errors that go unseen

  /** The driver hands over the first k words of a sector. */
  function AllGiven(c: Channel, words: seq<Half>, k: nat, delay: nat): (d: Channel)
    requires c.phase == DataOut([]) && k <= WORDS == |words|
    ensures d == c.(phase := if k < WORDS then DataOut(words[..k]) else Busy(delay, Commit(words)), wire := c.wire + words[..k])
  {
    assert words[..WORDS] == words;
    if k == 0 then
      c
    else
      assert words[..k - 1] + [words[k - 1]] == words[..k];
      Given(AllGiven(c, words, k - 1, delay), words[k - 1], delay)
  }

  /** The driver halts until the flag is set, and clears it. */
  ghost predicate Awaits(c: Channel, d: Channel) {
    exists handled: Channel :: Reaches(c, handled, true) && handled.flag && d == handled.(flag := false)
  }

  /** One round of the loop of ata_write_lba28 that does not return: poll until DRQ, 256 words, await the interrupt. */
  ghost predicate Sends(c: Channel, d: Channel, words: seq<Half>)
    requires |words| == WORDS
  {
    exists requested: Channel, delay: nat ::
      Reaches(c, requested, true) && requested.phase == DataOut([]) && Awaits(AllGiven(requested, words, WORDS, delay), d)
  }

  /** Sector k of the words */
  function SectorOf(words: seq<Half>, k: nat): (s: seq<Half>)
    requires (k + 1) * WORDS <= |words|
    ensures |s| == WORDS
  {
    words[k * WORDS..(k + 1) * WORDS]
  }

  /** The rounds from i on */
  ghost predicate Rounds(c: Channel, d: Channel, words: seq<Half>, i: nat, n: nat)
    requires i <= n && n * WORDS <= |words|
    decreases n - i
  {
    if i == n then c == d else exists m: Channel :: Sends(c, m, SectorOf(words, i)) && Rounds(m, d, words, i + 1, n)
  }

  /** A call of ata_write_lba28 that goes through to its end, as a run of driver, device and interrupt handler. */
  ghost predicate WriteReturns(c: Channel, slave: nat, lba: nat, words: seq<Half>, n: nat, end: Channel)
    requires slave < 2 && n * WORDS <= |words|
  {
    exists delay: nat, sent: Channel, flush: nat ::
      && UsesLba(Encode(slave, lba, n))
      && Rounds(Start(c.(flag := false), Encode(slave, lba, n), WRITE_COMMAND, delay), sent, words, 0, n)
      && Awaits(sent.(phase := Busy(flush, AtaDevice.Flush)), end)
  }

  /** A device that has just gone busy with a sector commits it, or fails; the driver is woken in either case. */
  lemma SectorRound(from: Channel, c: Channel, words: seq<Half>, fails: bool)
    requires Reaches(from, c, true) && c.phase == DataOut([]) && Still(c) && !c.flag && InRange(c) && c.left > 0
    requires |words| == WORDS
    ensures var d := if fails then c.(phase := Failed, wire := c.wire + words)
                     else Finish(c.(phase := Busy(0, Commit(words)), wire := c.wire + words)).(pending := false);
            Sends(from, d, words)
  {
    var given := AllGiven(c, words, WORDS, 0);
    assert words[..WORDS] == words;
    var done := if fails then given.(phase := Failed, pending := true) else Finish(given);
    var handled := done.(pending := false, flag := true);
    TwoSteps(given, done, handled, true);
    assert Awaits(given, handled.(flag := false));
  }

  lemma ReachesItself(c: Channel)
    ensures Reaches(c, c, true)
  {
    assert Steps(c, c, 0, true);
  }

  /** From round i on all sectors are committed, or all but the last. */
  lemma {:induction false} RoundsGoThrough(start: Channel, from: Channel, c: Channel, lba: nat, words: seq<Half>, i: nat, n: nat,
                                           lastFails: bool)
    returns (d: Channel)
    requires i < n && n * WORDS <= |words| && InRange(start.(next := lba, left := n)) && !start.pending
    requires Reaches(from, c, true) && c.phase == DataOut([]) && !c.flag
    requires c == start.(phase := DataOut([]), drives := Written(start.drives, start.slave, lba, words, i), flag := false,
                         next := lba + i, left := n - i, wire := c.wire)
    ensures Rounds(from, d, words, i, n)
    ensures Still(d) && !d.flag && InRange(d) && d.drives == Written(start.drives, start.slave, lba, words, if lastFails then n - 1 else n)
    decreases n - i
  {
    hide Reaches, Sends, Written;
    var w := SectorOf(words, i);
    WrittenOneMore(start.drives, start.slave, lba, words, i);
    WrittenSize(start.drives, start.slave, lba, words, i);
    if i == n - 1 && lastFails {
      d := c.(phase := Failed, wire := c.wire + w);
      SectorRound(from, c, w, true);
      assert Sends(from, d, w) && Rounds(d, d, words, n, n);
    } else {
      var m := Finish(c.(phase := Busy(0, Commit(w)), wire := c.wire + w)).(pending := false);
      SectorRound(from, c, w, false);
      if i == n - 1 {
        d := m;
      } else {
        ReachesItself(m);
        d := RoundsGoThrough(start, m, m, lba, words, i + 1, n, lastFails);
      }
      assert Sends(from, m, w) && Rounds(m, d, words, i + 1, n);
    }
  }

  lemma WrittenSize(drives: seq<seq<Sector>>, slave: nat, lba: nat, words: seq<Half>, k: nat)
    requires slave < |drives| && lba + k <= |drives[slave]| && k * WORDS <= |words|
    ensures |Written(drives, slave, lba, words, k)| == |drives|
    ensures |Written(drives, slave, lba, words, k)[slave]| == |drives[slave]|
  {
  }

  /**
   * The write path looks at ERR only before a sector, and not after the flush. Every call has a run in which
   * it goes through although its last sector failed and is not on the drive, and one in which the flush
   * failed.
   */
  lemma ErrorsGoUnseen(c: Channel, slave: nat, lba: nat, words: seq<Half>, n: nat, lastFails: bool, flushFails: bool)
    requires Ready(c) && Still(c) && slave < 2 && 1 <= n <= 256 && lba < LBA_LIMIT && n * WORDS <= |words|
    requires InRange(c.(slave := slave, next := lba, left := n))
    ensures exists end ::
              && WriteReturns(c, slave, lba, words, n, end)
              && end.drives == Written(c.drives, slave, lba, words, if lastFails then n - 1 else n)
              && (end.phase.Failed? <==> flushFails)
  {
    hide Reaches, Rounds, Written, Awaits, Encode;
    DecodesIff(slave, lba, n);
    var start := Start(c.(flag := false), Encode(slave, lba, n), WRITE_COMMAND, 0);
    AcceptRound(c, start, slave, lba, words, n);
    var sent := RoundsGoThrough(start, start, Finish(start), lba, words, 0, n, lastFails);
    FlushRound(sent, flushFails);
    var end := sent.(phase := if flushFails then Failed else Idle);
    assert Awaits(sent.(phase := Busy(0, AtaDevice.Flush)), end);
    assert WriteReturns(c, slave, lba, words, n, end);
  }

  /** The device takes the write command. */
  lemma AcceptRound(c: Channel, start: Channel, slave: nat, lba: nat, words: seq<Half>, n: nat)
    requires Still(c) && slave < 2 && 1 <= n <= 256 && lba < LBA_LIMIT && n * WORDS <= |words|
    requires InRange(c.(slave := slave, next := lba, left := n))
    requires UsesLba(Encode(slave, lba, n)) && start == Start(c.(flag := false), Encode(slave, lba, n), WRITE_COMMAND, 0)
    ensures start == c.(flag := false, phase := Busy(0, Accept), slave := slave, next := lba, left := n)
    ensures Finish(start) == start.(phase := DataOut([])) && Reaches(start, Finish(start), true)
    ensures Written(c.drives, slave, lba, words, 0) == c.drives
  {
    hide Encode, Reaches;
    DecodesIff(slave, lba, n);
    OneStep(start, Finish(start), true);
  }

  lemma FlushRound(sent: Channel, fails: bool)
    requires Still(sent) && !sent.flag && InRange(sent)
    ensures Awaits(sent.(phase := Busy(0, AtaDevice.Flush)), sent.(phase := if fails then Failed else Idle))
  {
    var flushing := sent.(phase := Busy(0, AtaDevice.Flush));
    var done := flushing.(phase := if fails then Failed else Idle, pending := true);
    var handled := done.(pending := false, flag := true);
    TwoSteps(flushing, done, handled, true);
  }

  lemma OneStep(c: Channel, d: Channel, faulty: bool)
    requires Next(c, d, faulty)
    ensures Reaches(c, d, faulty)
  {
    assert Steps(d, d, 0, faulty);
    assert Steps(c, d, 1, faulty);
  }

  lemma TwoSteps(c: Channel, m: Channel, d: Channel, faulty: bool)
    requires Next(c, m, faulty) && Next(m, d, faulty)
    ensures Reaches(c, d, faulty)
  {
    assert Steps(d, d, 0, faulty);
    assert Steps(m, d, 1, faulty);
    assert Steps(c, d, 2, faulty);
  }
}
