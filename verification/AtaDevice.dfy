/**
 * One ATA channel as seen from its ports: two drives, the task-file registers, the PIO phases of the
 * device (ATA/ATAPI-6, clauses 9.5 and 9.6), the latched interrupt request and the driver's flag.
 */
module AtaDevice {
  type Half = x: nat | x < 0x1_0000
  type Byte = x: nat | x < 0x100

  const WORDS := 256
  const LBA_LIMIT := 0x1000_0000

  type Sector = seq<Half>

  // ---------------------------------------------------------------- registers

  /** `0xE0 | (slave << 4) | ((lba >> 24) & 0x0F)` */
  function DriveHead(slave: nat, lba: nat): Byte
    requires slave < 2
  {
    0xE0 + 16 * slave + lba / 0x100_0000 % 16
  }

  /** The task file that both transfers write for `count` sectors from `lba`. */
  datatype TaskFile = TaskFile(head: Byte, count: Byte, low: Byte, mid: Byte, high: Byte)

  function Encode(slave: nat, lba: nat, count: nat): TaskFile
    requires slave < 2
  {
    TaskFile(DriveHead(slave, lba), count % 0x100, lba % 0x100, lba / 0x100 % 0x100, lba / 0x1_0000 % 0x100)
  }

  /** How the device reads the registers: bit 4 of head is the drive, a count of 0 stands for 256. */
  function DriveOf(t: TaskFile): nat {
    t.head / 16 % 2
  }

  function AddressOf(t: TaskFile): nat {
    t.head % 16 * 0x100_0000 + t.high * 0x1_0000 + t.mid * 0x100 + t.low
  }

  function CountOf(t: TaskFile): nat {
    if t.count == 0 then 256 else t.count
  }

  /** Bit 6 of head: the address is a sector number, not a cylinder, a head and a sector. */
  predicate UsesLba(t: TaskFile) {
    t.head / 64 % 2 == 1
  }

  /**
   * The device decodes what the driver meant exactly for 28-bit addresses and 1 to 256 sectors. Bits 7 to 5 of
   * head are set, bit 4 is the drive, and the rest and the three address registers make up the address.
   */
  lemma DecodesIff(slave: nat, lba: nat, count: nat)
    requires slave < 2
    ensures var t := Encode(slave, lba, count);
            && UsesLba(t) && t.head / 32 == 7 && t.head / 16 % 2 == slave == DriveOf(t)
            && AddressOf(t) == t.low + 0x100 * t.mid + 0x1_0000 * t.high + 0x100_0000 * (t.head % 16)
            && (AddressOf(t) == lba <==> lba < 0x1000_0000)
            && CountOf(t) == (if t.count == 0 then 256 else t.count)
            && (CountOf(t) == count <==> 1 <= count <= 256)
  {
    var t := Encode(slave, lba, count);
    var a, b, c := lba / 0x100, lba / 0x1_0000, lba / 0x100_0000;
    assert a / 0x100 == b && b / 0x100 == c;
    assert lba == c * 0x100_0000 + b % 0x100 * 0x1_0000 + a % 0x100 * 0x100 + lba % 0x100;
    assert t.head % 16 == c % 16;
  }

  /** `(size + 511) / 512`, on 32-bit words. */
  function SectorsFor(size: nat): nat {
    (size + 511) % 0x1_0000_0000 / 512
  }

  /** Whole sectors are transferred: exactly `size` bytes only if size is a multiple of 512. */
  lemma TransfersSizeIff(size: nat)
    requires size + 511 < 0x1_0000_0000
    ensures size <= SectorsFor(size) * 512 < size + 512 && 2 * WORDS == 512
    ensures SectorsFor(size) * 512 == size <==> size % 512 == 0
  {
  }

  // ---------------------------------------------------------------- device and interrupt

  /** What a busy device is working on. */
  datatype Job =
    | Fetch                    // the next sector of a read
    | Accept                   // a write command, before its first sector
    | Commit(sector: Sector)   // a sector that was received
    | Flush

  datatype Phase =
    | Idle
    | Busy(delay: nat, job: Job)     // BSY
    | DataIn(taken: nat)             // DRQ: `taken` words of the sector have been read
    | DataOut(given: seq<Half>)      // DRQ: words received so far
    | Failed                         // ERR

  datatype Channel = Channel(
    drives: seq<seq<Sector>>,
    phase: Phase,
    slave: nat, next: nat, left: nat,   // the transfer: drive, next sector, sectors left
    pending: bool,                      // the interrupt controller's latched request
    flag: bool,                         // ata_primary_irq or ata_secondary_irq
    wire: seq<Half>)                    // every word written to the data port

  predicate Formatted(drives: seq<seq<Sector>>) {
    |drives| == 2 && forall d <- drives, s <- d :: |s| == WORDS
  }

  /** The transfer stays on the drive. */
  predicate InRange(c: Channel) {
    |c.drives| == 2 && c.slave < 2 && c.next + c.left <= |c.drives[c.slave]|
  }

  /** The device finishes its work without error. */
  function Finish(c: Channel): Channel
    requires c.phase.Busy? && InRange(c) && (c.phase.job.Commit? ==> c.left > 0)
  {
    match c.phase.job
    case Fetch => c.(phase := DataIn(0), pending := true)
    case Accept => c.(phase := DataOut([]))
    case Commit(sector) =>
      c.(drives := c.drives[c.slave := c.drives[c.slave][c.next := sector]],
         next := c.next + 1, left := c.left - 1,
         phase := if c.left > 1 then DataOut([]) else Idle,
         pending := true)
    case Flush => c.(phase := Idle, pending := true)
  }

  /**
   * One step that the driver does not make: time passes in the device, the device finishes or, when it
   * may fail, fails; or the interrupt handler runs, which reads the status and sets the flag.
   */
  ghost predicate Next(c: Channel, d: Channel, faulty: bool) {
    || (c.phase.Busy? && c.phase.delay > 0 && d == c.(phase := Busy(c.phase.delay - 1, c.phase.job)))
    || (c.phase.Busy? && c.phase.delay == 0 && InRange(c) && (c.phase.job.Commit? ==> c.left > 0) && d == Finish(c))
    || (c.phase.Busy? && c.phase.delay == 0 && faulty && !c.phase.job.Fetch? && d == c.(phase := Failed, pending := true))
    || (c.pending && d == c.(pending := false, flag := true))
  }

  /** n such steps. */
  ghost predicate Steps(c: Channel, d: Channel, n: nat, faulty: bool)
    decreases n
  {
    if n == 0 then c == d else exists m: Channel :: Next(c, m, faulty) && Steps(m, d, n - 1, faulty)
  }

  ghost predicate Reaches(c: Channel, d: Channel, faulty: bool) {
    exists n: nat :: Steps(c, d, n, faulty)
  }

  /** The work left to the device and the interrupt controller; every step of theirs lowers it. */
  function Work(c: Channel): nat {
    (if c.phase.Busy? then 2 * (c.phase.delay + 1) else 0) + if c.pending then 1 else 0
  }

  // ---------------------------------------------------------------- the driver's accesses

  predicate Ready(c: Channel) {
    c.phase.Idle? || c.phase.Failed?
  }

  /** The commands READ SECTORS, WRITE SECTORS and FLUSH CACHE, as the device decodes them. */
  function JobOf(command: Byte): Job
    requires command == 0x20 || command == 0x30 || command == 0xE7
  {
    if command == 0x20 then Fetch else if command == 0x30 then Accept else Flush
  }

  /** A read or write command: the registers are latched and the device goes busy for some time. */
  function Start(c: Channel, t: TaskFile, command: Byte, delay: nat): Channel
    requires UsesLba(t) && (command == 0x20 || command == 0x30)
  {
    c.(phase := Busy(delay, JobOf(command)), slave := DriveOf(t), next := AddressOf(t), left := CountOf(t))
  }

  /** inw of the data register while DRQ is set */
  function Taken(c: Channel, delay: nat): Channel
    requires c.phase.DataIn?
  {
    if c.phase.taken + 1 < WORDS then
      c.(phase := DataIn(c.phase.taken + 1))
    else if c.left > 1 then
      c.(phase := Busy(delay, Fetch), next := c.next + 1, left := c.left - 1)
    else
      c.(phase := Idle, next := c.next + 1, left := 0)
  }

  /** outw of the data register while DRQ is set */
  function Given(c: Channel, word: Half, delay: nat): Channel
    requires c.phase.DataOut? && |c.phase.given| < WORDS
  {
    var given := c.phase.given + [word];
    c.(phase := if |given| < WORDS then DataOut(given) else Busy(delay, Commit(given)), wire := c.wire + [word])
  }

  // ---------------------------------------------------------------- what interference can do

  /** Nothing to do for device or interrupt controller. */
  predicate Still(c: Channel) {
    !c.phase.Busy? && !c.pending
  }

  /** A busy period has begun and no interrupt is on its way. */
  predicate Begun(b: Channel) {
    && b.phase.Busy? && !b.pending && !b.flag
    && InRange(b) && (b.phase.job.Commit? ==> b.left > 0)
  }

  /** b at the moment its device has finished its work. */
  function Finished(b: Channel): Channel
    requires Begun(b)
  {
    Finish(b.(phase := Busy(0, b.phase.job)))
  }

  /** The one interrupt of a busy period is latched, or the handler has set the flag: never both. */
  predicate Raised(c: Channel, d: Channel) {
    c == d.(pending := !c.flag, flag := c.flag)
  }

  /**
   * Where a channel can be that was in b when the device went busy, as long as the driver does
   * nothing: still busy; or finished, or failed, with its one interrupt latched or delivered.
   */
  ghost predicate After(b: Channel, c: Channel, faulty: bool)
    requires Begun(b)
  {
    || (c.phase.Busy? && c.phase.delay <= b.phase.delay && c == b.(phase := Busy(c.phase.delay, b.phase.job)))
    || (if b.phase.job.Accept? then c == Finished(b) else Raised(c, Finished(b)))
    || (faulty && !b.phase.job.Fetch? && Raised(c, b.(phase := Failed)))
  }

  /** Every interleaving of device and interrupt controller stays within After. */
  lemma {:induction false} StepsAfter(b: Channel, c: Channel, d: Channel, n: nat, faulty: bool)
    requires Begun(b) && After(b, c, faulty) && Steps(c, d, n, faulty)
    ensures After(b, d, faulty) && Work(d) <= Work(c)
    decreases n
  {
    if n > 0 {
      var m :| Next(c, m, faulty) && Steps(m, d, n - 1, faulty);
      StepsAfter(b, m, d, n - 1, faulty);
    }
  }

  lemma {:induction false} StepsThen(c: Channel, m: Channel, d: Channel, n: nat, faulty: bool)
    requires Steps(c, m, n, faulty) && Next(m, d, faulty)
    ensures Steps(c, d, n + 1, faulty)
    decreases n
  {
    if n > 0 {
      var x :| Next(c, x, faulty) && Steps(x, m, n - 1, faulty);
      StepsThen(x, m, d, n - 1, faulty);
    } else {
      assert Steps(d, d, 0, faulty);
    }
  }

  /** While the flag is awaited, device or interrupt controller always has a step to make: no deadlock. */
  lemma NoDeadlock(b: Channel, c: Channel, faulty: bool)
    requires Begun(b) && After(b, c, faulty) && !b.phase.job.Accept? && !c.flag
    ensures exists d :: Next(c, d, faulty)
    ensures forall d :: Next(c, d, faulty) ==> Work(d) < Work(c)
  {
    if c.phase.Busy? && c.phase.delay > 0 {
      assert Next(c, c.(phase := Busy(c.phase.delay - 1, c.phase.job)), faulty);
    } else if c.phase.Busy? {
      assert Next(c, Finish(c), faulty);
    } else {
      assert Next(c, c.(pending := false, flag := true), faulty);
    }
  }

  // ---------------------------------------------------------------- what a write leaves on the drives

  /** The first k sectors of `words` written from sector lba on. */
  function WriteSectors(sectors: seq<Sector>, lba: nat, words: seq<Half>, k: nat): (r: seq<Sector>)
    requires lba + k <= |sectors| && k * WORDS <= |words|
    ensures |r| == |sectors|
  {
    if k == 0 then
      sectors
    else
      WriteSectors(sectors, lba, words, k - 1)[lba + k - 1 := words[(k - 1) * WORDS..k * WORDS]]
  }

  function Written(drives: seq<seq<Sector>>, slave: nat, lba: nat, words: seq<Half>, k: nat): seq<seq<Sector>>
    requires slave < |drives| && lba + k <= |drives[slave]| && k * WORDS <= |words|
  {
    drives[slave := WriteSectors(drives[slave], lba, words, k)]
  }

  /** Each of the sectors holds its words, and no other sector has changed. */
  lemma {:induction false} WrittenSector(sectors: seq<Sector>, lba: nat, words: seq<Half>, k: nat, x: nat)
    requires lba + k <= |sectors| && k * WORDS <= |words| && x < |sectors|
    ensures WriteSectors(sectors, lba, words, k)[x]
            == if lba <= x < lba + k then words[(x - lba) * WORDS..(x - lba + 1) * WORDS] else sectors[x]
  {
    if k > 0 {
      WrittenSector(sectors, lba, words, k - 1, x);
    }
  }

  lemma WrittenOneMore(drives: seq<seq<Sector>>, slave: nat, lba: nat, words: seq<Half>, k: nat)
    requires slave < |drives| && lba + k < |drives[slave]| && (k + 1) * WORDS <= |words|
    ensures var before := Written(drives, slave, lba, words, k);
            Written(drives, slave, lba, words, k + 1)
            == before[slave := before[slave][lba + k := words[k * WORDS..(k + 1) * WORDS]]]
  {
  }

  lemma WrittenFormatted(drives: seq<seq<Sector>>, slave: nat, lba: nat, words: seq<Half>, k: nat)
    requires Formatted(drives)
    requires slave < 2 && lba + k <= |drives[slave]| && k * WORDS <= |words|
    ensures Formatted(Written(drives, slave, lba, words, k))
  {
    var after := Written(drives, slave, lba, words, k);
    forall d <- after, s <- d
      ensures |s| == WORDS
    {
      var i :| 0 <= i < |after| && after[i] == d;
      var x :| 0 <= x < |d| && d[x] == s;
      assert drives[i] in drives && drives[i][x] in drives[i];
      if i == slave {
        WrittenSector(drives[slave], lba, words, k, x);
      }
    }
  }
}
