/**
 * The slot sizing of cooperative_tsn/applications/DynSchedForwardingApplication: streams that are registered
 * when packets arrive from outside, and the window of the cycle that is reserved for each of them.
 *
 * Times are integer picoseconds.  Where the source multiplies or divides a time by a floating-point number,
 * the result is any integer within one tick of the exact one.
 */
module DynamicScheduling {

  import opened Options
  import opened Strings

  const NANOSECOND := 1_000
  const MICROSECOND := 1_000_000
  const MILLISECOND := 1_000_000_000
  const SECOND := 1_000_000_000_000
  const CYCLE := 100_000_000_000
  const QUEUE_SIZE := 10
  const UPDATE_INTERVAL := 10

  /** The remainder of C++, which has the sign of the dividend. */
  function Fmod(x: int, y: int): int
    requires y > 0
  {
    if x >= 0 then x % y else 0 - (0 - x) % y
  }

  function Truncated(t: nat, unit: int): nat
    requires unit > 0
  {
    t - t % unit
  }

  /** Where in the cycle, counted from the creation of the module, a time lies. */
  function CycleOffset(time: nat, creation: nat): (offset: int)
    ensures 0 <= offset < CYCLE
  {
    (Truncated(time, NANOSECOND) - creation) % CYCLE
  }

  /** At 100 Mbit/s a bit takes ten nanoseconds. */
  function TransmissionTime(bits: int): int { bits * 10 * NANOSECOND }

  /** Within one tick of a tenth, and of a half. */
  predicate IsTenth(x: int, whole: int) { -10 < 10 * x - whole < 10 }

  predicate IsHalf(x: int, whole: int) { -2 < 2 * x - whole < 2 }

  /** The smallest and the largest of the samples that are not zero; zero for both if there are none. */
  ghost predicate AreExtremes(samples: seq<int>, min: int, max: int)
  {
    if forall i :: 0 <= i < |samples| ==> samples[i] == 0 then min == 0 && max == 0
    else
      && min in samples && max in samples && min != 0 && max != 0
      && forall i :: 0 <= i < |samples| && samples[i] != 0 ==> min <= samples[i] <= max
  }

  /** A packet that begins at the offset is transmitted within the slot. */
  predicate Inside(start: int, slotBits: int, offset: int, packetBits: int)
  {
    start <= offset && offset + TransmissionTime(packetBits) <= start + TransmissionTime(slotBits)
  }

  /** All samples but zero are inside of the slot. */
  predicate Covers(start: int, slotBits: int, samples: seq<int>, packetBits: int)
  {
    forall i :: 0 <= i < |samples| && samples[i] != 0 ==> Inside(start, slotBits, samples[i], packetBits)
  }

  /** The slot for samples between `min` and `max`: a twentieth earlier, a tenth and 21 microseconds longer. */
  predicate IsSlot(start: int, slotBits: int, min: int, max: int, packetBits: int)
  {
    && start <= min && -20 < 20 * (min - start) - (max - min) < 20
    && var rest := TransmissionTime(slotBits) - TransmissionTime(packetBits) - 21 * MICROSECOND - (max - min);
      -21 * NANOSECOND < 10 * rest - (max - min) < 91 * NANOSECOND
  }

  /** Packet `j` is among the last ten of `n`. */
  predicate InWindow(j: int, n: int) { 1 <= j <= n < j + QUEUE_SIZE }

  /** The recomputation that packet `j` enters. */
  function EntersAt(j: nat): int { j + (2 - j) % 10 }

  /** Each packet of a stream is in the window of exactly one recomputation. */
  lemma EnteredOnce(j: nat, n: int)
    requires j >= 1
    ensures InWindow(j, n) && IsRecomputation(n) <==> n == EntersAt(j)
  {
  }

  /** The samples after `n` packets, the last one first. */
  function Window(arrivals: seq<int>, n: nat): (samples: seq<int>)
    requires n <= |arrivals|
    ensures |samples| == QUEUE_SIZE
  {
    seq(QUEUE_SIZE, i requires 0 <= i < QUEUE_SIZE => Sample(arrivals[..n], i))
  }

  lemma WindowHolds(arrivals: seq<int>, n: nat, j: nat)
    requires InWindow(j, n) && n <= |arrivals|
    ensures Window(arrivals, n)[n - j] == arrivals[j - 1]
  {
  }

  datatype Slot = Slot(start: int, bits: int)

  ghost predicate IsSlotFor(slot: Slot, samples: seq<int>, packetBits: int)
  {
    && Covers(slot.start, slot.bits, samples, packetBits)
    && exists min, max :: AreExtremes(samples, min, max) && IsSlot(slot.start, slot.bits, min, max, packetBits)
  }

  lemma SlotCovers(slot: Slot, samples: seq<int>, min: int, max: int, packetBits: int)
    requires AreExtremes(samples, min, max) && IsSlot(slot.start, slot.bits, min, max, packetBits)
    ensures IsSlotFor(slot, samples, packetBits)
  {
    forall i | 0 <= i < |samples| && samples[i] != 0 ensures Inside(slot.start, slot.bits, samples[i], packetBits) {
      assert min <= samples[i] <= max;
    }
  }

  ghost predicate AreSlots(slots: map<nat, Slot>, arrivals: seq<int>, packetBits: int)
  {
    forall n: nat :: n <= |arrivals| && IsRecomputation(n) ==> n in slots && IsSlotFor(slots[n], Window(arrivals, n), packetBits)
  }

  predicate InEffect(slots: map<nat, Slot>, n: nat, slot: Slot)
  {
    n >= 2 ==> LastRecomputation(n) in slots && slots[LastRecomputation(n)] == slot
  }

  /** One more packet: a new slot for its window, or none. */
  lemma SlotsGrow(slots: map<nat, Slot>, before: seq<int>, after: seq<int>, slot: Slot, packetBits: int)
    requires AreSlots(slots, before, packetBits) && |after| == |before| + 1 && before == after[..|before|]
    requires if IsRecomputation(|after|) then IsSlotFor(slot, Window(after, |after|), packetBits) else InEffect(slots, |before|, slot)
    ensures var more := if IsRecomputation(|after|) then slots[|after| := slot] else slots;
      AreSlots(more, after, packetBits) && InEffect(more, |after|, slot)
  {
    hide IsSlotFor, Window, IsRecomputation, LastRecomputation;
    NextRecomputation(|after|);
    var more := if IsRecomputation(|after|) then slots[|after| := slot] else slots;
    forall n: nat | n <= |after| && IsRecomputation(n) ensures n in more && IsSlotFor(more[n], Window(after, n), packetBits) {
      if n <= |before| { WindowStays(before, after, n); }
    }
  }

  lemma NoSlotYet(arrivals: seq<int>, slot: Slot, packetBits: int)
    requires |arrivals| == 1
    ensures AreSlots(map[], arrivals, packetBits) && InEffect(map[], 1, slot)
  {
  }

  lemma NextRecomputation(n: nat)
    ensures LastRecomputation(n) == if IsRecomputation(n) then n else LastRecomputation(n - 1)
    ensures n == 2 ==> IsRecomputation(n)
  {
  }

  lemma WindowStays(before: seq<int>, after: seq<int>, n: nat)
    requires n <= |before| <= |after| && before == after[..|before|]
    ensures Window(before, n) == Window(after, n)
  {
    assert before[..n] == after[..n];
  }

  /** The beginning of the cycle is inside of a slot if and only if the slot does not start after it. */
  lemma ZeroInside(slot: Slot, samples: seq<int>, packetBits: int)
    requires IsSlotFor(slot, samples, packetBits) && forall i :: 0 <= i < |samples| ==> 0 <= samples[i] < CYCLE
    ensures Inside(slot.start, slot.bits, 0, packetBits) <==> slot.start <= 0
  {
    var min, max :| AreExtremes(samples, min, max) && IsSlot(slot.start, slot.bits, min, max, packetBits);
    ExtremesAreOffsets(samples, min, max);
  }

  /** Up to the rounding, a slot starts before the cycle if and only if the first sample is less than a twentieth of the range. */
  lemma NegativeStart(slot: Slot, samples: seq<int>, packetBits: int, min: int, max: int)
    requires IsSlotFor(slot, samples, packetBits) && AreExtremes(samples, min, max) && min <= max
    requires forall i :: 0 <= i < |samples| ==> 0 <= samples[i]
    ensures 20 * min <= max - min - 20 ==> slot.start < 0
    ensures slot.start < 0 ==> 20 * min < max - min + 20
    ensures -20 < 20 * (min - slot.start) - (max - min) < 20
  {
    var lo, hi :| AreExtremes(samples, lo, hi) && IsSlot(slot.start, slot.bits, lo, hi, packetBits);
    assert lo == min && hi == max;
  }

  /** So the samples decide, up to the rounding, whether a packet at the beginning of the cycle is inside. */
  lemma ZeroInsideBySamples(slot: Slot, samples: seq<int>, packetBits: int, min: int, max: int)
    requires IsSlotFor(slot, samples, packetBits) && AreExtremes(samples, min, max)
    requires forall i :: 0 <= i < |samples| ==> 0 <= samples[i] < CYCLE
    ensures 20 * min <= max - min - 20 ==> Inside(slot.start, slot.bits, 0, packetBits)
    ensures Inside(slot.start, slot.bits, 0, packetBits) ==> 20 * min < max - min + 20
  {
    ExtremesAreOffsets(samples, min, max);
    ZeroInside(slot, samples, packetBits);
    NegativeStart(slot, samples, packetBits, min, max);
  }

  /** A packet at the very beginning of the cycle leaves no trace: its sample is the one of no packet. */
  lemma ZeroIsNoSample(samples: seq<int>, min: int, max: int, start: int, slotBits: int, packetBits: int)
    ensures AreExtremes([0] + samples, min, max) <==> AreExtremes(samples, min, max)
    ensures Covers(start, slotBits, [0] + samples, packetBits) <==> Covers(start, slotBits, samples, packetBits)
  {
    var more := [0] + samples;
    assert more[1..] == samples;
    assert forall x :: x != 0 ==> (x in more <==> x in samples);
    assert forall i :: 0 < i < |more| ==> more[i] in samples;
    assert forall i :: 0 <= i < |samples| ==> samples[i] in more;
  }

  predicate IsRecomputation(n: int) { n % UPDATE_INTERVAL == 2 }

  class TsnStream {
    const PCP: int
    const source: string
    const externalSource: Option<string>
    const destination: string
    const originalPacketSize: int
    var packetSize: int
    var packetInterval: int
    var lastTimePacketArrived: seq<int>
    var startTime: int
    var numberPackets: nat
    /** The offsets of all packets so far. */
    ghost var arrivals: seq<int>
    /** The slots that have been computed, by the number of the packet. */
    ghost var slots: map<nat, Slot>

    /** Every recomputation so far has given a slot for its samples, and the last of these slots is in effect. */
    ghost predicate Scheduled()
      reads this
    {
      Valid() && AreSlots(slots, arrivals, originalPacketSize) && InEffect(slots, |arrivals|, Slot(startTime, packetSize))
    }

    /** After a recomputation the slot covers the samples. */
    ghost predicate CoversWindow()
      reads this
    {
      IsRecomputation(|arrivals|) ==> Covers(startTime, packetSize, Window(arrivals, |arrivals|), originalPacketSize)
    }

    /**
     * Each packet enters exactly one recomputation.  The slot computed there has the packet inside, unless the packet
     * came at the very beginning of the cycle and the slot starts later.
     */
    lemma EachPacketIsServed(j: nat)
      requires Scheduled() && 1 <= j <= numberPackets
      ensures forall n :: InWindow(j, n) && IsRecomputation(n) <==> n == EntersAt(j)
      ensures EntersAt(j) <= numberPackets ==> EntersAt(j) in slots
      ensures EntersAt(j) <= numberPackets ==>
        var slot := slots[EntersAt(j)];
        Inside(slot.start, slot.bits, arrivals[j - 1], originalPacketSize) <==> arrivals[j - 1] != 0 || slot.start <= 0
    {
      hide InWindow, IsRecomputation;
      forall n ensures InWindow(j, n) && IsRecomputation(n) <==> n == EntersAt(j) {
        EnteredOnce(j, n);
      }
      var n := EntersAt(j);
      EntersLater(j);
      if n <= numberPackets {
        WindowHolds(arrivals, n, j);
        var samples := Window(arrivals, n);
        assert forall i :: 0 <= i < |samples| ==> 0 <= samples[i] < CYCLE;
        ZeroInside(slots[n], samples, originalPacketSize);
      }
    }

    ghost predicate Valid()
      reads this
    {
      && originalPacketSize > 0 && numberPackets == |arrivals| && |lastTimePacketArrived| == QUEUE_SIZE
      && (forall i :: 0 <= i < |arrivals| ==> 0 <= arrivals[i] < CYCLE)
      && (forall i :: 0 <= i < QUEUE_SIZE ==> lastTimePacketArrived[i] == Sample(arrivals, i))
    }

    constructor (pcp: int, source: string, externalSource: Option<string>, destination: string, packetLength: int, interval: int)
      requires packetLength > 0
      ensures Scheduled() && arrivals == [] && packetInterval == interval && packetSize == originalPacketSize == packetLength
      ensures PCP == pcp && this.source == source && this.externalSource == externalSource && this.destination == destination
      ensures startTime == 0 && slots == map[]
    {
      PCP, this.source, this.externalSource, this.destination := pcp, source, externalSource, destination;
      packetSize, originalPacketSize, packetInterval := packetLength, packetLength, interval;
      startTime, numberPackets, arrivals, slots := 0, 0, [], map[];
      lastTimePacketArrived := seq(QUEUE_SIZE, _ => 0);
    }

    /** Removes the oldest time and pushes a new one. */
    method PushTime(time: nat, creationOffset: nat)
      requires Valid() && creationOffset < CYCLE
      modifies this`numberPackets, this`lastTimePacketArrived, this`arrivals
      ensures Valid() && arrivals == old(arrivals) + [CycleOffset(time, creationOffset)]
    {
      numberPackets := numberPackets + 1;
      var diffTime := Fmod(Truncated(time, NANOSECOND), CYCLE);
      if |lastTimePacketArrived| == QUEUE_SIZE {
        lastTimePacketArrived := lastTimePacketArrived[..|lastTimePacketArrived| - 1];
      }
      var newTime := Fmod(diffTime + (100 * SECOND - creationOffset), CYCLE);
      OffsetByTwoRemainders(Truncated(time, NANOSECOND), creationOffset);
      lastTimePacketArrived := [newTime] + lastTimePacketArrived;
      arrivals := arrivals + [newTime];
    }

    method SetStartTime()
      requires Valid()
      modifies this`startTime
      ensures exists max :: AreExtremes(lastTimePacketArrived, startTime, max)
    {
      var min := 0;
      ghost var max := 0;
      for i := 0 to |lastTimePacketArrived|
        invariant AreExtremes(lastTimePacketArrived[..i], min, max)
      {
        var time := lastTimePacketArrived[i];
        ExtremesOfOneMore(lastTimePacketArrived, i, min, max);
        if (time < min || min == 0) && time != 0 {
          min := time;
        }
        if (time > max || max == 0) && time != 0 {
          max := time;
        }
      }
      assert lastTimePacketArrived[..|lastTimePacketArrived|] == lastTimePacketArrived;
      startTime := min;
      assert AreExtremes(lastTimePacketArrived, startTime, max);
    }

    method AdjustStartTime(offset: int)
      modifies this`startTime
      ensures startTime == Fmod(old(startTime) - offset, CYCLE)
    {
      startTime := Fmod(startTime - offset, CYCLE);
    }

    /** The slot in bits.  It is recomputed at the packets 2, 12, 22, ...; then the start time moves too. */
    method GetNewSlotSize() returns (size: int)
      requires Valid()
      modifies this`startTime
      ensures !IsRecomputation(numberPackets) ==> size == packetSize && startTime == old(startTime)
      ensures IsRecomputation(numberPackets) ==> IsSlotFor(Slot(startTime, size), Window(arrivals, numberPackets), originalPacketSize)
    {
      hide IsSlotFor, IsSlot;
      if numberPackets % UPDATE_INTERVAL != 2 {
        return packetSize;
      }
      var min, max := 0, 0;
      for i := 0 to |lastTimePacketArrived|
        invariant AreExtremes(lastTimePacketArrived[..i], min, max)
      {
        var time := lastTimePacketArrived[i];
        ExtremesOfOneMore(lastTimePacketArrived, i, min, max);
        if time == 0 {
          continue;
        }
        if time < min || min == 0 {
          min := time;
        }
        if time > max || max == 0 {
          max := time;
        }
      }
      assert lastTimePacketArrived[..|lastTimePacketArrived|] == lastTimePacketArrived;
      ExtremesAreOffsets(lastTimePacketArrived, min, max);
      startTime := min;
      var totalTime := max - min;
      // a product with a floating-point number: exact, or one nanosecond less after truncation
      var packetNanoseconds: int :| originalPacketSize * 10 - 1 <= packetNanoseconds <= originalPacketSize * 10;
      var packetTime := packetNanoseconds * NANOSECOND;
      assert IsTenth(totalTime / 10, totalTime);
      var adjustment: int :| IsTenth(adjustment, totalTime);
      assert IsHalf(adjustment / 2, adjustment);
      var startOffset: int :| IsHalf(startOffset, adjustment);
      AdjustStartTime(startOffset);
      totalTime := totalTime + adjustment;
      totalTime := totalTime + 21 * MICROSECOND + packetTime;
      var nanoseconds := Fdiv(totalTime, NANOSECOND);
      size := CeilDiv(nanoseconds, 10);
      StartFits(min, max, adjustment, startOffset);
      SlotFits(min, max, adjustment, packetTime, originalPacketSize, startTime);
      SlotCovers(Slot(startTime, size), lastTimePacketArrived, min, max, originalPacketSize);
      assert arrivals[..numberPackets] == arrivals && lastTimePacketArrived == Window(arrivals, numberPackets);
    }

    method SetPacketSize(size: int)
      modifies this`packetSize
      ensures packetSize == size
    {
      packetSize := size;
    }

    method SetPacketInterval()
      modifies this`packetInterval
      ensures packetInterval == 100
    {
      packetInterval := 100;
    }
  }

  /** Division that drops the fraction. */
  function Fdiv(x: int, y: int): int
    requires y > 0
  {
    if x >= 0 then x / y else 0 - (0 - x) / y
  }

  function CeilDiv(x: int, y: int): int
    requires y > 0
  {
    0 - (0 - x) / y
  }

  /** The sample `i` places back; zero where there has been no packet. */
  function Sample(arrivals: seq<int>, i: nat): int { if i < |arrivals| then arrivals[|arrivals| - 1 - i] else 0 }

  function LastRecomputation(n: int): int { n - (n - 2) % 10 }

  lemma EntersLater(j: nat)
    requires j >= 1
    ensures EntersAt(j) >= j && InWindow(j, EntersAt(j)) && IsRecomputation(EntersAt(j))
  {
    EnteredOnce(j, EntersAt(j));
  }

  /** Taking the remainder leaves the start time alone; it is negative when the offset is beyond the first sample. */
  lemma StartFits(min: int, max: int, adjustment: int, startOffset: int)
    requires 0 <= min <= max < CYCLE && IsTenth(adjustment, max - min) && IsHalf(startOffset, adjustment)
    ensures Fmod(min - startOffset, CYCLE) == min - startOffset <= min
    ensures Fmod(min - startOffset, CYCLE) < 0 <==> min < startOffset
    ensures -20 < 20 * startOffset - (max - min) < 20
  {
  }

  lemma SlotFits(min: int, max: int, adjustment: int, packetTime: int, bits: int, start: int)
    requires 0 <= min <= max && IsTenth(adjustment, max - min) && bits > 0
    requires TransmissionTime(bits) - NANOSECOND <= packetTime <= TransmissionTime(bits)
    requires start <= min && -20 < 20 * (min - start) - (max - min) < 20
    ensures var total := max - min + adjustment + 21 * MICROSECOND + packetTime;
      IsSlot(start, CeilDiv(Fdiv(total, NANOSECOND), 10), min, max, bits)
  {
    var total := max - min + adjustment + 21 * MICROSECOND + packetTime;
    var nanoseconds := Fdiv(total, NANOSECOND);
    assert total - NANOSECOND < nanoseconds * NANOSECOND <= total;
    assert nanoseconds <= 10 * CeilDiv(nanoseconds, 10) <= nanoseconds + 9;
  }

  lemma OffsetByTwoRemainders(t: nat, creation: nat)
    requires creation < CYCLE
    ensures Fmod(Fmod(t, CYCLE) + (100 * SECOND - creation), CYCLE) == (t - creation) % CYCLE
  {
  }

  lemma ExtremesOfOneMore(samples: seq<int>, i: nat, min: int, max: int)
    requires i < |samples| && AreExtremes(samples[..i], min, max) && samples[i] >= 0
    ensures var time := samples[i];
      AreExtremes(samples[..i + 1], if (time < min || min == 0) && time != 0 then time else min, if (time > max || max == 0) && time != 0 then time else max)
  {
    assert samples[..i + 1] == samples[..i] + [samples[i]];
  }

  lemma ExtremesAreOffsets(samples: seq<int>, min: int, max: int)
    requires AreExtremes(samples, min, max) && forall i :: 0 <= i < |samples| ==> 0 <= samples[i] < CYCLE
    ensures 0 <= min <= max < CYCLE
  {
  }

  // ------------------------------------------------------------ the registry of streams

  datatype Rule = Rule(pattern: string, pcp: int, destination: string)

  datatype Interface = Internal | External | Other

  datatype Packet = Packet(name: string, inbound: Interface, source: string, bits: int)

  /** What distinguishes the streams that are registered when packets arrive. */
  datatype Key = Key(pcp: int, external: string, destination: string)

  /** What the registry knows of a stream: how often its packets came, and the interval in milliseconds. */
  datatype Entry = Entry(pcp: int, source: string, external: Option<string>, destination: string, count: nat, interval: int)

  datatype Outcome = Ignored | Failed | Registered | Updated(index: nat)

  /** The rule that applies to a packet is the first whose pattern occurs in its name. */
  function FirstRule(rules: seq<Rule>, name: string): Option<Rule>
  {
    if rules == [] then None else if Contains(name, rules[0].pattern) then Some(rules[0]) else FirstRule(rules[1..], name)
  }

  /** The last component of a path. */
  function FullName(path: string): string
  {
    if '.' !in path then path else FullName(path[1..])
  }

  predicate Meets(e: Entry, owner: string, pcp: int, external: Option<string>, destination: string)
  {
    e.pcp == pcp && e.source == owner && e.external.Some? && e.external == external && FullName(e.destination) == destination
  }

  function FirstMeeting(entries: seq<Entry>, owner: string, pcp: int, external: Option<string>, destination: string): (i: nat)
    ensures i <= |entries|
    ensures i < |entries| ==> Meets(entries[i], owner, pcp, external, destination)
    ensures forall j :: 0 <= j < i ==> !Meets(entries[j], owner, pcp, external, destination)
  {
    if entries == [] || Meets(entries[0], owner, pcp, external, destination) then 0
    else 1 + FirstMeeting(entries[1..], owner, pcp, external, destination)
  }

  /** A packet counts for the first stream that it meets; if there is none, a new one is registered. */
  function Adapted(entries: seq<Entry>, owner: string, pcp: int, external: Option<string>, destination: string): seq<Entry>
  {
    var i := FirstMeeting(entries, owner, pcp, external, destination);
    if i < |entries| then entries[i := entries[i].(count := entries[i].count + 1, interval := 100)]
    else entries + [Entry(pcp, owner, external, destination, 1, 0)]
  }

  predicate Publishes(e: Entry) { e.interval != 0 }

  function Published(entries: seq<Entry>): seq<Entry>
  {
    if entries == [] then [] else (if Publishes(entries[0]) then [entries[0]] else []) + Published(entries[1..])
  }

  lemma PublishedStep(entries: seq<Entry>)
    ensures Published([]) == []
    ensures entries != [] ==> Published(entries) == (if Publishes(entries[0]) then [entries[0]] else []) + Published(entries[1..])
  {
  }

  class DynSchedForwardingApplication {
    /** The module that contains the application, and the place that streams from outside enter at. */
    const owner: string
    const forwardingTable: seq<Rule>
    const hosts: map<string, string>
    const modules: set<string>
    const creationOffset: nat
    var tsnStreams: seq<TsnStream>

    ghost predicate Valid()
      reads this, tsnStreams
    {
      && creationOffset < CYCLE && "" !in modules
      && (forall i, j :: 0 <= i < j < |tsnStreams| ==> tsnStreams[i] != tsnStreams[j])
      && forall i :: 0 <= i < |tsnStreams| ==> tsnStreams[i].Scheduled()
    }

    ghost function EntryOf(s: TsnStream): Entry
      reads s
    {
      Entry(s.PCP, s.source, s.externalSource, s.destination, |s.arrivals|, s.packetInterval)
    }

    ghost function EntriesOf(streams: seq<TsnStream>): (entries: seq<Entry>)
      reads streams
      ensures |entries| == |streams| && forall i :: 0 <= i < |streams| ==> entries[i] == EntryOf(streams[i])
    {
      seq(|streams|, i requires 0 <= i < |streams| reads streams => EntryOf(streams[i]))
    }

    ghost function Entries(): (entries: seq<Entry>)
      reads this, tsnStreams
      ensures |entries| == |tsnStreams|
      ensures forall i :: 0 <= i < |tsnStreams| ==> entries[i] == EntryOf(tsnStreams[i])
    {
      EntriesOf(tsnStreams)
    }

    function Resolved(address: string): Option<string> { if address in hosts then Some(hosts[address]) else None }

    /** With the streams that are configured for the scheduler. */
    constructor (owner: string, table: seq<Rule>, hosts: map<string, string>, modules: set<string>, creationTime: nat, configured: seq<TsnStream>)
      requires "" !in modules
      requires forall i, j :: 0 <= i < j < |configured| ==> configured[i] != configured[j]
      requires forall i :: 0 <= i < |configured| ==> configured[i].Scheduled() && configured[i].externalSource.None?
      ensures Valid() && tsnStreams == configured && forwardingTable == table && this.owner == owner && this.hosts == hosts && this.modules == modules
      ensures creationOffset == Truncated(creationTime, MICROSECOND) % CYCLE
    {
      this.owner, forwardingTable, this.hosts, this.modules := owner, table, hosts, modules;
      creationOffset := Fmod(Truncated(creationTime, MICROSECOND), CYCLE);
      tsnStreams := configured;
    }

    method FindRule(name: string) returns (rule: Option<Rule>)
      ensures rule == FirstRule(forwardingTable, name)
    {
      var i := 0;
      while i < |forwardingTable|
        invariant i <= |forwardingTable| && FirstRule(forwardingTable, name) == FirstRule(forwardingTable[i..], name)
      {
        var found := Occurs(name, forwardingTable[i].pattern);
        if found {
          return Some(forwardingTable[i]);
        }
        i := i + 1;
      }
      return None;
    }

    method FindStream(pcp: int, external: Option<string>, destination: string) returns (i: nat)
      ensures i == FirstMeeting(Entries(), owner, pcp, external, destination)
    {
      i := 0;
      while i < |tsnStreams|
        invariant i <= |tsnStreams|
        invariant FirstMeeting(Entries(), owner, pcp, external, destination) == i + FirstMeeting(Entries()[i..], owner, pcp, external, destination)
      {
        var stream := tsnStreams[i];
        assert Entries()[i..][0] == EntryOf(stream) && Entries()[i..][1..] == Entries()[i + 1..];
        if stream.PCP == pcp && stream.source == owner && stream.externalSource.Some? && external == stream.externalSource
          && FullName(stream.destination) == destination {
          return;
        }
        i := i + 1;
      }
    }

    /** The first packet of a stream; the arguments have passed the assertions of the stream's constructor. */
    method RegisterStream(pcp: int, external: Option<string>, destination: string, bits: int, now: nat)
      requires Valid() && bits > 0
      modifies this`tsnStreams
      ensures Valid() && |tsnStreams| == |old(tsnStreams)| + 1 && tsnStreams[..|old(tsnStreams)|] == old(tsnStreams)
      ensures fresh(tsnStreams[|old(tsnStreams)|])
      ensures Entries() == old(Entries()) + [Entry(pcp, owner, external, destination, 1, 0)]
      ensures var stream := tsnStreams[|old(tsnStreams)|];
        stream.arrivals == [CycleOffset(now, creationOffset)] == [stream.startTime] && stream.packetSize == stream.originalPacketSize == bits
    {
      hide CycleOffset, TsnStream.Scheduled;
      var stream := FirstPacket(pcp, external, destination, bits, now);
      tsnStreams := tsnStreams + [stream];
    }

    method FirstPacket(pcp: int, external: Option<string>, destination: string, bits: int, now: nat) returns (stream: TsnStream)
      requires creationOffset < CYCLE && bits > 0
      ensures fresh(stream) && stream.Scheduled() && stream.arrivals == [CycleOffset(now, creationOffset)]
      ensures stream.startTime == CycleOffset(now, creationOffset) && stream.packetSize == stream.originalPacketSize == bits
      ensures EntryOf(stream) == Entry(pcp, owner, external, destination, 1, 0)
    {
      hide CycleOffset, AreSlots, InEffect;
      stream := new TsnStream(pcp, owner, external, destination, bits, 0);
      stream.PushTime(now, creationOffset);
      stream.SetStartTime();
      var offset := stream.arrivals[0];
      assert stream.lastTimePacketArrived[0] == offset;
      assert forall i :: 1 <= i < QUEUE_SIZE ==> stream.lastTimePacketArrived[i] == 0;
      NoSlotYet(stream.arrivals, Slot(stream.startTime, stream.packetSize), bits);
    }

    /** Every other packet of a stream. */
    method UpdateStream(i: nat, now: nat)
      requires Valid() && i < |tsnStreams|
      modifies tsnStreams[i]
      ensures Valid() && tsnStreams[i].arrivals == old(tsnStreams[i].arrivals) + [CycleOffset(now, creationOffset)]
      ensures tsnStreams[i].CoversWindow()
      ensures var stream := tsnStreams[i];
        stream.slots == if IsRecomputation(|stream.arrivals|)
                        then old(stream.slots)[|stream.arrivals| := Slot(stream.startTime, stream.packetSize)] else old(stream.slots)
      ensures Entries() == old(Entries())[i := old(Entries())[i].(count := old(Entries())[i].count + 1, interval := 100)]
    {
      Refresh(tsnStreams[i], now);
    }

    method Refresh(stream: TsnStream, now: nat)
      requires stream.Scheduled() && creationOffset < CYCLE
      modifies stream
      ensures stream.Scheduled() && stream.arrivals == old(stream.arrivals) + [CycleOffset(now, creationOffset)]
      ensures stream.packetInterval == 100 && stream.CoversWindow()
      ensures stream.slots == if IsRecomputation(|stream.arrivals|)
                              then old(stream.slots)[|stream.arrivals| := Slot(stream.startTime, stream.packetSize)] else old(stream.slots)
    {
      hide CycleOffset, AreSlots, InEffect, Covers;
      stream.PushTime(now, creationOffset);
      var newSlotSize := stream.GetNewSlotSize();
      stream.SetPacketSize(newSlotSize);
      stream.SetPacketInterval();
      ghost var slot := Slot(stream.startTime, stream.packetSize);
      SlotsGrow(stream.slots, old(stream.arrivals), stream.arrivals, slot, stream.originalPacketSize);
      if IsRecomputation(|stream.arrivals|) {
        stream.slots := stream.slots[|stream.arrivals| := slot];
      }
    }

    method AdaptSchedule(packet: Packet, now: nat) returns (r: Outcome)
      requires Valid()
      modifies this`tsnStreams, tsnStreams
      ensures Valid() && forall s :: s in tsnStreams ==> s in old(tsnStreams) || fresh(s)
      ensures (r, Entries()) == Adaptation(old(Entries()), packet)
      ensures !packet.inbound.External? ==> r == Ignored
      ensures r == Registered ==> packet.bits > 0 && match FirstRule(forwardingTable, packet.name)
              case None => false
              case Some(rule) => rule.destination in modules && 0 <= rule.pcp <= 7
      ensures r == Ignored || r == Failed ==> tsnStreams == old(tsnStreams) && forall s :: s in tsnStreams ==> unchanged(s)
      ensures |old(tsnStreams)| <= |tsnStreams| && tsnStreams[..|old(tsnStreams)|] == old(tsnStreams)
      ensures forall i :: 0 <= i < |old(tsnStreams)| ==>
        if r == Updated(i) then
          tsnStreams[i].arrivals == old(tsnStreams[i].arrivals) + [CycleOffset(now, creationOffset)] && tsnStreams[i].CoversWindow()
        else unchanged(tsnStreams[i])
      ensures r == Registered ==>
        && |tsnStreams| == |old(tsnStreams)| + 1
        && var stream := tsnStreams[|old(tsnStreams)|];
           stream.arrivals == [CycleOffset(now, creationOffset)] == [stream.startTime] && stream.packetSize == stream.originalPacketSize == packet.bits
    {
      hide FirstRule, FirstMeeting, Meets, Valid, EntryOf, EntriesOf, Entries, CycleOffset, TsnStream.Scheduled, TsnStream.CoversWindow;
      if packet.inbound.Internal? {
        return Ignored;
      }
      if !packet.inbound.External? {
        return Ignored;
      }
      var pcp, destination := 0, "";
      var rule := FindRule(packet.name);
      if rule.Some? {
        pcp, destination := rule.value.pcp, rule.value.destination;
      }
      var external := Resolved(packet.source);
      var i := FindStream(pcp, external, destination);
      if i == |tsnStreams| {
        if destination !in modules || !(0 <= pcp <= 7) || packet.bits <= 0 {
          return Failed;
        }
        assert rule.Some? by { NoNameNoModule(); }
        RegisterStream(pcp, external, destination, packet.bits, now);
        return Registered;
      }
      UpdateStream(i, now);
      return Updated(i);
    }

    lemma NoNameNoModule()
      requires Valid()
      ensures "" !in modules
    {
    }

    /** What a packet does to the registry. */
    ghost function Adaptation(entries: seq<Entry>, packet: Packet): (Outcome, seq<Entry>)
    {
      var rule, external := FirstRule(forwardingTable, packet.name), Resolved(packet.source);
      var pcp, destination := if rule.Some? then rule.value.pcp else 0, if rule.Some? then rule.value.destination else "";
      var i := FirstMeeting(entries, owner, pcp, external, destination);
      if !packet.inbound.External? then (Ignored, entries)
      else if i == |entries| && (destination !in modules || !(0 <= pcp <= 7) || packet.bits <= 0) then (Failed, entries)
      else (if i == |entries| then Registered else Updated(i), Adapted(entries, owner, pcp, external, destination))
    }

    /** The registry after a run of packets. */
    ghost function Run(configured: seq<Entry>, packets: seq<Packet>): seq<Entry>
    {
      if packets == [] then configured
      else Adaptation(Run(configured, packets[..|packets| - 1]), packets[|packets| - 1]).1
    }

    /** A packet from outside to which a rule applies, from a source that is known. */
    predicate Eligible(packet: Packet)
    {
      packet.inbound.External? && FirstRule(forwardingTable, packet.name).Some? && Resolved(packet.source).Some?
    }

    /**
     * What has arrived with a run of packets: the keys of the eligible ones.  The first of its key has to pass the
     * assertions for a new stream.
     */
    ghost function Heard(packets: seq<Packet>): seq<Key>
    {
      if packets == [] then []
      else HeardNext(Heard(packets[..|packets| - 1]), packets[|packets| - 1])
    }

    ghost function HeardNext(before: seq<Key>, packet: Packet): seq<Key>
    {
      if Eligible(packet) && (Regular(packet) || KeyOfPacket(packet) in before) then before + [KeyOfPacket(packet)] else before
    }

    function KeyOfPacket(packet: Packet): Key
      requires FirstRule(forwardingTable, packet.name).Some? && Resolved(packet.source).Some?
    {
      var rule := FirstRule(forwardingTable, packet.name).value;
      Key(rule.pcp, Resolved(packet.source).value, rule.destination)
    }

    predicate PlainRules()
    {
      "" !in modules && forall i :: 0 <= i < |forwardingTable| ==> '.' !in forwardingTable[i].destination
    }

    /** A packet that passes the assertions of the source. */
    predicate Regular(packet: Packet)
    {
      && packet.inbound.External? && packet.bits > 0 && Resolved(packet.source).Some?
      && FirstRule(forwardingTable, packet.name).Some?
      && var rule := FirstRule(forwardingTable, packet.name).value; 0 <= rule.pcp <= 7 && rule.destination in modules
    }

    /**
     * Over every run there is one stream for each key that has arrived, it has counted the arrivals,
     * and it is published from the second one on.
     */
    lemma {:induction false} RunKeepsAccounts(configured: seq<Entry>, packets: seq<Packet>)
      requires PlainRules() && forall i :: 0 <= i < |configured| ==> configured[i].external.None?
      ensures Accounts(Run(configured, packets), owner, Heard(packets))
      decreases |packets|
    {
      if packets != [] {
        RunKeepsAccounts(configured, packets[..|packets| - 1]);
        StepKeepsAccounts(Run(configured, packets[..|packets| - 1]), Heard(packets[..|packets| - 1]), packets[|packets| - 1]);
      }
    }

    lemma StepKeepsAccounts(entries: seq<Entry>, history: seq<Key>, packet: Packet)
      requires PlainRules() && Accounts(entries, owner, history)
      ensures Accounts(Adaptation(entries, packet).1, owner, HeardNext(history, packet))
    {
      var rule, external := FirstRule(forwardingTable, packet.name), Resolved(packet.source);
      FirstRuleIsARule(forwardingTable, packet.name);
      var pcp, destination := if rule.Some? then rule.value.pcp else 0, if rule.Some? then rule.value.destination else "";
      hide Accounts, FirstRule, FirstMeeting, Meets;
      if external.None? {
        UnknownSourceKeepsAccounts(entries, owner, history, pcp, destination);
      } else if destination == "" {
        NoNameIsNotMet(entries, owner, history, pcp, external);
        NoNameIsHeard(entries, owner, history, Key(pcp, external.value, ""));
      } else {
        AdaptedKeepsAccounts(entries, owner, history, Key(pcp, external.value, destination));
        MetIfHeard(entries, owner, history, Key(pcp, external.value, destination));
      }
    }

    /** What becomes of a packet, by what has arrived before it. */
    lemma OutcomeOf(entries: seq<Entry>, history: seq<Key>, packet: Packet)
      requires PlainRules() && Accounts(entries, owner, history)
      ensures var r := Adaptation(entries, packet).0;
        && (r.Ignored? <==> !packet.inbound.External?)
        && (Eligible(packet) ==> (r.Updated? <==> KeyOfPacket(packet) in history))
        && (Eligible(packet) ==> (r.Registered? <==> KeyOfPacket(packet) !in history && Regular(packet)))
    {
      var rule, external := FirstRule(forwardingTable, packet.name), Resolved(packet.source);
      FirstRuleIsARule(forwardingTable, packet.name);
      hide Accounts, FirstRule, FirstMeeting, Meets;
      if rule.Some? && external.Some? {
        var k := Key(rule.value.pcp, external.value, rule.value.destination);
        if k.destination == "" {
          NoNameIsNotMet(entries, owner, history, k.pcp, external);
          NoNameIsHeard(entries, owner, history, k);
        } else {
          MetIfHeard(entries, owner, history, k);
        }
      }
    }

    /** In a run of packets that pass the assertions every packet is counted. */
    lemma {:induction false} RegularPacketsAreCounted(packets: seq<Packet>)
      requires forall i :: 0 <= i < |packets| ==> Regular(packets[i])
      ensures |Heard(packets)| == |packets|
      ensures forall i :: 0 <= i < |packets| && Regular(packets[i]) ==> Heard(packets)[i] == KeyOfPacket(packets[i])
      decreases |packets|
    {
      if packets != [] {
        var rest, packet := packets[..|packets| - 1], packets[|packets| - 1];
        assert Regular(packet) && forall i :: 0 <= i < |rest| ==> rest[i] == packets[i];
        RegularPacketsAreCounted(rest);
      }
    }

    /** The stream that a packet counts for leads to where the packet is forwarded. */
    lemma StreamLeadsToDestination(entries: seq<Entry>, history: seq<Key>, packet: Packet)
      requires PlainRules() && Accounts(entries, owner, history) && FirstRule(forwardingTable, packet.name).Some?
      ensures var (r, next) := Adaptation(entries, packet); var destination := FirstRule(forwardingTable, packet.name).value.destination;
        && (r.Updated? ==> r.index < |next| && next[r.index].destination == destination)
        && (r.Registered? ==> |next| > 0 && next[|next| - 1].destination == destination)
    {
    }

    /** The destination that a packet from outside is forwarded to, by the same rule; there has to be one. */
    method ForwardDestination(name: string) returns (destination: Option<string>)
      ensures destination == match FirstRule(forwardingTable, name) case Some(rule) => Some(rule.destination) case None => None
    {
      var rule := FindRule(name);
      destination := if rule.Some? then Some(rule.value.destination) else None;
    }

    /** What is handed to the scheduler: the streams with an interval. */
    method GetSchedulerConfiguration() returns (configuration: seq<TsnStream>)
      requires Valid()
      ensures (forall s :: s in configuration ==> s in tsnStreams)
      ensures EntriesOf(configuration) == Published(Entries())
    {
      hide Valid, Published, TsnStream.Scheduled, EntriesOf;
      ghost var entries := Entries();
      PublishedStep(entries);
      configuration := [];
      var i := 0;
      while i < |tsnStreams|
        invariant i <= |tsnStreams| && forall s :: s in configuration ==> s in tsnStreams
        invariant Published(entries) == EntriesOf(configuration) + Published(entries[i..])
      {
        assert entries[i..][0] == EntryOf(tsnStreams[i]) && entries[i..][1..] == entries[i + 1..];
        PublishedStep(entries[i..]);
        if tsnStreams[i].packetInterval != 0 {
          assert EntriesOf(configuration + [tsnStreams[i]]) == EntriesOf(configuration) + [EntryOf(tsnStreams[i])];
          configuration := configuration + [tsnStreams[i]];
        }
        i := i + 1;
      }
      assert entries[i..] == [];
    }
  }

  /** A stream of two packets, and the slot computed at the second one. */
  method TwoPackets(first: nat, second: nat, bits: int) returns (stream: TsnStream, size: int)
    requires bits > 0
    ensures stream.Valid() && stream.arrivals == [CycleOffset(first, 0), CycleOffset(second, 0)] && stream.originalPacketSize == bits
    ensures IsSlotFor(Slot(stream.startTime, size), Window(stream.arrivals, 2), bits)
  {
    hide IsSlotFor, CycleOffset;
    stream := new TsnStream(0, "", None, "", bits, 0);
    stream.PushTime(first, 0);
    stream.PushTime(second, 0);
    size := stream.GetNewSlotSize();
  }

  lemma WindowOfTwo(first: int, second: int)
    ensures var samples := Window([first, second], 2); samples[0] == second && samples[1] == first
    ensures forall i :: 2 <= i < QUEUE_SIZE ==> Window([first, second], 2)[i] == 0
  {
    assert [first, second][..2] == [first, second];
  }

  /** Two packets, the second one at the very beginning of a cycle: it is left outside. */
  method ZeroIsOutside() returns (stream: TsnStream, size: int)
    ensures stream.Valid() && stream.arrivals == [50 * MILLISECOND, 0] && stream.startTime > 0
    ensures !Inside(stream.startTime, size, 0, stream.originalPacketSize)
  {
    hide IsSlotFor, Window;
    stream, size := TwoPackets(50 * MILLISECOND, CYCLE, 1000);
    var slot, samples := Slot(stream.startTime, size), Window([50 * MILLISECOND, 0], 2);
    WindowOfTwo(50 * MILLISECOND, 0);
    NegativeStart(slot, samples, 1000, 50 * MILLISECOND, 50 * MILLISECOND);
    ZeroInside(slot, samples, 1000);
  }

  /** The first sample a millisecond after the beginning of the cycle, the other one far from it: the start is negative. */
  method StartsBeforeCycle() returns (stream: TsnStream, size: int)
    ensures stream.Valid() && stream.arrivals == [MILLISECOND, 50 * MILLISECOND] && stream.startTime < 0
  {
    hide IsSlotFor, Window;
    stream, size := TwoPackets(MILLISECOND, 50 * MILLISECOND, 1000);
    var slot, samples := Slot(stream.startTime, size), Window([MILLISECOND, 50 * MILLISECOND], 2);
    WindowOfTwo(MILLISECOND, 50 * MILLISECOND);
    NegativeStart(slot, samples, 1000, MILLISECOND, 50 * MILLISECOND);
  }

  /** The first rule is the one with no other in front of it that applies. */
  lemma {:induction false} FirstRuleIsFirst(rules: seq<Rule>, name: string, i: nat)
    requires i < |rules|
    ensures Contains(name, rules[i].pattern) && (forall j :: 0 <= j < i ==> !Contains(name, rules[j].pattern)) ==>
      FirstRule(rules, name) == Some(rules[i])
    ensures FirstRule(rules, name).None? ==> !Contains(name, rules[i].pattern)
  {
    hide Contains;
    if i > 0 {
      FirstRuleIsFirst(rules[1..], name, i - 1);
      assert forall j :: 0 <= j < i - 1 ==> rules[1..][j] == rules[j + 1];
    }
  }

  lemma {:induction false} FirstRuleIsARule(rules: seq<Rule>, name: string)
    ensures FirstRule(rules, name).Some? ==> FirstRule(rules, name).value in rules
  {
    if rules != [] {
      FirstRuleIsARule(rules[1..], name);
    }
  }

  function Count(history: seq<Key>, k: Key): nat
  {
    if history == [] then 0 else Count(history[..|history| - 1], k) + if history[|history| - 1] == k then 1 else 0
  }

  /** A stream that packets from a known source have registered. */
  predicate IsDynamic(e: Entry) { e.external.Some? }

  function KeyOf(e: Entry): Key
    requires IsDynamic(e)
  {
    Key(e.pcp, e.external.value, e.destination)
  }

  ghost predicate Accounts(entries: seq<Entry>, owner: string, history: seq<Key>)
  {
    && (forall i :: 0 <= i < |entries| && IsDynamic(entries[i]) ==> Accounted(entries[i], owner, history))
    && (forall i, j :: 0 <= i < j < |entries| && IsDynamic(entries[i]) && IsDynamic(entries[j]) ==> KeyOf(entries[i]) != KeyOf(entries[j]))
    && (forall k :: Count(history, k) > 0 ==> Registers(entries, k))
  }

  ghost predicate Accounted(e: Entry, owner: string, history: seq<Key>)
    requires IsDynamic(e)
  {
    && e.source == owner && '.' !in e.destination && e.destination != ""
    && e.count == Count(history, KeyOf(e)) && e.count >= 1 && (Publishes(e) <==> e.count >= 2)
  }

  predicate Registers(entries: seq<Entry>, k: Key)
  {
    exists i :: 0 <= i < |entries| && IsDynamic(entries[i]) && KeyOf(entries[i]) == k
  }

  lemma UnknownSourceKeepsAccounts(entries: seq<Entry>, owner: string, history: seq<Key>, pcp: int, destination: string)
    requires Accounts(entries, owner, history)
    ensures FirstMeeting(entries, owner, pcp, None, destination) == |entries|
    ensures Accounts(Adapted(entries, owner, pcp, None, destination), owner, history)
  {
    var next := entries + [Entry(pcp, owner, None, destination, 1, 0)];
    forall k | Count(history, k) > 0 ensures Registers(next, k) {
      var i :| 0 <= i < |entries| && IsDynamic(entries[i]) && KeyOf(entries[i]) == k;
      assert next[i] == entries[i];
    }
  }

  lemma NoNameIsNotMet(entries: seq<Entry>, owner: string, history: seq<Key>, pcp: int, external: Option<string>)
    requires Accounts(entries, owner, history)
    ensures FirstMeeting(entries, owner, pcp, external, "") == |entries|
  {
    forall j | 0 <= j < |entries| ensures !Meets(entries[j], owner, pcp, external, "") {
      assert IsDynamic(entries[j]) ==> Accounted(entries[j], owner, history);
    }
  }

  lemma {:induction false} CountedIsIn(history: seq<Key>, k: Key)
    ensures Count(history, k) > 0 <==> k in history
  {
    if history != [] {
      CountedIsIn(history[..|history| - 1], k);
      assert history == history[..|history| - 1] + [history[|history| - 1]];
    }
  }

  /** A stream without a destination has never been heard of. */
  lemma NoNameIsHeard(entries: seq<Entry>, owner: string, history: seq<Key>, k: Key)
    requires Accounts(entries, owner, history) && k.destination == ""
    ensures k !in history
  {
    CountedIsIn(history, k);
  }

  /** A packet meets a stream if and only if its key has arrived before. */
  lemma MetIfHeard(entries: seq<Entry>, owner: string, history: seq<Key>, k: Key)
    requires Accounts(entries, owner, history) && '.' !in k.destination
    ensures FirstMeeting(entries, owner, k.pcp, Some(k.external), k.destination) < |entries| <==> k in history
  {
    CountedIsIn(history, k);
    var i := FirstMeeting(entries, owner, k.pcp, Some(k.external), k.destination);
    forall j | 0 <= j < |entries| && IsDynamic(entries[j])
      ensures Meets(entries[j], owner, k.pcp, Some(k.external), k.destination) <==> KeyOf(entries[j]) == k
    {
      assert Accounted(entries[j], owner, history);
    }
    if i < |entries| { assert Accounted(entries[i], owner, history) && KeyOf(entries[i]) == k; }
  }

  lemma AdaptedKeepsAccounts(entries: seq<Entry>, owner: string, history: seq<Key>, k: Key)
    requires Accounts(entries, owner, history) && '.' !in k.destination && k.destination != ""
    ensures Accounts(Adapted(entries, owner, k.pcp, Some(k.external), k.destination), owner, history + [k])
  {
    var more := history + [k];
    assert more[..|more| - 1] == history;
    var i := FirstMeeting(entries, owner, k.pcp, Some(k.external), k.destination);
    var next := Adapted(entries, owner, k.pcp, Some(k.external), k.destination);
    forall j | 0 <= j < |entries| && IsDynamic(entries[j])
      ensures Meets(entries[j], owner, k.pcp, Some(k.external), k.destination) <==> KeyOf(entries[j]) == k
    {
      assert Accounted(entries[j], owner, history);
    }
    if i == |entries| {
      assert !Registers(entries, k) && Count(history, k) == 0;
    }
    forall j | 0 <= j < |next| && IsDynamic(next[j]) ensures Accounted(next[j], owner, more) {
      if j < |entries| { assert Accounted(entries[j], owner, history); }
    }
    forall key | Count(more, key) > 0 ensures Registers(next, key) {
      if key == k {
        assert KeyOf(next[i]) == k;
      } else {
        assert Count(more, key) == Count(history, key);
        var j :| 0 <= j < |entries| && IsDynamic(entries[j]) && KeyOf(entries[j]) == key;
        assert KeyOf(next[j]) == key;
      }
    }
  }

  /**
   * After a packet, the next one of the same kind finds a stream if and only if its source is known and its destination
   * a plain name; otherwise it meets none of all the streams, and registers a new one.
   */
  lemma FoundAgain(entries: seq<Entry>, owner: string, pcp: int, external: Option<string>, destination: string)
    ensures var next := Adapted(entries, owner, pcp, external, destination);
      FirstMeeting(next, owner, pcp, external, destination) < |next| <==> external.Some? && '.' !in destination
  {
    var next := Adapted(entries, owner, pcp, external, destination);
    var i := FirstMeeting(entries, owner, pcp, external, destination);
    forall j | 0 <= j < |next| ensures '.' !in FullName(next[j].destination) {
      FullNameIsPlain(next[j].destination);
    }
    assert external.Some? && '.' !in destination ==> Meets(next[i], owner, pcp, external, destination);
  }

  /** The full name is what follows the last dot. */
  lemma {:induction false} FullNameIsLast(path: string, name: string)
    requires '.' !in name
    ensures FullName(name) == name && FullName(path + "." + name) == name
  {
    var whole := path + "." + name;
    if path == "" {
      assert whole[0] == '.' && whole[1..] == name;
    } else {
      assert whole[1..] == path[1..] + "." + name;
      assert whole[|path|] == '.';
      FullNameIsLast(path[1..], name);
    }
  }

  lemma {:induction false} FullNameIsPlain(path: string)
    ensures '.' !in FullName(path)
  {
    if '.' in path {
      FullNameIsPlain(path[1..]);
    }
  }

  /** Each stream is handed over or not on its own, and the order stays. */
  lemma {:induction false} PublishedInOrder(entries: seq<Entry>, more: seq<Entry>, e: Entry)
    ensures Published([e]) == if e.interval != 0 then [e] else []
    ensures Published(entries + more) == Published(entries) + Published(more)
  {
    assert [e][1..] == [];
    if entries == [] {
      assert entries + more == more;
    } else {
      assert (entries + more)[1..] == entries[1..] + more;
      PublishedInOrder(entries[1..], more, e);
    }
  }

  /** Exactly the streams with an interval are handed over, in their order. */
  lemma {:induction false} PublishedIff(entries: seq<Entry>, e: Entry)
    ensures e in Published(entries) <==> e in entries && Publishes(e)
  {
    if entries != [] {
      PublishedIff(entries[1..], e);
      assert entries == [entries[0]] + entries[1..];
    }
  }

  method Occurs(s: string, t: string) returns (r: bool)
    ensures r <==> Contains(s, t)
  {
    var i := 0;
    while i <= |s|
      invariant i <= |s| + 1 && forall j :: 0 <= j < i ==> !(t <= s[j..])
    {
      if t <= s[i..] {
        return true;
      }
      i := i + 1;
    }
    return false;
  }
}
