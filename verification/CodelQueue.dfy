/** What a CoDel queue did, as a log, and what a well-behaved log looks like. */
module CodelLog {
  datatype Packet = Packet(len: nat, ect: bool, enqueueTime: int)

  /** A packet pointer as the dequeue callback returns it. */
  datatype Skb = Null | Skb(packet: Packet)

  datatype Event =
    | Empty(time: int)
    | Examined(time: int, packet: Packet, backlog: int, maxpacket: nat)
    | Dropped(time: int, packet: Packet)
    | Marked(time: int, packet: Packet)
    | Returned(time: int, packet: Packet)

  function Packets(skb: Skb): seq<Packet> {
    if skb.Null? then [] else [skb.packet]
  }

  function TotalLen(queue: seq<Packet>): (n: nat) {
    if queue == [] then 0 else queue[0].len + TotalLen(queue[1..])
  }

  lemma {:induction false} TotalLenAppend(queue: seq<Packet>, p: Packet)
    ensures TotalLen(queue + [p]) == TotalLen(queue) + p.len
  {
    if queue == [] {
      assert (queue + [p])[1..] == [];
    } else {
      assert (queue + [p])[1..] == queue[1..] + [p];
      TotalLenAppend(queue[1..], p);
    }
  }

  lemma TotalLenHead(p: Packet, queue: seq<Packet>)
    ensures TotalLen(Packets(Skb(p)) + queue) == p.len + TotalLen(queue)
  {
    assert ([p] + queue)[1..] == queue;
  }

  lemma Arrives(gone: seq<Packet>, queue: seq<Packet>, p: Packet)
    ensures gone + Packets(Null) + (queue + [p]) == gone + Packets(Null) + queue + [p]
  {
  }

  /** The packets that left the queue, dropped or returned, in order. */
  function Outcomes(log: seq<Event>): seq<Packet> {
    if log == [] then [] else
      var e := log[|log| - 1];
      if e.Dropped? || e.Returned? then Outcomes(log[..|log| - 1]) + [e.packet] else Outcomes(log[..|log| - 1])
  }

  function Drops(log: seq<Event>): nat {
    if log == [] then 0 else Drops(log[..|log| - 1]) + (if log[|log| - 1].Dropped? then 1 else 0)
  }

  function Marks(log: seq<Event>): nat {
    if log == [] then 0 else Marks(log[..|log| - 1]) + (if log[|log| - 1].Marked? then 1 else 0)
  }

  lemma FoldsAppend(log: seq<Event>, e: Event)
    ensures Outcomes(log + [e]) == if e.Dropped? || e.Returned? then Outcomes(log) + [e.packet] else Outcomes(log)
    ensures Drops(log + [e]) == Drops(log) + (if e.Dropped? then 1 else 0)
    ensures Marks(log + [e]) == Marks(log) + (if e.Marked? then 1 else 0)
  {
    assert (log + [e])[..|log|] == log;
  }

  lemma {:induction false} OutcomesConcat(log: seq<Event>, more: seq<Event>)
    ensures Outcomes(log + more) == Outcomes(log) + Outcomes(more)
  {
    if more == [] {
      assert log + more == log;
    } else {
      var init, e := more[..|more| - 1], more[|more| - 1];
      assert log + more == log + init + [e] && more == init + [e];
      FoldsAppend(log + init, e);
      FoldsAppend(init, e);
      OutcomesConcat(log, init);
    }
  }

  lemma OneEmpty(log: seq<Event>, now: int)
    ensures Outcomes((log + [Empty(now)])[|log|..]) == []
  {
    assert (log + [Empty(now)])[|log|..] == [] + [Empty(now)];
    FoldsAppend([], Empty(now));
  }

  /** What the new part of a log dropped and returned is what the queue lost at its front. */
  lemma OutcomesGrow(log: seq<Event>, longer: seq<Event>, before: seq<Packet>, after: seq<Packet>)
    requires log <= longer
    requires Outcomes(log) + Packets(Null) + before == Outcomes(longer) + Packets(Null) + after
    ensures before == Outcomes(longer[|log|..]) + after
  {
    var more := longer[|log|..];
    assert longer == log + more;
    OutcomesConcat(log, more);
    SameTail(Outcomes(log), before, Outcomes(more), after);
  }

  lemma SameTail(head: seq<Packet>, before: seq<Packet>, gone: seq<Packet>, after: seq<Packet>)
    requires head + Packets(Null) + before == head + gone + Packets(Null) + after
    ensures before == gone + after
  {
    assert head + Packets(Null) + before == head + before;
    assert head + gone + Packets(Null) + after == head + (gone + after);
    assert (head + before)[|head|..] == before;
    assert (head + (gone + after))[|head|..] == gone + after;
  }

  /** Nothing in the window was an empty poll or a packet below the thresholds. */
  ghost predicate Above(e: Event, target: int) {
    !e.Empty? && (e.Examined? ==> e.time - e.packet.enqueueTime >= target && e.backlog > e.maxpacket)
  }

  /** Every entry from `start` on is above. */
  ghost predicate StaysAbove(log: seq<Event>, start: nat, target: int) {
    start < |log| ==> Above(log[|log| - 1], target) && StaysAbove(log[..|log| - 1], start, target)
  }

  /** Entry `start` set the timer that expires at `expiry`, and since then the log stayed above. */
  ghost predicate Running(log: seq<Event>, start: nat, expiry: int, target: int, interval: int) {
    start < |log| && log[start].Examined? && log[start].time + interval == expiry && StaysAbove(log, start, target)
  }

  lemma RunningAppend(log: seq<Event>, start: nat, expiry: int, target: int, interval: int, e: Event)
    requires Running(log, start, expiry, target, interval) && Above(e, target)
    ensures Running(log + [e], start, expiry, target, interval)
  {
    assert (log + [e])[..|log|] == log;
  }

  lemma RunningStart(log: seq<Event>, target: int, interval: int, e: Event)
    requires e.Examined? && Above(e, target)
    ensures Running(log + [e], |log|, e.time + interval, target, interval)
  {
    assert (log + [e])[..|log|] == log;
    assert StaysAbove(log, |log|, target);
  }

  ghost predicate Acted(e: Event) {
    e.Dropped? || e.Marked?
  }

  /** The log ends with `packet` examined, and a timer started `interval` ago has run out by `time`. */
  ghost predicate Expired(log: seq<Event>, start: nat, packet: Packet, time: int, target: int, interval: int) {
    |log| > 0 && log[|log| - 1].Examined? && log[|log| - 1].packet == packet &&
    start < |log| && log[start].Examined? && log[start].time + interval < time && StaysAbove(log, start, target)
  }

  /** Times do not decrease, and each act on a packet found an expired timer. */
  ghost predicate Sound(log: seq<Event>, clock: int, target: int, interval: int) {
    log == [] ||
    (var before, e := log[..|log| - 1], log[|log| - 1];
     e.time <= clock && Sound(before, e.time, target, interval) &&
     (Acted(e) ==> exists start: nat :: Expired(before, start, e.packet, e.time, target, interval)))
  }

  lemma SoundAppend(log: seq<Event>, clock: int, target: int, interval: int, e: Event, start: nat)
    requires Sound(log, clock, target, interval) && clock <= e.time
    requires Acted(e) ==> Expired(log, start, e.packet, e.time, target, interval)
    ensures Sound(log + [e], e.time, target, interval)
  {
    assert (log + [e])[..|log|] == log;
    SoundLater(log, clock, e.time, target, interval);
  }

  lemma SoundLater(log: seq<Event>, clock: int, later: int, target: int, interval: int)
    requires Sound(log, clock, target, interval) && clock <= later
    ensures Sound(log, later, target, interval)
  {
  }

  lemma {:induction false} StaysAboveAt(log: seq<Event>, start: nat, target: int, i: nat)
    requires StaysAbove(log, start, target) && start <= i < |log|
    ensures Above(log[i], target)
  {
    if i < |log| - 1 {
      StaysAboveAt(log[..|log| - 1], start, target, i);
    }
  }

  lemma {:induction false} SoundAt(log: seq<Event>, clock: int, target: int, interval: int, k: nat)
    requires Sound(log, clock, target, interval) && k < |log|
    ensures log[k].time <= clock
    ensures Acted(log[k]) ==>
      exists start: nat :: Expired(log[..k], start, log[k].packet, log[k].time, target, interval)
  {
    var before := log[..|log| - 1];
    if k < |log| - 1 {
      SoundAt(before, log[|log| - 1].time, target, interval, k);
      assert before[..k] == log[..k];
    }
  }

  lemma {:induction false} SoundOrdered(log: seq<Event>, clock: int, target: int, interval: int, i: nat, j: nat)
    requires Sound(log, clock, target, interval) && i <= j < |log|
    ensures log[i].time <= log[j].time
  {
    var before := log[..|log| - 1];
    if j < |log| - 1 {
      SoundOrdered(before, log[|log| - 1].time, target, interval, i, j);
    } else if i < j {
      SoundAt(before, log[|log| - 1].time, target, interval, i);
    }
  }

  /**
   * In a sound log every dropped or marked packet was examined just before, and there is a stretch
   * of the log, begun more than `interval` earlier by an examined packet, without an empty poll, in
   * which each examined packet had waited at least `target` and left more than `maxpacket` queued.
   */
  lemma ActsAreJustified(log: seq<Event>, clock: int, target: int, interval: int, k: nat)
    requires Sound(log, clock, target, interval) && k < |log| && Acted(log[k])
    ensures k > 0 && log[k - 1].Examined? && log[k - 1].packet == log[k].packet
    ensures exists start: nat :: start < k && log[start].Examined? && log[start].time + interval < log[k].time &&
              forall i :: start <= i < k ==>
                !log[i].Empty? && log[i].time <= log[k].time &&
                (log[i].Examined? ==> log[i].time - log[i].packet.enqueueTime >= target && log[i].backlog > log[i].maxpacket)
  {
    SoundAt(log, clock, target, interval, k);
    var start: nat :| Expired(log[..k], start, log[k].packet, log[k].time, target, interval);
    forall i | start <= i < k
      ensures Above(log[i], target) && log[i].time <= log[k].time
    {
      StaysAboveAt(log[..k], start, target, i);
      SoundOrdered(log, clock, target, interval, i, k);
    }
    assert log[..k][k - 1] == log[k - 1] && log[..k][start] == log[start];
  }
}

/** The CoDel queue discipline. */
module CodelQueue {
  import opened CodelRate
  import opened CodelLog

  /** The bitwise or with 1. */
  function Odd(n: nat): (r: nat)
    ensures r % 2 == 1 && n <= r <= n + 1
  {
    if n % 2 == 0 then n + 1 else n
  }

  /** Resuming with the drops since the last entry does not raise the count above the last one. */
  lemma RestartUnder(count: nat, lastcount: nat, restart: nat, rec: nat)
    requires lastcount <= count < U32 && rec < U16 && Under(count, rec) && (lastcount == 0 ==> count == 0)
    requires restart == Odd(count - lastcount)
    ensures 1 <= restart < U32 && restart <= if count == 0 then 1 else count
    ensures Under(restart, NewtonStep(restart, rec))
    ensures NewtonStep(restart, rec) == 0 <==> rec == 0
  {
    if count == 0 {
      SquareMono(rec, U16 - 1);
    } else {
      UnderSmaller(count, restart, rec);
    }
    NewtonKeepsUnder(restart, rec);
    NewtonZeroExact(restart, rec);
  }

  class Codel {
    const target: nat
    const interval: nat
    const ecn: bool

    var queue: seq<Packet>
    var backlog: int
    var count: nat
    var lastcount: nat
    var dropping: bool
    var recInvSqrt: nat
    var firstAboveTime: int
    var dropNext: int
    var ldelay: int
    var maxpacket: nat
    var dropCount: nat
    var ecnMark: nat

    ghost var log: seq<Event>      // everything done so far
    ghost var arrived: seq<Packet> // every packet ever enqueued
    ghost var clock: int           // time of the last operation
    ghost var start: nat           // log entry that set firstAboveTime
    ghost var wrapped: bool        // count has wrapped around 2^32

    /** Until count wraps, the estimate is an under-estimate and the restart subtraction is exact. */
    ghost predicate Rated()
      reads this`count, this`lastcount, this`recInvSqrt, this`wrapped
    {
      count < U32 && lastcount < U32 && recInvSqrt < U16 &&
      (!wrapped ==> lastcount <= count && Under(count, recInvSqrt) && (lastcount == 0 ==> count == 0))
    }

    ghost predicate Paced()
      reads this`count, this`lastcount, this`recInvSqrt, this`dropping, this`wrapped
    {
      Rated() && (dropping && !wrapped ==> lastcount > 0)
    }

    /** Every packet that came in is in `skb`, in the queue, or dropped or returned, in order. */
    ghost predicate Conserves(skb: Skb)
      reads this`log, this`queue, this`arrived
    {
      Outcomes(log) + Packets(skb) + queue == arrived
    }

    /** A running timer was started by a log entry since which everything stayed above. */
    ghost predicate Timed()
      reads this`firstAboveTime, this`log, this`start
    {
      firstAboveTime != 0 ==> Running(log, start, firstAboveTime, target, interval)
    }

    ghost predicate Logged()
      reads this`log, this`clock, this`dropCount, this`ecnMark
    {
      Sound(log, clock, target, interval) && dropCount == Drops(log) && ecnMark == Marks(log)
    }

    /** `skb` has been pulled and examined, nothing has been done with it yet. */
    ghost predicate Holding(skb: Skb)
      reads this`log, this`queue, this`arrived, this`backlog, this`firstAboveTime, this`start, this`clock, this`dropCount, this`ecnMark
    {
      Conserves(skb) && backlog == TotalLen(queue) && Timed() && Logged() &&
      (queue == [] ==> firstAboveTime == 0)
    }

    ghost predicate Valid()
      reads this
    {
      Paced() && Holding(Null)
    }

    constructor (target: nat, interval: nat, ecn: bool)
      ensures Valid() && log == [] && arrived == [] && queue == [] && !wrapped
      ensures this.target == target && this.interval == interval && this.ecn == ecn
      ensures count == lastcount == recInvSqrt == 0 && !dropping && firstAboveTime == dropNext == 0
      ensures maxpacket == 256 && dropCount == ecnMark == 0 && clock == 0
    {
      this.target, this.interval, this.ecn := target, interval, ecn;
      queue, backlog := [], 0;
      count, lastcount, dropping, recInvSqrt := 0, 0, false, 0;
      firstAboveTime, dropNext, ldelay := 0, 0, 0;
      maxpacket, dropCount, ecnMark := 256, 0, 0;
      log, arrived, clock, start, wrapped := [], [], 0, 0, false;
    }

    /** The discipline's tail enqueue: stamp the time, count the bytes. */
    method Enqueue(len: nat, ect: bool, now: int)
      requires Valid() && clock <= now
      modifies this`queue, this`backlog, this`arrived, this`clock
      ensures Valid() && clock == now
      ensures queue == old(queue) + [Packet(len, ect, now)]
      ensures arrived == old(arrived) + [Packet(len, ect, now)]
    {
      var p := Packet(len, ect, now);
      TotalLenAppend(queue, p);
      Arrives(Outcomes(log), queue, p);
      SoundLater(log, clock, now, target, interval);
      queue := queue + [p];
      backlog := backlog + len;
      arrived := arrived + [p];
      clock := now;
    }

    method Pull() returns (skb: Skb)
      modifies this`queue
      ensures Packets(skb) + queue == old(queue)
      ensures skb.Null? <==> old(queue) == []
    {
      if queue == [] {
        return Null;
      }
      skb := Skb(queue[0]);
      queue := queue[1..];
    }

    ghost method Note(e: Event)
      requires Sound(log, clock, target, interval) && clock <= e.time
      requires Acted(e) ==> Expired(log, start, e.packet, e.time, target, interval)
      modifies this`log, this`clock
      ensures log == old(log) + [e] && clock == e.time && Sound(log, clock, target, interval)
      ensures Outcomes(log) == (if e.Dropped? || e.Returned? then Outcomes(old(log)) + [e.packet] else Outcomes(old(log)))
      ensures Drops(log) == Drops(old(log)) + (if e.Dropped? then 1 else 0)
      ensures Marks(log) == Marks(old(log)) + (if e.Marked? then 1 else 0)
    {
      SoundAppend(log, clock, target, interval, e, start);
      FoldsAppend(log, e);
      log := log + [e];
      clock := e.time;
    }

    /** The packet in hand was just examined at `now` and the timer has run out. */
    ghost predicate MayAct(skb: Skb, now: int)
      reads this`clock, this`log, this`start
    {
      skb.Skb? && clock == now && Expired(log, start, skb.packet, now, target, interval)
    }

    /** The timer was started and has run out. */
    ghost predicate Due(now: int)
      reads this`firstAboveTime
    {
      firstAboveTime != 0 && firstAboveTime < now
    }

    /** The packet at the front would be found above both thresholds. */
    ghost predicate FrontAbove(now: int)
      reads this`queue, this`maxpacket
    {
      queue != [] && now - queue[0].enqueueTime >= target &&
      TotalLen(queue[1..]) > (if queue[0].len > maxpacket then queue[0].len else maxpacket)
    }

    /** And the timer has run out. */
    ghost predicate FrontDue(now: int)
      reads this`queue, this`maxpacket, this`firstAboveTime
    {
      Due(now) && FrontAbove(now)
    }

    /** What examining a packet leaves in the timer. */
    ghost function TimerAfter(above: bool, now: int): int
      reads this`firstAboveTime
    {
      if !above then 0 else if firstAboveTime == 0 then now + interval else firstAboveTime
    }

    /** The accounting half of the examination. */
    method Account(p: Packet, now: int)
      requires Conserves(Skb(p)) && backlog == TotalLen(Packets(Skb(p)) + queue) && Logged() && clock <= now
      modifies this`ldelay, this`backlog, this`maxpacket, this`log, this`clock
      ensures Conserves(Skb(p)) && backlog == TotalLen(queue) && Logged()
      ensures maxpacket == (if p.len > old(maxpacket) then p.len else old(maxpacket))
      ensures ldelay == now - p.enqueueTime && clock == now
      ensures log == old(log) + [Examined(now, p, backlog, maxpacket)]
    {
      Note(Examined(now, p, backlog - p.len, if p.len > maxpacket then p.len else maxpacket));
      TotalLenHead(p, queue);
      ldelay := now - p.enqueueTime;
      backlog := backlog - p.len;
      if p.len > maxpacket {
        maxpacket := p.len;
      }
    }

    /** Examine a pulled packet: true only when the timer has run out. */
    method ShouldDrop(skb: Skb, now: int) returns (ok: bool)
      requires Conserves(skb) && backlog == TotalLen(Packets(skb) + queue) && Timed() && Logged()
      requires skb.Null? ==> queue == []
      requires clock <= now && 0 < now
      modifies this`ldelay, this`backlog, this`maxpacket, this`firstAboveTime, this`log, this`clock, this`start
      ensures Holding(skb) && clock == now
      ensures log == old(log) + [if skb.Null? then Empty(now) else Examined(now, skb.packet, TotalLen(queue), maxpacket)]
      ensures skb.Skb? ==> maxpacket == if skb.packet.len > old(maxpacket) then skb.packet.len else old(maxpacket)
      ensures ok ==> MayAct(skb, now)
      ensures ok <==> skb.Skb? && now - skb.packet.enqueueTime >= target && TotalLen(queue) > maxpacket &&
                      old(Due(now))
      ensures ok <==> Due(now)
      ensures firstAboveTime == old(TimerAfter(skb.Skb? && now - skb.packet.enqueueTime >= target &&
        TotalLen(queue) > (if skb.packet.len > maxpacket then skb.packet.len else maxpacket), now))
    {
      if skb.Null? {
        Note(Empty(now));
        firstAboveTime := 0;
        return false;
      }
      ghost var before := log;
      Account(skb.packet, now);
      if ldelay < target || backlog <= maxpacket {
        firstAboveTime := 0;
        return false;
      }
      ok := false;
      ghost var e := Examined(now, skb.packet, backlog, maxpacket);
      if firstAboveTime == 0 {
        firstAboveTime := now + interval;
        start := |before|;
        RunningStart(before, target, interval, e);
      } else {
        RunningAppend(before, start, firstAboveTime, target, interval, e);
        if now > firstAboveTime {
          ok := true;
        }
      }
    }

    /** Record an act on a packet; a running timer keeps running. */
    ghost method NoteAct(e: Event)
      requires Logged() && Timed() && clock <= e.time && !e.Empty? && !e.Examined?
      requires Acted(e) ==> Expired(log, start, e.packet, e.time, target, interval)
      modifies this`log, this`clock
      ensures log == old(log) + [e] && clock == e.time && Timed() && Sound(log, clock, target, interval)
      ensures Outcomes(log) == (if e.Dropped? || e.Returned? then Outcomes(old(log)) + [e.packet] else Outcomes(old(log)))
      ensures Drops(log) == Drops(old(log)) + (if e.Dropped? then 1 else 0)
      ensures Marks(log) == Marks(old(log)) + (if e.Marked? then 1 else 0)
    {
      if firstAboveTime != 0 {
        RunningAppend(log, start, firstAboveTime, target, interval, e);
      }
      Note(e);
    }

    /** Discard the packet in hand. */
    method Drop(skb: Skb, now: int)
      requires Holding(skb) && MayAct(skb, now)
      modifies this`dropCount, this`log, this`clock
      ensures Holding(Null) && clock == now && old(log) <= log && dropCount == old(dropCount) + 1
    {
      NoteAct(Dropped(now, skb.packet));
      dropCount := dropCount + 1;
      assert Outcomes(log) == Outcomes(old(log)) + Packets(skb);
      assert Outcomes(log) + Packets(Null) == Outcomes(log);
    }

    /** Marking is enabled and the packet can carry the mark. */
    predicate Markable(skb: Skb) {
      ecn && skb.Skb? && skb.packet.ect
    }

    /** Set the congestion mark instead of dropping. */
    method Mark(skb: Skb, now: int)
      requires Holding(skb) && MayAct(skb, now) && Markable(skb)
      modifies this`ecnMark, this`log, this`clock
      ensures Holding(skb) && clock == now && old(log) <= log && ecnMark == old(ecnMark) + 1
    {
      NoteAct(Marked(now, skb.packet));
      ecnMark := ecnMark + 1;
    }

    /** Pull the next packet and examine it. */
    method Next(now: int) returns (skb: Skb, ok: bool)
      requires Holding(Null) && clock <= now && 0 < now
      modifies this`queue, this`ldelay, this`backlog, this`maxpacket, this`firstAboveTime, this`log, this`clock, this`start
      ensures Holding(skb) && clock == now && Packets(skb) + queue == old(queue)
      ensures skb.Null? <==> old(queue) == []
      ensures ok ==> MayAct(skb, now)
      ensures (ok <==> Due(now)) && (ok <==> old(FrontDue(now)))
      ensures firstAboveTime == old(TimerAfter(FrontAbove(now), now))
      ensures skb.Skb? ==> maxpacket == if skb.packet.len > old(maxpacket) then skb.packet.len else old(maxpacket)
      ensures old(log) <= log
    {
      skb := Pull();
      assert old(queue) != [] ==> queue == old(queue)[1..] && skb == Skb(old(queue)[0]);
      assert Outcomes(log) + Packets(Null) == Outcomes(log);
      assert Outcomes(log) + Packets(skb) + queue == Outcomes(log) + (Packets(skb) + queue);
      ok := ShouldDrop(skb, now);
    }

    /** Drop the packet in hand, then pull and examine the next. */
    method DropAndNext(packet: Skb, now: int) returns (skb: Skb, ok: bool)
      requires Holding(packet) && MayAct(packet, now) && 0 < now
      modifies this`dropCount, this`queue, this`ldelay, this`backlog, this`maxpacket,
        this`firstAboveTime, this`log, this`clock, this`start
      ensures Holding(skb) && clock == now && old(log) <= log && Packets(skb) + queue == old(queue)
      ensures skb.Null? <==> old(queue) == []
      ensures ok ==> MayAct(skb, now)
      ensures ok <==> Due(now)
      ensures dropCount == old(dropCount) + 1
    {
      Drop(packet, now);
      skb, ok := Next(now);
    }

    /** The caller gets the packet in hand, if any. */
    ghost method Deliver(skb: Skb, now: int)
      requires Holding(skb) && clock <= now
      modifies this`log, this`clock
      ensures Holding(Null) && old(clock) <= clock <= now && old(log) <= log
      ensures skb.Skb? ==> |log| > 0 && log[|log| - 1] == Returned(now, skb.packet)
    {
      if skb.Skb? {
        NoteAct(Returned(now, skb.packet));
        assert Outcomes(log) == Outcomes(old(log)) + Packets(skb);
        assert Outcomes(log) + Packets(Null) == Outcomes(log);
      }
    }

    /** One more drop in this dropping state. */
    method CountDrop()
      requires Paced() && dropping
      modifies this`count, this`recInvSqrt, this`wrapped
      ensures Paced()
      ensures count == Wrap(old(count) + 1, U32) && wrapped == (old(wrapped) || old(count) + 1 == U32)
      ensures recInvSqrt == NewtonStep(count, old(recInvSqrt))
      ensures !wrapped ==> (recInvSqrt == 0 <==> old(recInvSqrt) == 0)
    {
      if !wrapped {
        UnderNext(count, recInvSqrt);
      }
      wrapped := wrapped || count + 1 == U32;
      count := Wrap(count + 1, U32);
      if !wrapped {
        NewtonKeepsUnder(count, recInvSqrt);
        NewtonZeroExact(count, recInvSqrt);
      }
      recInvSqrt := NewtonStep(count, recInvSqrt);
    }

    /** Move the next drop on by the control law. */
    method Schedule(from: int)
      requires Paced()
      modifies this`dropNext
      ensures dropNext == from + Gap(interval, recInvSqrt)
      ensures U16 * (dropNext - from) <= interval * recInvSqrt < U16 * (dropNext - from + 1)
      ensures !wrapped ==> count * ((dropNext - from) * (dropNext - from)) <= interval * interval
    {
      dropNext := from + Gap(interval, recInvSqrt);
      GapExact(interval, recInvSqrt);
      if !wrapped {
        GapBound(interval, count, recInvSqrt);
      }
    }

    /** Enter the dropping state: resume the last rate if it is recent, else start slow. */
    method EnterDropping(now: int)
      requires Paced() && !dropping
      modifies this`dropping, this`count, this`lastcount, this`recInvSqrt, this`dropNext
      ensures Paced() && dropping && lastcount == count
      ensures if now - old(dropNext) < 16 * interval
        then count == Odd(Wrap(old(count) - old(lastcount), U32)) && recInvSqrt == NewtonStep(count, old(recInvSqrt))
        else count == 1 && recInvSqrt == 0xFFFF && now + interval - 1 - interval / U16 <= dropNext <= now + interval
      ensures dropNext == now + Gap(interval, recInvSqrt)
      ensures U16 * (dropNext - now) <= interval * recInvSqrt < U16 * (dropNext - now + 1)
      ensures !wrapped ==> 1 <= count <= if old(count) == 0 then 1 else old(count)
      ensures !wrapped ==> (recInvSqrt == 0 <==> old(recInvSqrt) == 0 && now - old(dropNext) < 16 * interval)
      ensures !wrapped ==> count * ((dropNext - now) * (dropNext - now)) <= interval * interval
      ensures now <= dropNext
    {
      dropping := true;
      if now - dropNext < 16 * interval {
        var restart := Odd(Wrap(count - lastcount, U32));
        if !wrapped {
          RestartUnder(count, lastcount, restart, recInvSqrt);
        }
        count := restart;
        recInvSqrt := NewtonStep(count, recInvSqrt);
      } else {
        count, recInvSqrt := 1, RESET;
        GapReset(interval);
      }
      lastcount := count;
      Schedule(now);
    }

    /** Drop the packet in hand; the next one decides whether the dropping state goes on. */
    method DropOne(packet: Skb, now: int) returns (skb: Skb)
      requires Paced() && Holding(packet) && MayAct(packet, now) && dropping && 0 < now
      modifies this`dropping, this`dropNext, this`dropCount, this`queue, this`ldelay, this`backlog, this`maxpacket,
        this`firstAboveTime, this`log, this`clock, this`start
      ensures Paced() && Holding(skb) && clock == now && old(log) <= log
      ensures dropping ==> MayAct(skb, now)
      ensures skb.Null? <==> old(queue) == []
      ensures Packets(skb) + queue == old(queue)
      ensures dropNext == old(dropNext) + if dropping then Gap(interval, recInvSqrt) else 0
      ensures (dropping <==> Due(now)) && dropCount == old(dropCount) + 1
    {
      var ok;
      skb, ok := DropAndNext(packet, now);
      if !ok {
        dropping := false;
      } else {
        Schedule(dropNext);
      }
    }

    /** Mark the packet in hand and schedule the next drop. */
    method MarkOne(packet: Skb, now: int)
      requires Paced() && Holding(packet) && MayAct(packet, now) && Markable(packet)
      modifies this`dropNext, this`ecnMark, this`log, this`clock
      ensures Paced() && Holding(packet) && clock == now && old(log) <= log
      ensures dropNext == old(dropNext) + Gap(interval, recInvSqrt) && ecnMark == old(ecnMark) + 1
    {
      Mark(packet, now);
      Schedule(dropNext);
    }

    /** One round of the drop loop: count, then mark or drop, then move the schedule. */
    method DropRound(packet: Skb, now: int) returns (skb: Skb, marked: bool)
      requires Paced() && Holding(packet) && MayAct(packet, now) && dropping && Due(now) && 0 < now
      modifies this`count, this`recInvSqrt, this`wrapped, this`ecnMark,
        this`dropping, this`dropNext, this`dropCount, this`queue, this`ldelay, this`backlog, this`maxpacket,
        this`firstAboveTime, this`log, this`clock, this`start
      ensures Paced() && Holding(skb) && clock == now && old(log) <= log
      ensures marked <==> ecn && packet.packet.ect
      ensures marked ==> skb == packet && queue == old(queue)
      ensures !marked ==> (dropping ==> MayAct(skb, now)) && (skb.Null? <==> old(queue) == [])
      ensures !marked ==> |Packets(skb)| + |queue| == |old(queue)|
      ensures (old(wrapped) ==> wrapped) && (!wrapped ==> (recInvSqrt == 0 <==> old(recInvSqrt) == 0))
      ensures count == Wrap(old(count) + 1, U32) && recInvSqrt == NewtonStep(count, old(recInvSqrt))
      ensures dropNext == old(dropNext) + if dropping then Gap(interval, recInvSqrt) else 0
      ensures dropping <==> Due(now)
      ensures ecnMark == old(ecnMark) + (if marked then 1 else 0) && dropCount == old(dropCount) + if marked then 0 else 1
    {
      CountDrop();
      marked := Markable(packet);
      if marked {
        MarkOne(packet, now);
        skb := packet;
      } else {
        skb := DropOne(packet, now);
      }
    }

    /**
     * Drop until the schedule is in the future, the delay is low again or a packet takes the mark. A
     * zero estimate never moves the schedule, so it drops everything until the delay is low.
     */
    method DropLoop(packet: Skb, now: int) returns (skb: Skb, marked: bool)
      requires Paced() && Holding(packet) && MayAct(packet, now) && dropping && Due(now) && dropNext <= now && 0 < now
      modifies this`count, this`recInvSqrt, this`wrapped, this`ecnMark,
        this`dropping, this`dropNext, this`dropCount, this`queue, this`ldelay, this`backlog, this`maxpacket,
        this`firstAboveTime, this`log, this`clock, this`start
      ensures Paced() && Holding(skb) && clock == now && old(log) <= log
      ensures !wrapped && old(recInvSqrt) == 0 && !ecn ==> !dropping
      ensures marked ==> ecn && skb.Skb? && skb.packet.ect
      ensures marked || !dropping || now < dropNext
      ensures skb.Null? ==> queue == []
      ensures (dropping <==> Due(now)) && ecnMark == old(ecnMark) + if marked then 1 else 0
      ensures dropCount + ecnMark > old(dropCount + ecnMark)
      ensures !wrapped ==> count - old(count) == dropCount + ecnMark - old(dropCount + ecnMark)
    {
      skb, marked := packet, false;
      while dropping && now >= dropNext && !marked
        invariant Paced() && Holding(skb) && clock == now && old(log) <= log
        invariant !marked && dropping ==> MayAct(skb, now)
        invariant marked ==> ecn && skb.Skb? && skb.packet.ect
        invariant !wrapped ==> !old(wrapped) && (recInvSqrt == 0 <==> old(recInvSqrt) == 0)
        invariant !wrapped && recInvSqrt == 0 ==> dropNext <= now
        invariant skb.Null? ==> queue == []
        invariant (dropping <==> Due(now)) && ecnMark == old(ecnMark) + if marked then 1 else 0
        invariant dropCount + ecnMark >= old(dropCount + ecnMark)
        invariant dropCount + ecnMark == old(dropCount + ecnMark) ==> dropping && dropNext <= now && !marked
        invariant !wrapped ==> count - old(count) == dropCount + ecnMark - old(dropCount + ecnMark)
        decreases |queue| + (if dropping then 1 else 0) + if marked then 0 else 1
      {
        GapZero(interval);
        skb, marked := DropRound(skb, now);
      }
    }

    /** The timer has run out outside the dropping state: act on this packet and enter the state. */
    method FirstDrop(packet: Skb, now: int) returns (skb: Skb)
      requires Paced() && Holding(packet) && MayAct(packet, now) && !dropping && 0 < now
      modifies this`count, this`lastcount, this`recInvSqrt, this`ecnMark,
        this`dropping, this`dropNext, this`dropCount, this`queue, this`ldelay, this`backlog, this`maxpacket,
        this`firstAboveTime, this`log, this`clock, this`start
      ensures Paced() && Holding(skb) && clock == now && old(log) <= log
      ensures dropping && now <= dropNext
      ensures skb.Null? ==> queue == []
      ensures ecn && packet.packet.ect ==> skb == packet && queue == old(queue)
      ensures ecnMark == old(ecnMark) + (if ecn && packet.packet.ect then 1 else 0)
      ensures dropCount + ecnMark == old(dropCount + ecnMark) + 1
      ensures !wrapped ==> (recInvSqrt == 0 <==> old(recInvSqrt) == 0 && now - old(dropNext) < 16 * interval)
    {
      if Markable(packet) {
        Mark(packet, now);
        skb := packet;
      } else {
        var drop;
        skb, drop := DropAndNext(packet, now);
      }
      EnterDropping(now);
    }

    /** An empty poll ends the dropping state; the timer was already off. */
    method Idle(now: int)
      requires Valid() && clock <= now && queue == []
      modifies this`dropping, this`log, this`clock
      ensures Valid() && clock == now && !dropping && log == old(log) + [Empty(now)]
      ensures Outcomes(log[|old(log)|..]) == []
    {
      assert firstAboveTime == 0;
      dropping := false;
      Note(Empty(now));
      OneEmpty(old(log), now);
    }

    /** What the state machine does with the first packet of a dequeue, given the answer about it. */
    method Control(packet: Skb, drop: bool, now: int) returns (skb: Skb)
      requires Paced() && Holding(packet) && (drop ==> MayAct(packet, now)) && 0 < now && clock == now
      requires packet.Skb? && (drop <==> Due(now))
      modifies this`count, this`lastcount, this`recInvSqrt, this`wrapped, this`ecnMark,
        this`dropping, this`dropNext, this`dropCount, this`queue, this`ldelay, this`backlog, this`maxpacket,
        this`firstAboveTime, this`log, this`clock, this`start
      ensures Paced() && Holding(skb) && clock == now && old(log) <= log
      ensures skb.Null? ==> queue == []
      ensures old(dropping) && dropping && !ecn ==> now < dropNext
      ensures !old(dropping) && dropping ==> now <= dropNext
      ensures !drop || (old(dropping) && now < old(dropNext)) ==>
        skb == packet && queue == old(queue) && dropCount == old(dropCount) && ecnMark == old(ecnMark) &&
        firstAboveTime == old(firstAboveTime) && maxpacket == old(maxpacket) && wrapped == old(wrapped) &&
        count == old(count) && recInvSqrt == old(recInvSqrt) && dropNext == old(dropNext)
      ensures !old(dropping) && drop ==> wrapped == old(wrapped)
      ensures !old(dropping) && drop && !wrapped ==>
        (recInvSqrt == 0 <==> old(recInvSqrt) == 0 && now - old(dropNext) < 16 * interval)
      ensures old(dropping) ==> (dropping <==> Due(now))
      ensures old(dropping) && drop && now >= old(dropNext) ==> dropCount + ecnMark > old(dropCount + ecnMark)
      ensures !old(dropping) ==>
        (dropping <==> drop) && dropCount + ecnMark == old(dropCount + ecnMark) + if drop then 1 else 0
    {
      skb := packet;
      if dropping {
        if !drop {
          dropping := false;
        } else if now >= dropNext {
          var marked;
          skb, marked := DropLoop(skb, now);
        }
      } else if drop {
        skb := FirstDrop(skb, now);
      }
    }

    /** Pull the first packet, examine it, let the state machine act and hand over the result. */
    method Serve(now: int) returns (skb: Skb)
      requires Valid() && clock <= now && 0 < now && queue != []
      modifies this`count, this`lastcount, this`recInvSqrt, this`wrapped, this`ecnMark,
        this`dropping, this`dropNext, this`dropCount, this`queue, this`ldelay, this`backlog, this`maxpacket,
        this`firstAboveTime, this`log, this`clock, this`start
      ensures Valid() && clock == now && old(log) <= log
      ensures skb.Skb? ==> |log| > 0 && log[|log| - 1] == Returned(now, skb.packet)
      ensures skb.Null? ==> queue == []
      ensures old(dropping) && dropping && !ecn ==> now < dropNext
      ensures !old(dropping) && dropping ==> now <= dropNext
      ensures !old(dropping) ==> (dropping <==> old(FrontDue(now)))
      ensures !old(dropping) ==>
        dropCount + ecnMark == old(dropCount + ecnMark) + if old(FrontDue(now)) then 1 else 0
      ensures old(dropping) ==> (dropping <==> Due(now))
      ensures old(dropping) ==>
        (dropCount + ecnMark > old(dropCount + ecnMark) <==> old(FrontDue(now)) && now >= old(dropNext))
      ensures old(queue) != [] && (!old(FrontDue(now)) || (old(dropping) && now < old(dropNext))) ==>
        skb == Skb(old(queue)[0]) && queue == old(queue)[1..] && dropCount == old(dropCount) && ecnMark == old(ecnMark) &&
        firstAboveTime == old(TimerAfter(FrontAbove(now), now)) && wrapped == old(wrapped) &&
        maxpacket == (if old(queue)[0].len > old(maxpacket) then old(queue)[0].len else old(maxpacket)) &&
        count == old(count) && recInvSqrt == old(recInvSqrt) && dropNext == old(dropNext)
      ensures !old(dropping) && old(FrontDue(now)) ==> wrapped == old(wrapped)
      ensures !old(dropping) && old(FrontDue(now)) && !wrapped ==>
        (recInvSqrt == 0 <==> old(recInvSqrt) == 0 && now - old(dropNext) < 16 * interval)
    {
      var drop;
      skb, drop := Next(now);
      skb := Control(skb, drop, now);
      Deliver(skb, now);
    }

    /**
     * Take the next packet at time `now`, dropping or marking on the way. `Valid()` carries the
     * promises over the whole run: conservation and order, an exact backlog, every drop and mark
     * justified, and the pacing bound.
     */
    method Dequeue(now: int) returns (skb: Skb)
      requires Valid() && clock <= now && 0 < now
      modifies this
      ensures Valid() && clock == now
      ensures old(log) <= log && arrived == old(arrived)
      ensures old(queue) == Outcomes(log[|old(log)|..]) + queue
      ensures skb.Null? ==> queue == []
      ensures skb.Skb? ==> |log| > 0 && log[|log| - 1] == Returned(now, skb.packet)
      ensures old(dropping) && dropping && !ecn ==> now < dropNext
      ensures !old(dropping) && dropping ==> now <= dropNext
      ensures !old(dropping) ==> (dropping <==> old(FrontDue(now)))
      ensures !old(dropping) ==>
        dropCount + ecnMark == old(dropCount + ecnMark) + if old(FrontDue(now)) then 1 else 0
      ensures old(dropping) ==> (dropping <==> Due(now))
      ensures old(dropping) ==>
        (dropCount + ecnMark > old(dropCount + ecnMark) <==> old(FrontDue(now)) && now >= old(dropNext))
      ensures old(queue) != [] && (!old(FrontDue(now)) || (old(dropping) && now < old(dropNext))) ==>
        skb == Skb(old(queue)[0]) && queue == old(queue)[1..] && dropCount == old(dropCount) && ecnMark == old(ecnMark) &&
        firstAboveTime == old(TimerAfter(FrontAbove(now), now)) && wrapped == old(wrapped) &&
        maxpacket == (if old(queue)[0].len > old(maxpacket) then old(queue)[0].len else old(maxpacket)) &&
        count == old(count) && recInvSqrt == old(recInvSqrt) && dropNext == old(dropNext)
      ensures !old(dropping) && old(FrontDue(now)) ==> wrapped == old(wrapped)
      ensures !old(dropping) && old(FrontDue(now)) && !wrapped ==>
        (recInvSqrt == 0 <==> old(recInvSqrt) == 0 && now - old(dropNext) < 16 * interval)
    {
      if queue == [] {
        Idle(now);
        return Null;
      }
      skb := Serve(now);
      OutcomesGrow(old(log), log, old(queue), queue);
    }
  }

  /** Four packets are enqueued at time 1. */
  method FourQueued() returns (c: Codel, ghost p: Packet)
    ensures fresh(c) && c.Valid() && c.interval == 100 && c.target == 5 && !c.ecn && c.clock == 1 && p == Packet(1000, false, 1)
    ensures c.queue == [p, p, p, p] && c.maxpacket == 256 && c.firstAboveTime == 0
    ensures !c.dropping && c.recInvSqrt == 0 && c.dropNext == 0 && !c.wrapped
  {
    c := new Codel(5, 100, false);
    p := Packet(1000, false, 1);
    c.Enqueue(1000, false, 1);
    c.Enqueue(1000, false, 1);
    c.Enqueue(1000, false, 1);
    c.Enqueue(1000, false, 1);
  }

  /** Taking the first one late starts the timer. */
  method FourWaiting() returns (c: Codel, ghost p: Packet)
    ensures fresh(c) && c.Valid() && c.interval == 100 && c.target == 5 && c.clock == 10 && p == Packet(1000, false, 1)
    ensures c.queue == [p, p, p] && c.maxpacket == 1000 && c.firstAboveTime == 110
    ensures !c.dropping && c.recInvSqrt == 0 && c.dropNext == 0 && !c.wrapped
  {
    c, p := FourQueued();
    assert c.queue[1..] == [p, p, p];
    Lengths(p);
    assert c.FrontAbove(10) && !c.Due(10);
    var skb := c.Dequeue(10);
  }

  /** Taking the next one late enough enters the dropping state with a zero estimate. */
  method EntersWithZeroEstimate() returns (c: Codel)
    ensures fresh(c) && c.Valid() && c.dropping && c.recInvSqrt == 0 && !c.wrapped
  {
    ghost var p;
    c, p := FourWaiting();
    assert c.queue[1..] == [p, p];
    Lengths(p);
    assert c.FrontAbove(200) && c.Due(200);
    var skb := c.Dequeue(200);
  }

  lemma Lengths(p: Packet)
    ensures TotalLen([p, p]) == 2 * p.len && TotalLen([p, p, p]) == 3 * p.len
  {
    assert [p][1..] == [];
    assert TotalLen([p]) == p.len;
    assert [p, p][1..] == [p];
    assert TotalLen([p, p]) == 2 * p.len;
    assert [p, p, p][1..] == [p, p];
  }
}
