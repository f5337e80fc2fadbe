/**
 * The reordering test for notifications (section 3.4 of RFC 7641), `coapClientCheckSequenceNumber`,
 * on 24-bit sequence numbers and a 32-bit millisecond clock.
 */
module Observe {
  import opened Bytes

  const CLOCK := 0x1_0000_0000
  const SEQ := 0x100_0000

  /** `timeCompare(t1, t2)`: the difference read as a signed 32-bit number. */
  function TimeCompare(t1: uint32, t2: uint32): (r: int)
  {
    var d := (t1 - t2) % CLOCK;
    if d < 0x8000_0000 then d else d - CLOCK
  }

  /** `coapClientCheckSequenceNumber` in the OBSERVE state: (v1, t1) is the freshest notification. */
  predicate IsFresh(v1: uint32, t1: uint32, v2: uint32, t2: uint32)
  {
    || (v1 < v2 && v2 - v1 < 0x80_0000)
    || (v1 > v2 && v1 - v2 > 0x80_0000)
    || TimeCompare(t2, (t1 + 128000) % CLOCK) > 0
  }

  /** Serial number arithmetic: `v2` is less than half the number space ahead of `v1`. */
  predicate IsAhead(v1: uint32, v2: uint32)
  {
    0 < (v2 - v1) % SEQ < SEQ / 2
  }

  /** The two comparisons of the code are one comparison in 24-bit serial arithmetic. */
  lemma TwoBranches(v1: uint32, v2: uint32)
    requires v1 < SEQ && v2 < SEQ
    ensures IsAhead(v1, v2)
            <==> (v1 < v2 && v2 - v1 < 0x80_0000) || (v1 > v2 && v1 - v2 > 0x80_0000)
  {
    if v1 <= v2 {
      DivMod(v2 - v1, SEQ, 0, v2 - v1);
    } else {
      DivMod(v2 - v1, SEQ, -1, v2 - v1 + SEQ);
    }
  }

  /** Between true times at most 2^31 apart the clock test is exact, whether or not the clock wrapped. */
  lemma ClockTest(t1: nat, t2: nat)
    requires t1 <= t2 < t1 + 128000 + 0x8000_0000
    ensures TimeCompare(t2 % CLOCK, (t1 % CLOCK + 128000) % CLOCK) > 0 <==> t2 - t1 > 128000
  {
    var a, b := t1 / CLOCK, t2 / CLOCK;
    var x := t1 % CLOCK + 128000;
    var c := x / CLOCK;
    assert t2 % CLOCK - x % CLOCK == t2 - t1 - 128000 + CLOCK * (a + c - b);
    var d := t2 - t1 - 128000;
    if d >= 0 {
      DivMod(t2 % CLOCK - x % CLOCK, CLOCK, a + c - b, d);
    } else {
      DivMod(t2 % CLOCK - x % CLOCK, CLOCK, a + c - b - 1, d + CLOCK);
    }
  }

  /** Counters less than 2^23 apart keep their order modulo 2^24. */
  lemma AheadTest(a: nat, b: nat)
    requires a < b + SEQ / 2 && b < a + SEQ / 2
    ensures IsAhead(a % SEQ, b % SEQ) <==> a < b
  {
    var i, j := a / SEQ, b / SEQ;
    assert b % SEQ - a % SEQ == b - a + SEQ * (i - j);
    if a <= b {
      DivMod(b % SEQ - a % SEQ, SEQ, i - j, b - a);
    } else {
      DivMod(b % SEQ - a % SEQ, SEQ, i - j - 1, b - a + SEQ);
    }
  }

  // ---------------------------------------------------------------- runs

  /** A notification: the server's true counter and the true arrival time in milliseconds. */
  datatype Notification = Notification(counter: nat, time: nat)

  /** `observeSeqNum` and `retransmitStartTime` of the request. */
  datatype Observation = Observation(seqNum: uint32, startTime: uint32)

  function Record(n: Notification): (o: Observation)
  {
    Observation(n.counter % SEQ, n.time % CLOCK)
  }

  predicate Accepts(o: Observation, n: Notification)
  {
    IsFresh(o.seqNum, o.startTime, n.counter % SEQ, n.time % CLOCK)
  }

  /** The first notification with the largest counter so far. */
  function Freshest(run: seq<Notification>): (n: Notification)
    requires run != []
  {
    var n := run[|run| - 1];
    if |run| == 1 then n
    else
      var f := Freshest(run[..|run| - 1]);
      if f.counter < n.counter then n else f
  }

  /**
   * The counters of the run span less than half the number space, and nothing arrives more than
   * 128 seconds after the freshest notification before it.
   */
  ghost predicate Regular(run: seq<Notification>)
  {
    && (forall i, j | 0 <= i < |run| && 0 <= j < |run| :: run[i].counter < run[j].counter + SEQ / 2)
    && (forall i | 0 < i < |run| ::
          Freshest(run[..i]).time <= run[i].time <= Freshest(run[..i]).time + 128000)
  }

  lemma {:induction false} FreshestIsMax(run: seq<Notification>) returns (k: nat)
    requires run != []
    ensures k < |run| && run[k] == Freshest(run)
    ensures forall i | 0 <= i < |run| :: run[i].counter <= run[k].counter
  {
    var init := run[..|run| - 1];
    k := |run| - 1;
    if |run| > 1 {
      var j := FreshestIsMax(init);
      assert forall i | 0 <= i < |init| :: init[i] == run[i];
      if run[k].counter <= init[j].counter {
        k := j;
      }
    }
  }

  lemma RegularPrefix(run: seq<Notification>, k: nat)
    requires Regular(run) && k <= |run|
    ensures Regular(run[..k])
  {
    forall i | 0 < i < k
      ensures Freshest(run[..k][..i]).time <= run[..k][i].time <= Freshest(run[..k][..i]).time + 128000
    {
      assert run[..k][..i] == run[..i];
    }
  }

  /**
   * In a regular run, a client that holds the freshest notification takes the next one exactly if it
   * is newer, even when the counter or the clock wraps in between.
   */
  lemma AcceptsNewer(run: seq<Notification>, k: nat)
    requires 0 < k < |run| && Regular(run)
    ensures Accepts(Record(Freshest(run[..k])), run[k]) <==> Freshest(run[..k]).counter < run[k].counter
  {
    hide IsFresh, IsAhead, TimeCompare, Freshest;
    var f, n := Freshest(run[..k]), run[k];
    var i := FreshestIsMax(run[..k]);
    assert run[i] == f;
    assert run[i].counter < run[k].counter + SEQ / 2 && run[k].counter < run[i].counter + SEQ / 2;
    AheadTest(f.counter, n.counter);
    ClockTest(f.time, n.time);
    FreshIs(f.counter % SEQ, f.time % CLOCK, n.counter % SEQ, n.time % CLOCK);
  }

  lemma FreshIs(v1: uint32, t1: uint32, v2: uint32, t2: uint32)
    requires v1 < SEQ && v2 < SEQ
    ensures IsFresh(v1, t1, v2, t2) <==> IsAhead(v1, v2) || TimeCompare(t2, (t1 + 128000) % CLOCK) > 0
  {
    hide IsAhead, TimeCompare;
    TwoBranches(v1, v2);
  }

  /** After 128 seconds of silence any notification is accepted. */
  lemma AcceptsAfterSilence(o: Notification, n: Notification)
    requires o.time + 128000 < n.time < o.time + 128000 + 0x8000_0000
    ensures Accepts(Record(o), n)
  {
    hide TimeCompare;
    ClockTest(o.time, n.time);
  }
}
