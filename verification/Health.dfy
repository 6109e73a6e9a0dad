/** The sliding-window health monitor (src/health.cpp:20-85).

    The incremental monitor keeps a ring of four snapshots, two counters and a state; the reference is
    a classification of the whole history of observations. */
module Health {
  import opened Bytes

  const WINDOW_SIZE: nat := 4
  const IDLE_THRESHOLD: nat := 4

  datatype State = ONLINE | DEGRADED | OFFLINE

  datatype Snapshot = Snapshot(responses: u32, timeouts: u32, degraded: int)

  /** One tick of observations. */
  datatype Tick = Tick(responses: u32, timeouts: u32)

  function Wrap(n: int): u32 {
    n % 0x1_0000_0000
  }

  // ------------------------------------------------------------------------------------------
  // The reference: the history as a whole
  // ------------------------------------------------------------------------------------------

  /** The last four ticks, or all of them. */
  function Window(h: seq<Tick>): seq<Tick> {
    if |h| <= WINDOW_SIZE then h else h[|h| - WINDOW_SIZE..]
  }

  function Responses(w: seq<Tick>): nat {
    if w == [] then 0 else Responses(w[..|w| - 1]) + w[|w| - 1].responses
  }

  function Timeouts(w: seq<Tick>): nat {
    if w == [] then 0 else Timeouts(w[..|w| - 1]) + w[|w| - 1].timeouts
  }

  /** A tick is evaluated when its window is full and not idle. The sums are 32-bit. */
  predicate Evaluated(h: seq<Tick>) {
    |h| >= WINDOW_SIZE && Wrap(Wrap(Responses(Window(h))) + Wrap(Timeouts(Window(h)))) >= IDLE_THRESHOLD
  }

  /** More than half of the tick's activity were timeouts; its 32-bit sum decides whether there was any. */
  predicate Bad(t: Tick) {
    var activity := Wrap(t.responses + t.timeouts);
    activity > 0 && 2 * t.timeouts > activity
  }

  /** -1 for a tick that was not evaluated, else 1 or 0. */
  function Class(h: seq<Tick>): int
    requires h != []
  {
    if !Evaluated(h) then -1 else if Bad(h[|h| - 1]) then 1 else 0
  }

  /** The history as it was k ticks ago. */
  function Ago(h: seq<Tick>, k: nat): seq<Tick>
    requires k <= |h|
  {
    h[..|h| - k]
  }

  /** The number of ticks of a class among the last n. */
  function Count(h: seq<Tick>, n: nat, c: int): nat
    requires n <= |h|
    decreases n
  {
    if n == 0 then 0 else Count(Ago(h, 1), n - 1, c) + (if Class(h) == c then 1 else 0)
  }

  function Recent(h: seq<Tick>): nat {
    if |h| < WINDOW_SIZE then |h| else WINDOW_SIZE
  }

  /** The state after a history. */
  function Verdict(h: seq<Tick>): State {
    if h == [] then ONLINE
    else
      var was := Verdict(h[..|h| - 1]);
      if !Evaluated(h) then was
      else
        var answered := Wrap(Responses(Window(h))) > 0;
        if answered && Count(h, WINDOW_SIZE, 1) == WINDOW_SIZE then DEGRADED
        else if !answered then OFFLINE
        else if Count(h, WINDOW_SIZE, 0) == WINDOW_SIZE then ONLINE
        else was
  }

  /** No 32-bit sum of the window overflows. */
  predicate Small(h: seq<Tick>) {
    Responses(Window(h)) + Timeouts(Window(h)) < 0x1_0000_0000
  }

  // ------------------------------------------------------------------------------------------
  // What the verdicts mean
  // ------------------------------------------------------------------------------------------

  lemma {:induction false} FullCount(h: seq<Tick>, n: nat, c: int)
    requires n <= |h|
    ensures Count(h, n, c) <= n
    ensures Count(h, n, c) == n <==> forall k :: 0 <= k < n ==> Class(Ago(h, k)) == c
    decreases n
  {
    hide Class;
    if n > 0 {
      FullCount(Ago(h, 1), n - 1, c);
      assert Ago(h, 0) == h;
      forall k | 0 <= k < n - 1 ensures Ago(Ago(h, 1), k) == Ago(h, k + 1) {
      }
      if Count(h, n, c) == n {
        forall k | 0 <= k < n ensures Class(Ago(h, k)) == c {
          assert k > 0 ==> Ago(Ago(h, 1), k - 1) == Ago(h, k);
        }
      }
      if forall k :: 0 <= k < n ==> Class(Ago(h, k)) == c {
        forall k | 0 <= k < n - 1 ensures Class(Ago(Ago(h, 1), k)) == c {
          assert Class(Ago(h, k + 1)) == c;
        }
      }
    }
  }

  lemma {:induction false} CountOldest(h: seq<Tick>, n: nat, c: int)
    requires n < |h|
    ensures Count(h, n + 1, c) == Count(h, n, c) + (if Class(Ago(h, n)) == c then 1 else 0)
    decreases n
  {
    hide Class;
    assert Ago(h, 0) == h;
    if n > 0 {
      CountOldest(Ago(h, 1), n - 1, c);
      assert Ago(Ago(h, 1), n - 1) == Ago(h, n);
    }
  }

  /** The tick of k ticks ago was evaluated, and bad or not. */
  predicate Judged(h: seq<Tick>, k: nat, bad: bool)
    requires k < |h|
  {
    Evaluated(h[..|h| - k]) && Bad(h[|h| - k - 1]) == bad
  }

  /** The last four ticks were all evaluated, and all bad or all not. */
  ghost predicate LastFour(h: seq<Tick>, bad: bool) {
    |h| >= 4 && forall k :: 0 <= k < 4 ==> Judged(h, k, bad)
  }

  /** The verdict changes only with an evaluated tick. It is OFFLINE when the responses of the window add up
      to a multiple of 2^32, as 0 does; else DEGRADED when the last four ticks were all evaluated and bad,
      ONLINE when they were all evaluated and none bad, and in every other case what it was. */
  lemma VerdictExactly(h: seq<Tick>)
    requires h != []
    ensures Verdict([]) == ONLINE
    ensures var was := Verdict(h[..|h| - 1]);
            Verdict(h) ==
              if !Evaluated(h) then was
              else if Responses(Window(h)) % 0x1_0000_0000 == 0 then OFFLINE
              else if LastFour(h, true) then DEGRADED
              else if LastFour(h, false) then ONLINE
              else was
    ensures Evaluated(h) ==> |h| >= 4
  {
    hide Evaluated, Bad, Count, Responses, LastFour;
    EvaluatedIsWarm(h);
    if Evaluated(h) {
      FullyClassified(h, true);
      FullyClassified(h, false);
      NoneAnswered(Responses(Window(h)));
    }
  }

  lemma NoneAnswered(sum: nat)
    ensures Wrap(sum) > 0 <==> sum % 0x1_0000_0000 != 0
  {
  }

  /** DEGRADED is entered only after four consecutive evaluated ticks of mostly timeouts, with a response
      among them; OFFLINE only when a full window that is not idle holds no response. */
  lemma VerdictsAreEarned(h: seq<Tick>)
    requires h != [] && Verdict(h) != Verdict(h[..|h| - 1])
    ensures |h| >= 4 && Evaluated(h)
    ensures Verdict(h) == DEGRADED ==>
              Wrap(Responses(Window(h))) > 0 && forall k :: 0 <= k < 4 ==> Judged(h, k, true)
    ensures Verdict(h) == OFFLINE ==> Wrap(Responses(Window(h))) == 0
    ensures Verdict(h) == ONLINE ==>
              Wrap(Responses(Window(h))) > 0 && forall k :: 0 <= k < 4 ==> Judged(h, k, false)
  {
    hide Evaluated, Judged, Verdict, Responses;
    VerdictExactly(h);
  }

  lemma FullyClassified(h: seq<Tick>, bad: bool)
    requires |h| >= WINDOW_SIZE
    ensures Count(h, WINDOW_SIZE, if bad then 1 else 0) == WINDOW_SIZE <==> LastFour(h, bad)
  {
    hide Evaluated, Bad, Count, Class, Judged;
    var c := if bad then 1 else 0;
    FullCount(h, WINDOW_SIZE, c);
    forall k | 0 <= k < WINDOW_SIZE ensures Class(Ago(h, k)) == c <==> Judged(h, k, bad) {
      ClassAgo(h, k, bad);
    }
    if Count(h, WINDOW_SIZE, c) == WINDOW_SIZE {
      forall k | 0 <= k < 4 ensures Judged(h, k, bad) {
        assert Class(Ago(h, k)) == c;
      }
    }
  }

  lemma ClassAgo(h: seq<Tick>, k: nat, bad: bool)
    requires k < |h|
    ensures Class(Ago(h, k)) == (if bad then 1 else 0) <==> Judged(h, k, bad)
  {
    hide Evaluated, Bad;
  }

  lemma EvaluatedIsWarm(h: seq<Tick>)
    ensures Evaluated(h) ==> |h| >= WINDOW_SIZE
  {
  }

  /** Where nothing overflows, a bad tick is one with more timeouts than responses, and OFFLINE means
      that the window really has no response. */
  lemma WithoutOverflow(h: seq<Tick>)
    requires h != [] && Small(h)
    ensures Bad(h[|h| - 1]) <==> h[|h| - 1].timeouts > h[|h| - 1].responses
    ensures Wrap(Responses(Window(h))) == Responses(Window(h))
    ensures Evaluated(h) <==> |h| >= 4 && Responses(Window(h)) + Timeouts(Window(h)) >= 4
  {
    hide Responses, Timeouts, Window, Evaluated;
    LastOfWindow(h);
    LastIsPart(Window(h));
    EvaluatedExactly(h);
    BadTicksExactly(h[|h| - 1]);
  }

  lemma LastOfWindow(h: seq<Tick>)
    requires h != []
    ensures Window(h) != [] && Window(h)[|Window(h)| - 1] == h[|h| - 1]
  {
  }

  lemma LastIsPart(w: seq<Tick>)
    requires w != []
    ensures Responses(w) >= w[|w| - 1].responses && Timeouts(w) >= w[|w| - 1].timeouts
  {
  }

  /** A tick is bad when it has more timeouts than responses: that is so exactly if its sum fits, or is
      2^32 without a majority of timeouts, or is beyond with one. */
  lemma BadTicksExactly(t: Tick)
    ensures var sum := t.responses as int + t.timeouts as int;
            (Bad(t) <==> t.timeouts > t.responses) <==>
            sum < 0x1_0000_0000 || (sum == 0x1_0000_0000 && t.timeouts <= t.responses)
              || (sum > 0x1_0000_0000 && t.timeouts > t.responses)
  {
  }

  /** A tick with ten thousand times more responses than timeouts, of which the sum wraps to 1. */
  lemma OverflowLooksBad()
    ensures var t := Tick(0xFFFF_FFF6, 11); Bad(t) && t.timeouts * 10000 < t.responses
    ensures var t := Tick(0x8000_0000 - 1, 0x8000_0001); !Bad(t) && t.timeouts > t.responses
  {
  }

  /** A window is evaluated when it is full and holds at least four observations: that is so exactly if it
      is not full, idle, or its sum does not wrap to less than four. */
  lemma EvaluatedExactly(h: seq<Tick>)
    ensures var sum := Responses(Window(h)) + Timeouts(Window(h));
            (Evaluated(h) <==> |h| >= 4 && sum >= 4) <==> |h| < 4 || sum < 4 || sum % 0x1_0000_0000 >= 4
  {
    hide Responses, Timeouts, Window;
    WrapSum(Responses(Window(h)), Timeouts(Window(h)));
  }

  lemma WrapSum(a: nat, b: nat)
    ensures Wrap(Wrap(a) + Wrap(b)) == (a + b) % 0x1_0000_0000
  {
  }

  /** An evaluated tick takes the monitor offline when the window holds no response: that is so exactly if
      there is none, or the sum of the responses is not a multiple of 2^32. */
  lemma OfflineExactly(h: seq<Tick>)
    requires h != [] && Evaluated(h) && Verdict(h[..|h| - 1]) != OFFLINE
    ensures (Verdict(h) == OFFLINE <==> Responses(Window(h)) == 0) <==>
            Responses(Window(h)) == 0 || Responses(Window(h)) % 0x1_0000_0000 != 0
  {
    hide Evaluated, Count, Responses, Window;
  }

  /** With sums beyond 32 bits the monitor goes offline although responses came in: four ticks of 2^30
      responses add up to zero. */
  lemma OverflowGoesOffline()
    ensures var t := Tick(0x4000_0000, 1);
            Verdict([t, t, t, t]) == OFFLINE && Responses(Window([t, t, t, t])) == 0x1_0000_0000
  {
    var t := Tick(0x4000_0000, 1);
    assert [t, t, t, t][..3] == [t, t, t] && [t, t, t][..2] == [t, t] && [t, t][..1] == [t] && [t][..0] == [];
    assert Responses([t]) == 0x4000_0000 && Responses([t, t]) == 0x8000_0000 && Responses([t, t, t]) == 0xC000_0000;
    assert Timeouts([t]) == 1 && Timeouts([t, t]) == 2 && Timeouts([t, t, t]) == 3 && Timeouts([t, t, t, t]) == 4;
    assert Window([t, t, t, t]) == [t, t, t, t];
    assert Responses([t, t, t, t]) == 0x1_0000_0000;
  }

  // ------------------------------------------------------------------------------------------
  // The monitor
  // ------------------------------------------------------------------------------------------

  /** The slot of the tick that is k ticks old. */
  function Slot(n: nat, k: nat): nat
    requires k < n
  {
    (n - 1 - k) % WINDOW_SIZE
  }

  /** The ring shows the tick of k ticks ago. */
  ghost predicate RingAt(ring: seq<Snapshot>, h: seq<Tick>, k: nat)
    requires |ring| == WINDOW_SIZE && k < |h|
  {
    ring[Slot(|h|, k)] == SnapshotOf(Ago(h, k))
  }

  lemma SlotShifts(n: nat, k: nat)
    requires k < n
    ensures Slot(n + 1, k + 1) == Slot(n, k)
    ensures Slot(n + 1, 0) == (Slot(n, 0) + 1) % WINDOW_SIZE
    ensures k < 3 ==> Slot(n + 1, 0) != Slot(n, k)
    ensures k == 3 ==> Slot(n + 1, 0) == Slot(n, k)
  {
  }

  /** The entries of the ring behind the newest one move one tick into the past. */
  lemma RingShifts(ring: seq<Snapshot>, h: seq<Tick>, t: Tick, x: Snapshot, k: nat)
    requires |ring| == WINDOW_SIZE && k < |h| && k < 3 && RingAt(ring, h, k)
    ensures RingAt(ring[Slot(|h| + 1, 0) := x], h + [t], k + 1)
  {
    SlotShifts(|h|, k);
    assert Ago(h + [t], k + 1) == Ago(h, k);
  }

  lemma NewestInRing(ring: seq<Snapshot>, g: seq<Tick>)
    requires |ring| == WINDOW_SIZE && g != []
    ensures RingAt(ring[Slot(|g|, 0) := SnapshotOf(g)], g, 0)
  {
    assert Ago(g, 0) == g;
  }

  lemma CountAdds(h: seq<Tick>, t: Tick, n: nat, c: int)
    requires n <= |h|
    ensures Count(h + [t], n + 1, c) == Count(h, n, c) + (if Class(h + [t]) == c then 1 else 0)
  {
    assert Ago(h + [t], 1) == h;
  }

  lemma WindowSum(g: seq<Tick>)
    requires |g| >= 4
    ensures var n := |g|;
            && Responses(Window(g)) == g[n - 4].responses as int + g[n - 3].responses as int +
               g[n - 2].responses as int + g[n - 1].responses as int
            && Timeouts(Window(g)) == g[n - 4].timeouts as int + g[n - 3].timeouts as int + g[n - 2].timeouts as int +
               g[n - 1].timeouts as int
  {
    var w := Window(g);
    assert |w| == 4 && w[..4] == w;
    assert w[..3][..2] == w[..2] && w[..2][..1] == w[..1] && w[..1][..0] == [];
    assert Responses(w[..1]) == w[0].responses && Timeouts(w[..1]) == w[0].timeouts;
    assert Responses(w[..2]) == Responses(w[..1]) + w[1].responses &&
           Timeouts(w[..2]) == Timeouts(w[..1]) + w[1].timeouts;
    assert Responses(w[..3]) == Responses(w[..2]) + w[2].responses &&
           Timeouts(w[..3]) == Timeouts(w[..2]) + w[2].timeouts;
  }

  /** Summing the full ring in slot order sums the window. */
  lemma RingSum(ring: seq<Snapshot>, g: seq<Tick>)
    requires |ring| == WINDOW_SIZE <= |g|
    requires ring[Slot(|g|, 0)].responses == g[|g| - 1].responses && ring[Slot(|g|, 0)].timeouts == g[|g| - 1].timeouts
    requires forall k :: 1 <= k < WINDOW_SIZE ==> RingAt(ring, g, k)
    ensures ring[0].responses as int + ring[1].responses as int + ring[2].responses as int +
              ring[3].responses as int == Responses(Window(g))
    ensures ring[0].timeouts as int + ring[1].timeouts as int + ring[2].timeouts as int + ring[3].timeouts as int ==
              Timeouts(Window(g))
  {
    hide Responses, Timeouts, Class, Window;
    WindowSum(g);
    assert RingAt(ring, g, 1) && RingAt(ring, g, 2) && RingAt(ring, g, 3);
    var n := |g|;
    assert n % 4 == 0 || n % 4 == 1 || n % 4 == 2 || n % 4 == 3;
  }

  class HealthMonitor {
    const window: array<Snapshot>
    var head: int
    var count: nat
    var degradedTicks: int
    var healthyTicks: int
    var state: State

    ghost var history: seq<Tick>

    /** The ring holds the last four ticks with their classes, the counters count them, and the state
        is the verdict on the whole history. */
    ghost predicate Valid()
      reads this, window
    {
      && window.Length == WINDOW_SIZE
      && head == (if history == [] then -1 else Slot(|history|, 0))
      && count == Recent(history)
      && (forall k :: 0 <= k < count ==> RingAt(window[..], history, k))
      && degradedTicks == Count(history, count, 1)
      && healthyTicks == Count(history, count, 0)
      && state == Verdict(history)
    }

    constructor ()
      ensures Valid() && history == [] && state == ONLINE && fresh(window)
    {
      window := new Snapshot[WINDOW_SIZE](_ => Snapshot(0, 0, -1));
      head, count, degradedTicks, healthyTicks, state, history := -1, 0, 0, 0, ONLINE, [];
    }

    method Reset()
      requires Valid()
      modifies this, window
      ensures Valid() && history == [] && state == ONLINE
    {
      forall i | 0 <= i < window.Length {
        window[i] := Snapshot(0, 0, -1);
      }
      head, count, degradedTicks, healthyTicks, state, history := -1, 0, 0, 0, ONLINE, [];
    }

    method TotalResponses() returns (total: u32)
      requires window.Length == WINDOW_SIZE && count <= WINDOW_SIZE
      ensures count == WINDOW_SIZE ==>
                total == Wrap(window[0].responses as int + window[1].responses as int + window[2].responses as int +
                  window[3].responses as int)
    {
      total := 0;
      var i := 0;
      while i < count
        invariant i <= count && total == Wrap(SumResponses(window[..i]))
      {
        assert window[..i + 1][..i] == window[..i];
        WrapAdd(SumResponses(window[..i]), window[i].responses);
        total := Wrap(total as int + window[i].responses as int);
        i := i + 1;
      }
      if count == WINDOW_SIZE {
        FourSum(window[..4]);
      }
    }

    method TotalTimeouts() returns (total: u32)
      requires window.Length == WINDOW_SIZE && count <= WINDOW_SIZE
      ensures count == WINDOW_SIZE ==>
                total == Wrap(window[0].timeouts as int + window[1].timeouts as int + window[2].timeouts as int +
                  window[3].timeouts as int)
    {
      total := 0;
      var i := 0;
      while i < count
        invariant i <= count && total == Wrap(SumTimeouts(window[..i]))
      {
        assert window[..i + 1][..i] == window[..i];
        WrapAdd(SumTimeouts(window[..i]), window[i].timeouts);
        total := Wrap(total as int + window[i].timeouts as int);
        i := i + 1;
      }
      if count == WINDOW_SIZE {
        FourSum(window[..4]);
      }
    }

    /** The head moves on; the class of the tick that leaves the window is no longer counted. */
    method Rotate()
      requires Valid()
      modifies `head, `count, `degradedTicks, `healthyTicks
      ensures head == Slot(|history| + 1, 0) &&
                count == (if |history| + 1 < WINDOW_SIZE then |history| + 1 else WINDOW_SIZE)
      ensures degradedTicks == Count(history, count - 1, 1) && healthyTicks == Count(history, count - 1, 0)
    {
      hide Class, Count, Verdict;
      if history != [] {
        SlotShifts(|history|, 0);
      }
      head := (head + 1) % WINDOW_SIZE;
      if count == WINDOW_SIZE {
        SlotShifts(|history|, 3);
        assert RingAt(window[..], history, 3);
        CountOldest(history, 3, 1);
        CountOldest(history, 3, 0);
        var oldest := window[head];
        ClassIs(Ago(history, 3));
        if oldest.degraded == 1 {
          degradedTicks := degradedTicks - 1;
        } else if oldest.degraded == 0 {
          healthyTicks := healthyTicks - 1;
        }
      } else {
        count := count + 1;
      }
    }

    lemma ClassIs(h: seq<Tick>)
      requires h != []
      ensures Class(h) == -1 || Class(h) == 0 || Class(h) == 1
    {
    }

    /** What holds after the snapshot of a tick has been recorded but not classified. */
    ghost predicate Recorded(h: seq<Tick>, t: Tick)
      reads this, window
    {
      && window.Length == WINDOW_SIZE && history == h + [t]
      && head == Slot(|h| + 1, 0) && count == Recent(history)
      && window[head] == Snapshot(t.responses, t.timeouts, -1)
      && (forall k :: 1 <= k < count ==> RingAt(window[..], history, k))
      && degradedTicks == Count(h, count - 1, 1) && healthyTicks == Count(h, count - 1, 0)
      && state == Verdict(h)
    }

    /** Classifying the tick completes it. */
    method Classify(class_: int, ghost h: seq<Tick>, ghost t: Tick)
      requires Recorded(h, t) && class_ == Class(h + [t]) && (class_ == -1 || class_ == 0 || class_ == 1)
      modifies window, `degradedTicks, `healthyTicks
      ensures window.Length == WINDOW_SIZE && forall k :: 0 <= k < count ==> RingAt(window[..], history, k)
      ensures degradedTicks == Count(history, count, 1) && healthyTicks == Count(history, count, 0)
    {
      hide Class, Count, Verdict;
      CountAdds(h, t, count - 1, 1);
      CountAdds(h, t, count - 1, 0);
      ghost var ring := window[..];
      window[head] := window[head].(degraded := class_);
      assert window[..] == ring[head := SnapshotOf(history)];
      NewestInRing(ring, history);
      forall k | 1 <= k < count ensures RingAt(window[..], history, k) {
        SlotShifts(|h|, k - 1);
        assert RingAt(ring, history, k);
      }
      if class_ == 1 {
        degradedTicks := degradedTicks + 1;
      } else if class_ == 0 {
        healthyTicks := healthyTicks + 1;
      }
    }

    method Record(t: Tick)
      requires Valid()
      modifies this, window
      ensures Recorded(old(history), t)
    {
      hide Class, Count, Verdict;
      ghost var ring, h := window[..], history;
      ghost var was := count;
      Rotate();
      window[head] := Snapshot(t.responses, t.timeouts, -1);
      history := history + [t];
      assert window[..] == ring[head := Snapshot(t.responses, t.timeouts, -1)];
      forall k | 1 <= k < count ensures RingAt(window[..], history, k) {
        assert RingAt(ring, h, k - 1);
        RingShifts(ring, h, t, Snapshot(t.responses, t.timeouts, -1), k - 1);
      }
    }

    lemma Sums(h: seq<Tick>, t: Tick)
      requires Recorded(h, t) && count == WINDOW_SIZE
      ensures window[0].responses as int + window[1].responses as int + window[2].responses as int +
                window[3].responses as int
              == Responses(Window(history))
      ensures window[0].timeouts as int + window[1].timeouts as int + window[2].timeouts as int +
                window[3].timeouts as int
              == Timeouts(Window(history))
    {
      hide Class, Count, Verdict, Responses, Timeouts, Window;
      RingSum(window[..], history);
    }

    /** One tick: the snapshot replaces the oldest one, and the state follows the reference. */
    method Update(responses: u32, timeouts: u32) returns (r: State)
      requires Valid()
      modifies this, window
      ensures Valid() && history == old(history) + [Tick(responses, timeouts)]
      ensures r == state == Verdict(history)
    {
      hide RingAt, Count, Responses, Timeouts, Window;
      ghost var h := history;
      var t := Tick(responses, timeouts);
      Record(t);
      assert history[..|history| - 1] == h;
      if count < WINDOW_SIZE {
        Classify(-1, h, t);
        return state;
      }
      Sums(h, t);
      var answered := TotalResponses();
      var timedOut := TotalTimeouts();
      if Wrap(answered as int + timedOut as int) < IDLE_THRESHOLD {
        Classify(-1, h, t);
        return state;
      }
      var activity := Wrap(responses as int + timeouts as int);
      var tickDegraded := false;
      if activity > 0 {
        tickDegraded := 2 * (timeouts as int) > activity;
      }
      Classify(if tickDegraded then 1 else 0, h, t);
      var hasResponses := answered > 0;
      if hasResponses && degradedTicks == WINDOW_SIZE {
        state := DEGRADED;
      } else if !hasResponses {
        state := OFFLINE;
      } else if hasResponses && healthyTicks == WINDOW_SIZE {
        state := ONLINE;
      }
      r := state;
    }
  }

  function SumResponses(s: seq<Snapshot>): nat {
    if s == [] then 0 else SumResponses(s[..|s| - 1]) + s[|s| - 1].responses
  }

  function SumTimeouts(s: seq<Snapshot>): nat {
    if s == [] then 0 else SumTimeouts(s[..|s| - 1]) + s[|s| - 1].timeouts
  }

  lemma WrapAdd(a: nat, b: nat)
    ensures Wrap(Wrap(a) + b) == Wrap(a + b)
  {
  }

  lemma FourSum(s: seq<Snapshot>)
    requires |s| == 4
    ensures SumResponses(s) == s[0].responses as int + s[1].responses as int + s[2].responses as int +
              s[3].responses as int
    ensures SumTimeouts(s) == s[0].timeouts as int + s[1].timeouts as int + s[2].timeouts as int + s[3].timeouts as int
  {
    assert s[..3][..2] == s[..2] && s[..2][..1] == s[..1] && s[..1][..0] == [];
    assert SumResponses(s[..1]) == s[0].responses && SumTimeouts(s[..1]) == s[0].timeouts;
    assert SumResponses(s[..2]) == SumResponses(s[..1]) + s[1].responses &&
           SumTimeouts(s[..2]) == SumTimeouts(s[..1]) + s[1].timeouts;
    assert SumResponses(s[..3]) == SumResponses(s[..2]) + s[2].responses &&
           SumTimeouts(s[..3]) == SumTimeouts(s[..2]) + s[2].timeouts;
  }

  function SnapshotOf(h: seq<Tick>): Snapshot
    requires h != []
  {
    var t := h[|h| - 1];
    Snapshot(t.responses, t.timeouts, Class(h))
  }
}
