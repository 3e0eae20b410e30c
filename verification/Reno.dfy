/** TCP Reno: slow start, congestion avoidance and fast recovery (sections 3.1 and 3.2 of RFC 5681). */
module Reno {
  import opened Words

  datatype State = State(cwnd: u32, ssthresh: u32, mss: u32, dups: nat, inRecovery: bool)

  datatype Event = Ack | DupAck | Timeout

  /** A C int counts the duplicates. */
  const MAX_INT: int := 0x7FFF_FFFF

  function Initial(mss: u32): State {
    State(mss, 65535, mss, 0, false)
  }

  /** max(cwnd / 2, 2 * mss). */
  function Halved(s: State): u32 {
    Max(s.cwnd / 2, Low32(2 * s.mss))
  }

  /** What one acknowledgement adds in congestion avoidance: mss * mss / cwnd, but at least one byte. */
  function Increment(mss: u32, cwnd: u32): (inc: u32)
    requires cwnd > 0
    ensures inc > 0
  {
    var inc := Low32(mss * mss / cwnd);
    if inc == 0 then 1 else inc
  }

  predicate Avoiding(s: State) { !s.inRecovery && s.cwnd >= s.ssthresh }

  /** Outside this the C code divides by zero or overflows a signed int. */
  predicate Defined(s: State, e: Event) {
    (e == Ack && Avoiding(s) ==> s.cwnd > 0) && (e == DupAck ==> s.dups < MAX_INT)
  }

  /** The state after one event, 32-bit wrap-around included. */
  function Step(s: State, e: Event): State
    requires Defined(s, e)
  {
    match e
    case Ack =>
      if s.inRecovery then s.(cwnd := s.ssthresh, dups := 0, inRecovery := false)
      else if s.cwnd < s.ssthresh then s.(cwnd := Add32(s.cwnd, s.mss), dups := 0)
      else s.(cwnd := Add32(s.cwnd, Increment(s.mss, s.cwnd)), dups := 0)
    case DupAck =>
      if s.dups == 2 && !s.inRecovery then
        s.(ssthresh := Halved(s), cwnd := Add32(Halved(s), Low32(3 * s.mss)), dups := 3, inRecovery := true)
      else if s.dups >= 3 && s.inRecovery then s.(cwnd := Add32(s.cwnd, s.mss), dups := s.dups + 1)
      else s.(dups := s.dups + 1)
    case Timeout => s.(ssthresh := Halved(s), cwnd := s.mss, dups := 0, inRecovery := false)
  }

  /** Whether the caller is told to retransmit at once. */
  predicate Retransmits(s: State, e: Event) {
    e == DupAck && s.dups == 2 && !s.inRecovery
  }

  class Reno {
    var cwnd: u32
    var ssthresh: u32
    const mss: u32
    var dupAckCount: nat
    var inRecovery: bool

    function View(): State
      reads this
    {
      State(cwnd, ssthresh, mss, dupAckCount, inRecovery)
    }

    constructor (mss: u32)
      ensures View() == State(mss, 65535, mss, 0, false)
    {
      this.mss := mss;
      cwnd, ssthresh, dupAckCount, inRecovery := mss, 65535, 0, false;
    }

    method AvoidanceIncrement() returns (inc: u32)
      requires cwnd > 0
      ensures inc == Increment(mss, cwnd)
    {
      inc := Low32(mss * mss / cwnd);
      if inc == 0 {
        inc := 1;
      }
    }

    method OnAck()
      requires Defined(View(), Ack)
      modifies this
      ensures View() == Step(old(View()), Ack)
    {
      hide Increment;
      if inRecovery {
        ExitRecovery();
        return;
      }
      dupAckCount := 0;
      if cwnd < ssthresh {
        cwnd := Add32(cwnd, mss);
      } else {
        var inc := AvoidanceIncrement();
        cwnd := Add32(cwnd, inc);
      }
    }

    method OnDupAck() returns (retransmit: bool)
      requires Defined(View(), DupAck)
      modifies this
      ensures View() == Step(old(View()), DupAck)
      ensures retransmit <==> Retransmits(old(View()), DupAck)
    {
      dupAckCount := dupAckCount + 1;
      if dupAckCount == 3 && !inRecovery {
        ssthresh := Max(cwnd / 2, Low32(2 * mss));
        cwnd := Add32(ssthresh, Low32(3 * mss));
        inRecovery := true;
        return true;
      }
      if dupAckCount > 3 && inRecovery {
        cwnd := Add32(cwnd, mss);
      }
      return false;
    }

    method OnTimeout()
      modifies this
      ensures View() == Step(old(View()), Timeout)
    {
      ssthresh := Max(cwnd / 2, Low32(2 * mss));
      cwnd := mss;
      dupAckCount := 0;
      inRecovery := false;
    }

    method ExitRecovery()
      modifies this
      ensures View() == old(View()).(cwnd := old(ssthresh), dups := 0, inRecovery := false)
    {
      cwnd := ssthresh;
      dupAckCount := 0;
      inRecovery := false;
    }
  }

  // ---------------------------------------------------------------- every run

  /** No sum of this step reaches 2^32; anyone can tell before the event. */
  predicate Fits(s: State, e: Event)
    requires s.cwnd > 0
  {
    match e
    case Ack =>
      s.inRecovery || (if s.cwnd < s.ssthresh then s.cwnd + s.mss else s.cwnd + Increment(s.mss, s.cwnd)) < TWO_32
    case DupAck =>
      s.dups < MAX_INT &&
      if Retransmits(s, e) then 2 * s.mss < TWO_32 && Max(s.cwnd / 2, 2 * s.mss) + 3 * s.mss < TWO_32
      else s.inRecovery ==> s.cwnd + s.mss < TWO_32
    case Timeout => 2 * s.mss < TWO_32
  }

  function Times(n: nat, m: nat): nat { n * m }

  predicate Steady(s: State) {
    && 0 < s.mss <= s.cwnd
    && (s.inRecovery <==> s.dups >= 3)
    && (s.inRecovery ==> s.ssthresh >= 2 * s.mss && s.cwnd == s.ssthresh + Times(s.dups, s.mss))
  }

  lemma TimesNext(n: nat, m: nat)
    ensures Times(n + 1, m) == Times(n, m) + m && Times(m, n + 1) == Times(m, n) + m
    ensures Times(0, m) == 0 && Times(1, m) == m && Times(3, m) == 3 * m
  {
  }

  lemma TimesMono(a: nat, b: nat, c: nat)
    ensures a <= b ==> Times(a, c) <= Times(b, c) && Times(c, a) <= Times(c, b)
    ensures a < b && c > 0 ==> Times(a, c) < Times(b, c)
  {
  }

  lemma TimesShuffle(a: nat, b: nat, c: nat)
    ensures Times(Times(a, b), c) == Times(Times(a, c), b)
  {
  }

  lemma Division(a: nat, c: nat)
    requires c > 0
    ensures Times(a / c, c) <= a < Times(a / c + 1, c)
  {
  }

  function Share(mss: nat, cwnd: nat): nat
    requires cwnd > 0
  {
    Times(mss, mss) / cwnd
  }

  lemma ShareIsAtMostMss(mss: nat, cwnd: nat)
    requires 0 < mss <= cwnd
    ensures Times(Share(mss, cwnd), cwnd) <= Times(mss, mss) < Times(Share(mss, cwnd) + 1, cwnd)
    ensures Share(mss, cwnd) <= mss
  {
    hide Times;
    var k := Share(mss, cwnd);
    Division(Times(mss, mss), cwnd);
    TimesMono(mss, cwnd, mss);
    TimesMono(mss, k, cwnd);
  }

  lemma IncrementIsAtMostMss(mss: u32, cwnd: u32)
    requires 0 < mss <= cwnd
    ensures Increment(mss, cwnd) == Max(1, Share(mss, cwnd)) <= mss
  {
    ShareIsAtMostMss(mss, cwnd);
  }

  lemma StepKeepsSteady(s: State, e: Event)
    requires Steady(s) && Fits(s, e)
    ensures Defined(s, e) && Steady(Step(s, e)) && Step(s, e).mss == s.mss
  {
    hide Times, Increment, Low32;
    TimesNext(s.dups, s.mss);
  }

  /** Falling below one segment is exactly what an overflowing acknowledgement does. */
  lemma AckKeepsASegmentIffItFits(s: State)
    requires Steady(s)
    ensures Step(s, Ack).cwnd >= s.mss <==> Fits(s, Ack)
  {
    hide Times, Increment;
    if Avoiding(s) {
      IncrementIsAtMostMss(s.mss, s.cwnd);
    }
  }

  predicate FitRun(s: State, es: seq<Event>)
    requires Steady(s)
    decreases |es|
  {
    es == [] || (Fits(s, es[0]) && (StepKeepsSteady(s, es[0]); FitRun(Step(s, es[0]), es[1..])))
  }

  function Run(s: State, es: seq<Event>): State
    requires Steady(s) && FitRun(s, es)
    decreases |es|
  {
    if es == [] then s else (StepKeepsSteady(s, es[0]); Run(Step(s, es[0]), es[1..]))
  }

  /** How often the caller was told to retransmit. */
  function Retransmissions(s: State, es: seq<Event>): nat
    requires Steady(s) && FitRun(s, es)
    decreases |es|
  {
    if es == [] then 0
    else (StepKeepsSteady(s, es[0]);
          (if Retransmits(s, es[0]) then 1 else 0) + Retransmissions(Step(s, es[0]), es[1..]))
  }

  lemma StartsSteady(mss: u32)
    requires mss > 0
    ensures Steady(Initial(mss))
  {
  }

  /** A new acknowledgement forgets the duplicates counted so far, in every phase, so that three more are needed
      before the next early retransmission. */
  lemma AckForgetsDuplicates(s: State)
    requires Defined(s, Ack)
    ensures Step(s, Ack).dups == 0 && !Step(s, Ack).inRecovery && !Retransmits(Step(s, Ack), DupAck)
    ensures Step(s, Ack).ssthresh == s.ssthresh && Step(s, Ack).mss == s.mss
  {
    hide Increment, Low32;
  }

  /** In every run without overflow: at least one segment, recovery exactly from the third duplicate
      on, and then cwnd == ssthresh + dups * mss. */
  lemma {:induction false} RunIsSteady(s: State, es: seq<Event>)
    requires Steady(s) && FitRun(s, es)
    ensures var t := Run(s, es);
            && t.mss == s.mss && t.cwnd >= s.mss
            && (t.inRecovery <==> t.dups >= 3)
            && (t.inRecovery ==> t.cwnd == t.ssthresh + t.dups * s.mss)
    decreases |es|
  {
    if es != [] {
      hide Times, Increment, Low32, Step, Fits;
      StepKeepsSteady(s, es[0]);
      RunIsSteady(Step(s, es[0]), es[1..]);
    }
  }

  function Repeat(e: Event, n: nat): seq<Event> {
    if n == 0 then [] else [e] + Repeat(e, n - 1)
  }

  lemma RunNext(s: State, e: Event, es: seq<Event>)
    requires Steady(s) && FitRun(s, [e] + es)
    ensures Fits(s, e) && Defined(s, e) && Steady(Step(s, e)) && FitRun(Step(s, e), es)
    ensures Run(s, [e] + es) == Run(Step(s, e), es)
    ensures Retransmissions(s, [e] + es) == (if Retransmits(s, e) then 1 else 0) + Retransmissions(Step(s, e), es)
  {
    hide Step, Fits, Steady;
    assert ([e] + es)[1..] == es;
    StepKeepsSteady(s, e);
  }

  lemma RunNothing(s: State)
    requires Steady(s)
    ensures FitRun(s, []) && Run(s, []) == s && Retransmissions(s, []) == 0
  {
  }

  lemma RepeatNext(e: Event, n: nat)
    ensures Repeat(e, 0) == []
    ensures n > 0 ==> Repeat(e, n) == [e] + Repeat(e, n - 1)
  {
  }

  // ---------------------------------------------------------------- growth

  lemma SlowStartStep(s: State)
    requires Steady(s) && !s.inRecovery && s.cwnd < s.ssthresh && Fits(s, Ack)
    ensures Step(s, Ack) == s.(cwnd := s.cwnd + s.mss, dups := 0) && Steady(Step(s, Ack))
  {
    hide Times, Increment, Low32;
  }

  /** In slow start every acknowledgement adds one segment. */
  lemma {:induction false} SlowStart(s: State, n: nat)
    requires Steady(s) && !s.inRecovery && FitRun(s, Repeat(Ack, n))
    requires n > 0 ==> s.cwnd + Times(n - 1, s.mss) < s.ssthresh
    ensures Run(s, Repeat(Ack, n)).cwnd == s.cwnd + n * s.mss
    decreases n
  {
    hide Increment, Low32, Step, Fits, Steady, Times, Run, FitRun, Repeat, Retransmissions;
    RepeatNext(Ack, n);
    if n == 0 {
      RunNothing(s);
    } else {
      RunNext(s, Ack, Repeat(Ack, n - 1));
      SlowStartStep(s);
      TimesNext(n - 1, s.mss);
      if n > 1 {
        TimesNext(n - 2, s.mss);
      }
      SlowStart(Step(s, Ack), n - 1);
    }
    SameTimes(n, s.mss);
    if n > 0 {
      SameTimes(n - 1, s.mss);
    }
  }

  lemma SameTimes(n: nat, m: nat)
    ensures Times(n, m) == n * m
  {
  }

  /** After a timeout the threshold is max(cwnd / 2, 2 * mss), and up to it acknowledgement number n
      brings the window to n + 1 segments. */
  lemma TimeoutThenSlowStart(s: State, n: nat)
    requires Steady(s) && FitRun(s, [Timeout] + Repeat(Ack, n))
    requires n * s.mss < Max(s.cwnd / 2, 2 * s.mss)
    ensures Run(s, [Timeout]).cwnd == s.mss && Run(s, [Timeout]).ssthresh == Max(s.cwnd / 2, 2 * s.mss)
    ensures Run(s, [Timeout] + Repeat(Ack, n)).cwnd == (n + 1) * s.mss
  {
    hide Increment, Fits, Times, Run, FitRun, Repeat, Retransmissions;
    RunNext(s, Timeout, Repeat(Ack, n));
    AfterTimeout(s);
    var t := Step(s, Timeout);
    SameTimes(n, s.mss);
    SameTimes(n + 1, s.mss);
    TimesNext(n, s.mss);
    if n > 0 {
      TimesNext(n - 1, s.mss);
    }
    SlowStart(t, n);
    SameTimes(n, t.mss);
  }

  lemma AfterTimeout(s: State)
    requires Steady(s) && Fits(s, Timeout)
    ensures FitRun(s, [Timeout]) && Run(s, [Timeout]) == Step(s, Timeout)
    ensures Steady(Step(s, Timeout))
    ensures Step(s, Timeout) == State(s.mss, Max(s.cwnd / 2, 2 * s.mss), s.mss, 0, false)
  {
    hide Increment, Times;
  }

  lemma ShareShrinks(mss: nat, c: nat, d: nat)
    requires 0 < mss <= c <= d
    ensures Share(mss, d) <= Share(mss, c)
  {
    hide Times, Share;
    ShareIsAtMostMss(mss, c);
    ShareIsAtMostMss(mss, d);
    TimesMono(c, d, Share(mss, d));
    TimesMono(Share(mss, c) + 1, Share(mss, d), c);
  }

  lemma IncrementShrinks(mss: u32, c: u32, d: u32)
    requires 0 < mss <= c <= d
    ensures Increment(mss, d) <= Increment(mss, c)
  {
    hide Increment, Share;
    IncrementIsAtMostMss(mss, c);
    IncrementIsAtMostMss(mss, d);
    ShareShrinks(mss, c, d);
  }

  lemma AvoidanceStep(s: State)
    requires Steady(s) && Avoiding(s) && Fits(s, Ack)
    ensures var u := Step(s, Ack);
            && Steady(u) && u.mss == s.mss && Avoiding(u) && u.cwnd == s.cwnd + Increment(s.mss, s.cwnd) > s.cwnd
            && u.ssthresh == s.ssthresh && u.dups == 0
  {
    hide Increment, Times, Low32;
  }

  lemma SteadyWindow(s: State)
    requires Steady(s)
    ensures 0 < s.mss <= s.cwnd
  {
  }

  /** In congestion avoidance n acknowledgements add between n times the smallest
      and n times the largest increment. */
  lemma {:induction false} AvoidanceGrowth(s: State, n: nat)
    requires Steady(s) && Avoiding(s) && FitRun(s, Repeat(Ack, n))
    ensures var t := Run(s, Repeat(Ack, n));
            Steady(t) && t.mss == s.mss && Avoiding(t) && t.cwnd >= s.cwnd &&
            s.cwnd + Times(n, Increment(s.mss, t.cwnd)) <= t.cwnd <= s.cwnd + Times(n, Increment(s.mss, s.cwnd))
    decreases n
  {
    hide Increment, Times, Step, Fits, Low32, Steady, Run, FitRun, Repeat, Retransmissions;
    RepeatNext(Ack, n);
    if n == 0 {
      RunNothing(s);
      SteadyWindow(s);
      TimesNext(0, Increment(s.mss, s.cwnd));
    } else {
      RunNext(s, Ack, Repeat(Ack, n - 1));
      AvoidanceStep(s);
      SteadyWindow(s);
      var u := Step(s, Ack);
      AvoidanceGrowth(u, n - 1);
      var t := Run(u, Repeat(Ack, n - 1));
      var top, next, low := Increment(s.mss, s.cwnd), Increment(s.mss, u.cwnd), Increment(s.mss, t.cwnd);
      IncrementShrinks(s.mss, s.cwnd, u.cwnd);
      IncrementShrinks(s.mss, s.cwnd, t.cwnd);
      TimesMono(next, top, n - 1);
      TimesNext(n - 1, low);
      TimesNext(n - 1, top);
    }
  }

  lemma WindowTimesShare(m: nat, c: nat)
    requires 0 < m <= c
    ensures Times(c / m, Max(1, Share(m, c))) <= Max(m, c / m)
  {
    hide Times, Share;
    var n, k := c / m, Share(m, c);
    Division(c, m);
    ShareIsAtMostMss(m, c);
    TimesOne(n);
    TimesMono(Times(n, m), c, k);
    TimesShuffle(n, m, k);
    TimesComm(c, k);
    TimesMono(m, Times(n, k), m);
  }

  lemma TimesOne(n: nat)
    ensures Times(n, 1) == n
  {
  }

  lemma TimesComm(a: nat, b: nat)
    ensures Times(a, b) == Times(b, a)
  {
  }

  /** The acknowledgements of one window, cwnd / mss of them, add at most max(mss, cwnd / mss) bytes. */
  lemma WindowGrowth(s: State)
    requires Steady(s) && Avoiding(s) && FitRun(s, Repeat(Ack, s.cwnd / s.mss))
    ensures Run(s, Repeat(Ack, s.cwnd / s.mss)).cwnd - s.cwnd <= Max(s.mss, s.cwnd / s.mss)
  {
    hide Increment, Run, FitRun, Times, Share, Repeat;
    AvoidanceGrowth(s, s.cwnd / s.mss);
    IncrementIsAtMostMss(s.mss, s.cwnd);
    WindowTimesShare(s.mss, s.cwnd);
  }

  /** The RFC's "no more than one segment per window" is met exactly when the window
      holds no more than mss segments: beyond that the floor of one byte per ACK adds more. */
  lemma OneSegmentPerWindow(s: State)
    requires Steady(s) && Avoiding(s) && FitRun(s, Repeat(Ack, s.cwnd / s.mss))
    ensures Run(s, Repeat(Ack, s.cwnd / s.mss)).cwnd - s.cwnd <= s.mss <==> s.cwnd / s.mss <= s.mss
  {
    hide Increment, Run, FitRun, Times, Share, Repeat;
    var n := s.cwnd / s.mss;
    WindowGrowth(s);
    AvoidanceGrowth(s, n);
    var t := Run(s, Repeat(Ack, n));
    TimesMono(1, Increment(s.mss, t.cwnd), n);
    TimesOne(n);
  }

  // ---------------------------------------------------------------- recovery

  lemma ThirdDuplicate(s: State)
    requires Steady(s) && s.dups == 2 && Fits(s, DupAck)
    ensures Steady(Step(s, DupAck))
    ensures Step(s, DupAck).ssthresh == Max(s.cwnd / 2, 2 * s.mss)
    ensures Step(s, DupAck).inRecovery && Step(s, DupAck).mss == s.mss && Retransmits(s, DupAck)
  {
    hide Times;
    StepKeepsSteady(s, DupAck);
  }

  lemma FewDuplicates(s: State, es: seq<Event>)
    requires Steady(s) && s.dups < 2 && FitRun(s, [DupAck] + es)
    ensures var u := s.(dups := s.dups + 1);
            Steady(u) && FitRun(u, es) && Run(s, [DupAck] + es) == Run(u, es)
            && Retransmissions(s, [DupAck] + es) == Retransmissions(u, es)
  {
    hide Times, Low32, Increment;
    assert ([DupAck] + es)[1..] == es;
    assert Step(s, DupAck) == s.(dups := s.dups + 1);
  }

  /** Three duplicates, any number more and then a new ACK: told to retransmit exactly once,
      and the window ends at max(cwnd / 2, 2 * mss), out of recovery, however far it was inflated. */
  lemma FastRecovery(s: State, more: nat)
    requires Steady(s) && s.dups == 0
    requires FitRun(s, [DupAck, DupAck, DupAck] + (Repeat(DupAck, more) + [Ack]))
    ensures var es := [DupAck, DupAck, DupAck] + (Repeat(DupAck, more) + [Ack]);
            var t := Run(s, es);
            && t.cwnd == t.ssthresh == Max(s.cwnd / 2, 2 * s.mss)
            && !t.inRecovery && t.dups == 0 && Retransmissions(s, es) == 1
  {
    hide Times, Low32, Increment, Repeat, Run, FitRun, Retransmissions, Fits, Step, Steady;
    var rest := Repeat(DupAck, more) + [Ack];
    var es := [DupAck, DupAck, DupAck] + rest;
    assert es == [DupAck] + ([DupAck] + ([DupAck] + rest));
    FewDuplicates(s, [DupAck] + ([DupAck] + rest));
    var a := s.(dups := 1);
    FewDuplicates(a, [DupAck] + rest);
    var b := s.(dups := 2);
    RunNext(b, DupAck, rest);
    ThirdDuplicate(b);
    Inflation(Step(b, DupAck), more);
  }

  lemma MoreDuplicates(s: State)
    requires Steady(s) && s.inRecovery && Fits(s, DupAck)
    ensures var u := Step(s, DupAck);
            Steady(u) && u.inRecovery && u.ssthresh == s.ssthresh && u.mss == s.mss && !Retransmits(s, DupAck)
  {
    hide Times;
    StepKeepsSteady(s, DupAck);
  }

  lemma {:induction false} Inflation(s: State, more: nat)
    requires Steady(s) && s.inRecovery
    requires FitRun(s, Repeat(DupAck, more) + [Ack])
    ensures var es := Repeat(DupAck, more) + [Ack];
            var t := Run(s, es);
            t.cwnd == t.ssthresh == s.ssthresh && !t.inRecovery && t.dups == 0 && Retransmissions(s, es) == 0
    decreases more
  {
    hide Times, Low32, Increment, Fits, Run, FitRun, Retransmissions, Steady, Step, Repeat;
    var es := Repeat(DupAck, more) + [Ack];
    RepeatNext(DupAck, more);
    if more == 0 {
      assert es == [Ack] + [];
      RunNext(s, Ack, []);
      LastAck(s);
    } else {
      var rest := Repeat(DupAck, more - 1) + [Ack];
      assert es == [DupAck] + rest;
      RunNext(s, DupAck, rest);
      MoreDuplicates(s);
      Inflation(Step(s, DupAck), more - 1);
    }
  }

  lemma LastAck(s: State)
    requires Steady(s) && s.inRecovery && Steady(Step(s, Ack)) && FitRun(Step(s, Ack), [])
    ensures Run(Step(s, Ack), []) == State(s.ssthresh, s.ssthresh, s.mss, 0, false)
    ensures Retransmissions(Step(s, Ack), []) == 0
  {
    hide Times;
  }
}
