/** The timeline a buffer's frames describe: a clock advanced by each frame,
    and one point entry per event frame, with repeat frames copying the
    entry before them at successive cycles. */
module Timeline {
  import opened Results
  import opened TraceFrames

  /** One timeline entry: the events active from `start` to `end`. */
  datatype Interval = Interval(labels: seq<Label>, start: nat, end: nat)

  function Point(labels: seq<Label>, t: nat): Interval {
    Interval(labels, t, t)
  }

  /** The cycles a sync frame stands for. */
  const SyncCycles: nat := 0x3FFFF

  /** The state of the `construct_timeline` loop: the clock `ts`, whether
      its `new_ts` local has been assigned yet, and the entries so far. */
  datatype State = State(ts: nat, bound: bool, timeline: seq<Interval>)

  const Initial: State := State(0, false, [])

  predicate IsRepeat<L>(f: Frame<L>) {
    f.Repeat0? || f.Repeat1?
  }

  /** Every entry is a point, entries come in strictly increasing time and
      none lies after the clock; an entry implies the local is assigned. */
  predicate WellFormed(s: State) {
    && (|s.timeline| > 0 ==> s.bound)
    && (forall i | 0 <= i < |s.timeline| :: s.timeline[i].start == s.timeline[i].end <= s.ts)
    && (forall i, j | 0 <= i < j < |s.timeline| :: s.timeline[i].start < s.timeline[j].start)
  }

  /** The entries a repeat frame appends: `n` copies of `labels`, one
      cycle apart, right after `ts`. */
  function Copies(labels: seq<Label>, ts: nat, n: nat): (r: seq<Interval>)
    ensures |r| == n
    ensures forall k | 0 <= k < n :: r[k] == Point(labels, ts + k + 1)
    decreases n
  {
    if n == 0 then [] else [Point(labels, ts + 1)] + Copies(labels, ts + 1, n - 1)
  }

  /** An event frame: the clock moves by the frame's cycles plus one and a
      point entry for its events lands there. */
  function Emit(s: State, labels: seq<Label>, cycles: nat): (r: State)
    ensures r.bound && s.ts < r.ts && s.timeline <= r.timeline
    ensures WellFormed(s) ==> WellFormed(r)
  {
    var t := s.ts + cycles + 1;
    State(t, true, s.timeline + [Point(labels, t)])
  }

  /** A repeat frame. With entries present and a positive count it copies
      the last entry; otherwise the clock is reassigned from `new_ts`,
      which fails when nothing has assigned it yet. */
  function Repeat(s: State, n: nat): (r: Result<State>)
    ensures r.Err? <==> (|s.timeline| == 0 || n == 0) && !s.bound
    ensures r.Err? ==> r.error == UnboundTimestamp
    ensures r.Ok? ==> r.value.bound == (s.bound || |s.timeline| > 0)
    ensures r.Ok? ==> s.ts <= r.value.ts && s.timeline <= r.value.timeline
    ensures WellFormed(s) && r.Ok? ==> WellFormed(r.value)
  {
    if |s.timeline| > 0 && n > 0 then
      var last := s.timeline[|s.timeline| - 1];
      Ok(State(s.ts + n, true, s.timeline + Copies(last.labels, s.ts, n)))
    else if !s.bound then Err(UnboundTimestamp)
    else Ok(s)
  }

  /** One iteration of the `construct_timeline` loop. `Multiple2` is not
      among the frame classes the loop tests for, so like start, stop and
      filler frames it leaves the clock and the entries alone. */
  function Step(s: State, f: Frame<Label>): (r: Result<State>)
    ensures WellFormed(s) ==> (r.Err? <==> IsRepeat(f) && !s.bound)
    ensures r.Err? ==> r.error == UnboundTimestamp
    ensures r.Ok? ==> r.value.bound == (s.bound || !IsRepeat(f) || |s.timeline| > 0)
    ensures r.Ok? ==> s.ts <= r.value.ts && s.timeline <= r.value.timeline
    ensures WellFormed(s) && r.Ok? ==> WellFormed(r.value)
  {
    match f
    case Single0(e, c) => Ok(Emit(s, [e], c))
    case Single1(e, c) => Ok(Emit(s, [e], c))
    case Single2(e, c) => Ok(Emit(s, [e], c))
    case Multiple0(es, c) => Ok(Emit(s, es, c))
    case Multiple1(es, c) => Ok(Emit(s, es, c))
    case Repeat0(n) => Repeat(s, n)
    case Repeat1(n) => Repeat(s, n)
    case Sync => Ok(State(s.ts + SyncCycles, true, s.timeline))
    case Start(_) => Ok(State(s.ts, true, s.timeline))
    case Stop(_) => Ok(State(s.ts, true, s.timeline))
    case Multiple2(_, _) => Ok(State(s.ts, true, s.timeline))
    case Filler => Ok(State(s.ts, true, s.timeline))
  }

  /** The loop over all frames from state `s`. Only a repeat frame met
      before any other frame can fail, and then the whole run fails. */
  function Run(s: State, fs: seq<Frame<Label>>): (r: Result<State>)
    ensures WellFormed(s) ==> (r.Err? <==> !s.bound && |fs| > 0 && IsRepeat(fs[0]))
    ensures r.Err? ==> r.error == UnboundTimestamp
    ensures r.Ok? ==> s.ts <= r.value.ts && s.timeline <= r.value.timeline
    ensures r.Ok? && |fs| == 0 ==> r.value == s
    ensures WellFormed(s) && r.Ok? ==> WellFormed(r.value) && (r.value.bound <==> s.bound || |fs| > 0)
    decreases |fs|
  {
    if |fs| == 0 then Ok(s)
    else
      var next :- Step(s, fs[0]);
      Run(next, fs[1..])
  }

  /** `construct_timeline`. */
  function ConstructTimeline(fs: seq<Frame<Label>>): (r: Result<seq<Interval>>)
    ensures r.Err? <==> |fs| > 0 && IsRepeat(fs[0])
    ensures r.Err? ==> r.error == UnboundTimestamp
    ensures r.Ok? ==> forall i | 0 <= i < |r.value| :: r.value[i].start == r.value[i].end
    ensures r.Ok? ==> forall i, j | 0 <= i < j < |r.value| :: r.value[i].start < r.value[j].start
  {
    var s :- Run(Initial, fs);
    Ok(s.timeline)
  }

  // ---------------------------------------------------------------------
  // Properties of the loop

  /** Running over two frame lists in turn is running over their
      concatenation. */
  lemma {:induction false} RunAppend(s: State, a: seq<Frame<Label>>, b: seq<Frame<Label>>)
    ensures Run(s, a + b) == (match Run(s, a) case Ok(m) => Run(m, b) case Err(e) => Err(e))
    decreases |a|
  {
    if |a| > 0 {
      assert (a + b)[0] == a[0];
      assert (a + b)[1..] == a[1..] + b;
      match Step(s, a[0])
      case Ok(next) => RunAppend(next, a[1..], b);
      case Err(_) =>
    } else {
      assert a + b == b;
    }
  }

  /** An event frame places its entry `cycles + 1` after the clock. */
  lemma EmitPlacesEntry(s: State, f: Frame<Label>)
    requires f.Single0? || f.Single1? || f.Single2? || f.Multiple0? || f.Multiple1?
    ensures Step(s, f).Ok?
    ensures var r := Step(s, f).value;
      && r.ts == s.ts + f.cycles + 1
      && r.timeline == s.timeline + [Point(if f.Multiple0? || f.Multiple1? then f.events else [f.event], r.ts)]
  {
  }

  /** A repeat frame after some entry copies that entry's events `n` times,
      one cycle apart, and moves the clock by `n`. */
  lemma RepeatCopiesLast(s: State, f: Frame<Label>)
    requires WellFormed(s) && IsRepeat(f) && |s.timeline| > 0
    ensures Step(s, f).Ok?
    ensures var r := Step(s, f).value;
      var n := |s.timeline|;
      && r.ts == s.ts + f.count
      && |r.timeline| == n + f.count
      && r.timeline[..n] == s.timeline
      && forall j | n <= j < n + f.count :: r.timeline[j] == Point(s.timeline[n - 1].labels, s.ts + (j - n) + 1)
  {
    var r := Step(s, f).value;
    var n := |s.timeline|;
    if f.count > 0 {
      var copies := Copies(s.timeline[n - 1].labels, s.ts, f.count);
      assert r.timeline == s.timeline + copies;
      forall j | n <= j < n + f.count
        ensures r.timeline[j] == Point(s.timeline[n - 1].labels, s.ts + (j - n) + 1)
      {
        assert r.timeline[j] == copies[j - n];
      }
    }
  }

  /** A repeat frame with no entry before it adds nothing and leaves the
      clock alone, once anything has assigned the clock's local. */
  lemma RepeatOnEmptyTimeline(s: State, f: Frame<Label>)
    requires IsRepeat(f) && s.bound && |s.timeline| == 0
    ensures Step(s, f) == Ok(s)
  {
  }

  /** A sync frame moves the clock by 0x3FFFF cycles and adds no entry. */
  lemma SyncAdvancesClock(s: State)
    ensures Step(s, Sync) == Ok(State(s.ts + 0x3FFFF, true, s.timeline))
  {
  }

  predicate Ignored(f: Frame<Label>) {
    f.Start? || f.Stop? || f.Multiple2? || f.Filler?
  }

  /** A start, stop, filler or `Multiple2` frame anywhere but first changes
      nothing in the timeline. First, it assigns the clock's local, so a
      repeat right after it no longer fails. */
  lemma {:induction false} IgnoredFrameInvisible(fs: seq<Frame<Label>>, i: nat, f: Frame<Label>)
    requires 0 < i <= |fs| && Ignored(f)
    ensures ConstructTimeline(fs[..i] + [f] + fs[i..]) == ConstructTimeline(fs)
  {
    var a := fs[..i];
    var b := fs[i..];
    assert fs == a + b;
    assert a + [f] + b == a + ([f] + b);
    RunAppend(Initial, a, [f] + b);
    RunAppend(Initial, a, b);
    match Run(Initial, a)
    case Ok(m) =>
      assert m.bound;
      assert ([f] + b)[0] == f && ([f] + b)[1..] == b;
      assert Step(m, f) == Ok(m);
    case Err(_) =>
  }

  /** A leading start frame rescues a trace that begins with a repeat. */
  lemma LeadingStartRescuesRepeat(t: nat, n: nat)
    ensures ConstructTimeline([Repeat0(n)]) == Err(UnboundTimestamp)
    ensures ConstructTimeline([Start(t), Repeat0(n)]) == Ok([])
  {
    var fs: seq<Frame<Label>> := [Start(t), Repeat0(n)];
    var s := State(0, true, []);
    assert Step(Initial, fs[0]) == Ok(s);
    assert fs[1..] == [Repeat0(n)];
    assert Step(s, Repeat0(n)) == Ok(s);
    assert fs[1..][1..] == [];
    assert Run(s, fs[1..]) == Run(s, fs[1..][1..]) == Ok(s);
    assert Run(Initial, fs) == Run(s, fs[1..]);
  }

  /** Two events active together for two cycles, then repeated three
      times: four entries, one cycle apart. */
  lemma MultipleThenRepeat(a: Label, b: Label)
    ensures ConstructTimeline([Multiple0([a, b], 2), Repeat0(3)])
            == Ok([Point([a, b], 3), Point([a, b], 4), Point([a, b], 5), Point([a, b], 6)])
  {
    var fs: seq<Frame<Label>> := [Multiple0([a, b], 2), Repeat0(3)];
    assert fs[1..] == [Repeat0(3)];
    var s1 := State(3, true, [Point([a, b], 3)]);
    assert Initial.timeline + [Point([a, b], 3)] == [Point([a, b], 3)];
    assert Step(Initial, fs[0]) == Ok(s1);
    var s2 := State(6, true, [Point([a, b], 3)] + Copies([a, b], 3, 3));
    assert Step(s1, Repeat0(3)) == Ok(s2);
    assert fs[1..][1..] == [];
    assert Run(s1, fs[1..]) == Run(s2, fs[1..][1..]) == Ok(s2);
    assert Run(Initial, fs) == Run(s1, fs[1..]);
    assert s2.timeline == [Point([a, b], 3), Point([a, b], 4), Point([a, b], 5), Point([a, b], 6)];
    assert Copies([a, b], 3, 3) == [Point([a, b], 4), Point([a, b], 5), Point([a, b], 6)];
  }

  // ---------------------------------------------------------------------
  // Trailing lock stalls

  /** An entry holding exactly the event named `LOCK_STALL`. */
  predicate IsStall(iv: Interval) {
    iv.labels == [Name("LOCK_STALL")]
  }

  /** How many stall entries end the timeline, counted from the back until
      the first entry that is not a stall. */
  function TrailingStalls(tl: seq<Interval>): (n: nat)
    ensures n <= |tl|
    ensures forall i | |tl| - n <= i < |tl| :: IsStall(tl[i])
    ensures n < |tl| ==> !IsStall(tl[|tl| - n - 1])
  {
    if |tl| == 0 || !IsStall(tl[|tl| - 1]) then 0
    else 1 + TrailingStalls(tl[..|tl| - 1])
  }

  /** The timeline without its trailing stalls. */
  function TrimTrailingStalls(tl: seq<Interval>): (r: seq<Interval>)
    ensures r <= tl
    ensures forall i | |r| <= i < |tl| :: IsStall(tl[i])
    ensures |r| == 0 || !IsStall(r[|r| - 1])
  {
    tl[..|tl| - TrailingStalls(tl)]
  }

  lemma TrimIdempotent(tl: seq<Interval>)
    ensures TrimTrailingStalls(TrimTrailingStalls(tl)) == TrimTrailingStalls(tl)
  {
  }

  /** Trimming keeps everything up to the last entry that is not a stall,
      whatever stalls follow it. */
  lemma {:induction false} TrimKeepsLastEvent(prefix: seq<Interval>, stalls: seq<Interval>)
    requires |prefix| > 0 && !IsStall(prefix[|prefix| - 1])
    requires forall i | 0 <= i < |stalls| :: IsStall(stalls[i])
    ensures TrimTrailingStalls(prefix + stalls) == prefix
    decreases |stalls|
  {
    if |stalls| > 0 {
      var n := |stalls|;
      assert (prefix + stalls)[..|prefix| + n - 1] == prefix + stalls[..n - 1];
      TrimKeepsLastEvent(prefix, stalls[..n - 1]);
    } else {
      assert prefix + stalls == prefix;
    }
  }
}
