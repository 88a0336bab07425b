/** The traffic accounting daemon, one host: how a kernel counter sample is
    turned into a difference, spread over the speed ring and booked in the daily
    and monthly rings, and what a whole run of samples and rounds adds up to. */
module Traffic {
  import opened Bytes
  import opened Ring

  const INTERVAL := 60
  const MAX_NSPEED := 1440
  const MAX_NDAILY := 62
  const MAX_NMONTHLY := 25
  const MAX_ROLLOVER := 3750 * 1024 * 1024

  /** One line of the kernel's accounting table together with what `calc`
      reads from the system while it handles that line. */
  datatype Sample = Sample(
    counter: Counters, uptime: int, wanUp: bool, wanUptime: int, clockReady: bool, day: nat, month: nat)

  /** What happens to a host: it is seen, or a round ends. */
  datatype Event = Seen(sample: Sample) | RoundEnd

  predicate ValidSample(s: Sample) {
    s.day != 0 && s.month != 0
  }

  /** A host; the speed ring and the date rings from oldest to newest. */
  datatype Host = Host(
    last: Counters, utime: int, sync: int, tail: nat, speed: seq<Counters>, daily: seq<Slot>, monthly: seq<Slot>)

  // ---- One event ---------------------------------------------------------------

  /** The traffic between two readings of a counter that may have rolled over. */
  function Diff(c: u64, sc: u64, wanUp: bool, wanUptime: int): u64 {
    if c < sc then
      var d := 0xFFFF_FFFF_FFFF_FFFF - sc + 1 + c;
      if d > MAX_ROLLOVER then 0
      else if wanUp && wanUptime < INTERVAL + 10 then 0
      else d
    else c - sc
  }

  /** Whole intervals since the host's clock; C division truncates toward zero. */
  function Ticks(utime: int, uptime: int): int {
    var tick := uptime - utime;
    if tick < 0 then -(-tick / INTERVAL) else tick / INTERVAL
  }

  predicate Rebaselines(h: Host) {
    h.sync != 0
  }

  predicate Early(h: Host, s: Sample) {
    h.sync == 0 && Ticks(h.utime, s.uptime) < 1
  }

  /** The differences that a sample contributes. */
  function Counted(h: Host, s: Sample): Counters {
    if Rebaselines(h) || Early(h, s) then ZERO
    else Counters(Diff(s.counter.rx, h.last.rx, s.wanUp, s.wanUptime), Diff(s.counter.tx, h.last.tx, s.wanUp, s.wanUptime))
  }

  function Share(c: Counters, n: nat): Counters
    requires n > 0
  {
    Counters(c.rx / n, c.tx / n)
  }

  /** Push `n` copies of `x` through a window of fixed length. */
  function Slide(window: seq<Counters>, n: nat, x: Counters): (r: seq<Counters>)
    ensures |r| == |window|
  {
    if n == 0 || window == [] then window else Slide(window, n - 1, x)[1..] + [x]
  }

  function Book(h: Host, s: Sample, c: Counters): Host {
    if s.clockReady then
      h.(daily := Post(h.daily, MAX_NDAILY, s.day, c), monthly := Post(h.monthly, MAX_NMONTHLY, s.month, c))
    else h
  }

  function Step(h: Host, e: Event): Host {
    match e
    case RoundEnd => h.(sync := if h.sync == -1 then 0 else 1)
    case Seen(s) =>
      if Rebaselines(h) then Book(h.(sync := -1, last := s.counter), s, ZERO)
      else if Early(h, s) then h.(sync := -1)
      else
        var n := Ticks(h.utime, s.uptime);
        var c := Counted(h, s);
        Book(h.(sync := -1, last := s.counter, utime := h.utime + n * INTERVAL, tail := (h.tail + n) % MAX_NSPEED,
                speed := Slide(h.speed, n, Share(c, n))), s, c)
  }

  // ---- The node ------------------------------------------------------------------

  class Node {
    const speed: array<Counters>
    const daily: array<Slot>
    const monthly: array<Slot>
    var dailyp: nat
    var monthlyp: nat
    var utime: int
    var last: Counters
    var tail: nat
    var sync: int

    ghost predicate Valid()
      reads this, speed, daily, monthly
    {
      && speed.Length == MAX_NSPEED && daily.Length == MAX_NDAILY && monthly.Length == MAX_NMONTHLY
      && daily != monthly
      && tail < MAX_NSPEED
      && ValidRing(daily[..], dailyp) && ValidRing(monthly[..], monthlyp)
    }

    ghost function View(): Host
      requires Valid()
      reads this, speed, daily, monthly
    {
      Host(last, utime, sync, tail, Rotation(speed[..], tail), Entries(daily[..], dailyp), Entries(monthly[..], monthlyp))
    }

    /** `Node_new`, and the two fields that `calc` sets on a new host. */
    constructor (uptime: int)
      ensures Valid() && fresh(speed) && fresh(daily) && fresh(monthly)
      ensures View() == NewHost(uptime)
    {
      speed := new Counters[MAX_NSPEED](_ => ZERO);
      daily := new Slot[MAX_NDAILY](_ => Slot(0, ZERO));
      monthly := new Slot[MAX_NMONTHLY](_ => Slot(0, ZERO));
      dailyp, monthlyp, tail := 0, 0, 0;
      last, utime, sync := ZERO, uptime, 1;
      new;
      NothingUsed(Rotation(daily[..], 0));
      NothingUsed(Rotation(monthly[..], 0));
    }

    /** `Node_housekeeping`. */
    method Housekeeping()
      requires Valid()
      modifies this`sync
      ensures Valid() && View() == Step(old(View()), RoundEnd)
    {
      if sync == -1 {
        sync := 0;
      } else {
        sync := 1;
      }
    }

    /** The body of `calc` for one line of the accounting table. */
    method Sample(s: Sample)
      requires Valid() && ValidSample(s)
      modifies this, speed, daily, monthly
      ensures Valid() && View() == Step(old(View()), Seen(s))
    {
      hide Entries, Post, InOrder, Rotation, Slide, Diff, Ticks;
      var counter := s.counter;
      if sync != 0 {
        sync := -1;
        last := counter;
        counter := ZERO;
      } else {
        sync := -1;
        var n := Ticks(utime, s.uptime);
        if n < 1 {
          return;
        }
        utime := utime + n * INTERVAL;
        counter := Counters(Diff(counter.rx, last.rx, s.wanUp, s.wanUptime), Diff(counter.tx, last.tx, s.wanUp, s.wanUptime));
        last := s.counter;
        Spread(n, Share(counter, n));
      }
      if s.clockReady {
        dailyp := Bump(daily, dailyp, s.day, counter);
        monthlyp := Bump(monthly, monthlyp, s.month, counter);
      }
    }

    /** The loop of `calc` that writes `n` slots of the speed ring. */
    method Spread(n: nat, x: Counters)
      requires speed.Length == MAX_NSPEED && tail < MAX_NSPEED
      modifies this`tail, speed
      ensures tail == (old(tail) + n) % MAX_NSPEED
      ensures Rotation(speed[..], tail) == Slide(old(Rotation(speed[..], tail)), n, x)
    {
      hide Rotation, Slide;
      ghost var window := Rotation(speed[..], tail);
      SlideNone(window, x);
      for j := 0 to n
        invariant tail == (old(tail) + j) % MAX_NSPEED
        invariant Rotation(speed[..], tail) == Slide(window, j, x)
      {
        PushRotates(speed[..], tail, x);
        SlideStep(window, j, x);
        ghost var before := speed[..];
        tail := (tail + 1) % MAX_NSPEED;
        speed[tail] := x;
        assert speed[..] == before[tail := x];
      }
    }
  }

  lemma SlideNone(window: seq<Counters>, x: Counters)
    ensures Slide(window, 0, x) == window
  {
  }

  lemma SlideStep(window: seq<Counters>, n: nat, x: Counters)
    requires window != []
    ensures Slide(window, n + 1, x) == Slide(window, n, x)[1..] + [x]
  {
  }

  function NewHost(uptime: int): Host {
    Host(ZERO, uptime, 1, 0, seq(MAX_NSPEED, _ => ZERO), [], [])
  }

  lemma {:induction false} NothingUsed(r: seq<Slot>)
    requires forall i :: 0 <= i < |r| ==> r[i].key == 0
    ensures Used(r) == []
  {
    if r != [] {
      NothingUsed(r[1..]);
    }
  }

  // ---- Facts about one sample ----------------------------------------------------

  /** A difference carries the old reading to the new one modulo 2^64, unless it
      is suppressed; a decrease never counts for more than the rollover limit. */
  lemma DiffMeaning(c: u64, sc: u64, wanUp: bool, wanUptime: int)
    ensures var d := Diff(c, sc, wanUp, wanUptime);
            && (d == 0 || (sc + d) % TWO64 == c)
            && (c >= sc ==> sc + d == c)
            && (c < sc ==> d <= 3750 * 0x10_0000)
            && (c < sc && d == 0 <==> c < sc && (TWO64 - sc + c > 3750 * 0x10_0000 || (wanUp && wanUptime < 70)))
  {
  }

  /** The speed ring is a window over the last `MAX_NSPEED` shares ever written. */
  lemma {:induction false} SlideIsWindow(window: seq<Counters>, n: nat, x: Counters)
    requires window != []
    ensures Slide(window, n, x) == (window + seq(n, _ => x))[n..]
  {
    var all := window + seq(n, _ => x);
    if n == 0 {
      assert all == window;
    } else {
      SlideIsWindow(window, n - 1, x);
      var prev := window + seq(n - 1, _ => x);
      assert all == prev + [x];
      assert prev[n - 1..][1..] == prev[n..];
      assert all[n..] == prev[n..] + [x];
    }
  }

  /** The shares of a difference add up to it, short by less than one unit per slot. */
  lemma ShareLoss(c: Counters, n: nat, dir: Direction)
    requires n > 0
    ensures n * Share(c, n).At(dir) <= c.At(dir) < n * Share(c, n).At(dir) + n
  {
  }

  /** `n` equal slots whose sum is the difference, short by less than one unit per slot. */
  ghost predicate Spreads(x: Counters, n: nat, rx: nat, tx: nat) {
    && n * x.rx <= rx < n * x.rx + n
    && n * x.tx <= tx < n * x.tx + n
  }

  /** The whole intervals from the host's clock to the sample, in terms of uptimes. */
  predicate IsTicks(n: nat, utime: int, uptime: int) {
    n * INTERVAL <= uptime - utime < (n + 1) * INTERVAL
  }

  /** What one sample does to the speed ring. A counted one pushes the oldest `n`
      slots out, one for each whole interval since the host's clock, and writes `n`
      equal ones whose sum is the difference of the readings, or nothing for a
      decrease that does not count. Any other one leaves clock and ring alone. */
  lemma SampleSpeed(h: Host, s: Sample)
    requires |h.speed| == MAX_NSPEED
    ensures var t := Step(h, Seen(s));
      if h.sync != 0 || s.uptime - h.utime < INTERVAL then t.speed == h.speed && t.utime == h.utime && t.tail == h.tail
      else exists n: nat, x: Counters :: SpeedWritten(h, s, t, n, x)
  {
    hide Slide, Post, Diff, Step, Ticks, IsTicks, Share;
    EarlyMeaning(h, s);
    SampleEffect(h, s);
    if h.sync == 0 && s.uptime - h.utime >= INTERVAL {
      var n, c := Ticks(h.utime, s.uptime), Counted(h, s);
      TicksAre(h.utime, s.uptime);
      var x := Share(c, n);
      ShareLoss(c, n, RX);
      ShareLoss(c, n, TX);
      WindowParts(h.speed, n, x);
      assert SpeedWritten(h, s, Step(h, Seen(s)), n, x);
    }
  }

  /** A sample's effect on clock and speed ring. */
  lemma SampleEffect(h: Host, s: Sample)
    ensures var t, n := Step(h, Seen(s)), Ticks(h.utime, s.uptime);
      if Rebaselines(h) || Early(h, s) then t.speed == h.speed && t.utime == h.utime && t.tail == h.tail
      else
        && n > 0 && t.utime == h.utime + n * INTERVAL && t.tail == (h.tail + n) % MAX_NSPEED
        && t.speed == Slide(h.speed, n, Share(Counted(h, s), n))
  {
    hide Slide, Post, Diff, Share;
  }

  ghost predicate SpeedWritten(h: Host, s: Sample, t: Host, n: nat, x: Counters) {
    && n > 0 && IsTicks(n, h.utime, s.uptime) && t.utime == h.utime + n * INTERVAL
    && t.tail == (h.tail + n) % MAX_NSPEED
    && Spreads(x, n, Diff(s.counter.rx, h.last.rx, s.wanUp, s.wanUptime), Diff(s.counter.tx, h.last.tx, s.wanUp, s.wanUptime))
    && |t.speed| == |h.speed| == MAX_NSPEED
    && (n <= MAX_NSPEED ==> t.speed[..MAX_NSPEED - n] == h.speed[n..])
    && forall k :: 0 <= k < MAX_NSPEED && MAX_NSPEED - n <= k ==> t.speed[k] == x
  }

  lemma TicksAre(utime: int, uptime: int)
    requires uptime - utime >= INTERVAL
    ensures Ticks(utime, uptime) > 0 && IsTicks(Ticks(utime, uptime), utime, uptime)
  {
  }

  lemma WindowParts(window: seq<Counters>, n: nat, x: Counters)
    requires |window| == MAX_NSPEED
    ensures var r := Slide(window, n, x);
      && (n <= MAX_NSPEED ==> r[..MAX_NSPEED - n] == window[n..])
      && forall k :: 0 <= k < MAX_NSPEED && MAX_NSPEED - n <= k ==> r[k] == x
  {
    hide Slide;
    SlideIsWindow(window, n, x);
  }

  /** What one sample does to the ledgers: unless it is too early or the clock is not
      set, its difference, zero at a new baseline, is added under its day and its
      month, and every other key that is kept keeps its sum. */
  lemma SampleBooks(h: Host, s: Sample, day: nat, month: nat)
    requires ValidSample(s) && day != s.day && month != s.month
    requires Ledgers(h)
    ensures var t, c := Step(h, Seen(s)), Counted(h, s);
      if !s.clockReady || (h.sync == 0 && s.uptime - h.utime < INTERVAL) then t.daily == h.daily && t.monthly == h.monthly
      else
        && Held(t.daily, s.day) == Plus(Held(h.daily, s.day), c)
        && Held(t.monthly, s.month) == Plus(Held(h.monthly, s.month), c)
        && Kept(h.daily, t.daily, day, 62) && Kept(h.monthly, t.monthly, month, 25)
  {
    hide Slide, Post, Diff, Held, HasKey;
    EarlyMeaning(h, s);
    PostMeaning(h.daily, MAX_NDAILY, s.day, Counted(h, s), day);
    PostMeaning(h.monthly, MAX_NMONTHLY, s.month, Counted(h, s), month);
    KeyThere(h.daily, day);
    KeyThere(h.monthly, month);
  }

  /** The key is there with its sum if it was before, unless it was the oldest of a
      full ledger. */
  predicate Kept(before: seq<Slot>, after: seq<Slot>, key: nat, max: nat) {
    && (HasKey(after, key) ==> HasKey(before, key) && Held(after, key) == Held(before, key))
    && (HasKey(before, key) && !HasKey(after, key) ==> 0 < |before| == max && before[0].key == key)
  }

  lemma EarlyMeaning(h: Host, s: Sample)
    ensures Early(h, s) <==> h.sync == 0 && s.uptime - h.utime < INTERVAL
  {
  }

  lemma KeyThere(list: seq<Slot>, key: nat)
    ensures HasKey(list, key) ==> list != []
  {
  }

  // ---- Whole runs ------------------------------------------------------------------

  function Run(h: Host, es: seq<Event>): Host {
    if es == [] then h else Step(Run(h, es[..|es| - 1]), es[|es| - 1])
  }

  lemma RunAppend(h: Host, es: seq<Event>, e: Event)
    ensures Run(h, es + [e]) == Step(Run(h, es), e)
  {
  }

  /** The host was seen in the round that has just ended. */
  predicate SeenLastRound(es: seq<Event>) {
    |es| >= 2 && es[|es| - 1].RoundEnd? && es[|es| - 2].Seen?
  }

  /** `sync` says exactly where in its rounds the host is: it counts the next
      sample if and only if the host was seen in the round before, so that a host
      missed for a round, or seen twice in one, starts from a new baseline. */
  lemma {:induction false} SyncMeaning(uptime: int, es: seq<Event>)
    ensures var sync := Run(NewHost(uptime), es).sync;
            && sync in {-1, 0, 1}
            && (sync == -1 <==> es != [] && es[|es| - 1].Seen?)
            && (sync == 0 <==> SeenLastRound(es))
            && (Rebaselines(Run(NewHost(uptime), es)) <==> !SeenLastRound(es))
  {
  }

  /** The uptime of the latest sample, or `from` before any. */
  function Latest(es: seq<Event>, from: int): int {
    if es == [] then from
    else if es[|es| - 1].Seen? then es[|es| - 1].sample.uptime
    else Latest(es[..|es| - 1], from)
  }

  /** Uptimes never decrease along the run and start no lower than `from`. */
  predicate Monotone(es: seq<Event>, from: int) {
    es == [] || (Monotone(es[..|es| - 1], from) && Latest(es[..|es| - 1], from) <= Latest(es, from))
  }

  /** The host's clock never passes the system's, stays within one interval of
      it after every counted sample, and the speed ring moves in lockstep. */
  lemma {:induction false} ClockInvariant(uptime: int, es: seq<Event>)
    requires Monotone(es, uptime)
    ensures var h := Run(NewHost(uptime), es);
            && uptime <= h.utime <= Latest(es, uptime)
            && (h.utime - uptime) % INTERVAL == 0
            && h.tail == (h.utime - uptime) / INTERVAL % MAX_NSPEED
            && |h.speed| == MAX_NSPEED
            && (es != [] && es[|es| - 1].Seen? && !Rebaselines(Run(NewHost(uptime), es[..|es| - 1]))
                ==> Latest(es, uptime) < h.utime + INTERVAL)
  {
    if es != [] {
      var front, e := es[..|es| - 1], es[|es| - 1];
      ClockInvariant(uptime, front);
      var h := Run(NewHost(uptime), front);
      if e.Seen? && !Rebaselines(h) && !Early(h, e.sample) {
        Lockstep(h.utime - uptime, h.tail, Ticks(h.utime, e.sample.uptime));
      }
    }
  }

  lemma Lockstep(d: int, tail: nat, n: nat)
    requires 0 <= d && d % INTERVAL == 0 && tail == d / INTERVAL % MAX_NSPEED
    ensures (d + n * INTERVAL) % INTERVAL == 0
    ensures (tail + n) % MAX_NSPEED == (d + n * INTERVAL) / INTERVAL % MAX_NSPEED
  {
    var ticks := d / INTERVAL;
    TicksOf(d + n * INTERVAL, ticks + n);
    RingShift(tail + n, ticks / MAX_NSPEED);
    assert ticks + n == tail + n + ticks / MAX_NSPEED * MAX_NSPEED;
  }

  lemma TicksOf(d: int, k: int)
    requires d == k * INTERVAL
    ensures d % INTERVAL == 0 && d / INTERVAL == k
  {
  }

  lemma RingShift(x: int, rounds: int)
    ensures (x + rounds * MAX_NSPEED) % MAX_NSPEED == x % MAX_NSPEED
  {
  }

  /** The sum of slots in one direction. */
  function Total(w: seq<Counters>, dir: Direction): int {
    if w == [] then 0 else Total(w[..|w| - 1], dir) + w[|w| - 1].At(dir)
  }

  lemma {:induction false} TotalAppend(a: seq<Counters>, b: seq<Counters>, dir: Direction)
    ensures Total(a + b, dir) == Total(a, dir) + Total(b, dir)
  {
    if b == [] {
      assert a + b == a;
    } else {
      var front := b[..|b| - 1];
      TotalAppend(a, front, dir);
      assert (a + b)[..|a + b| - 1] == a + front;
    }
  }

  lemma {:induction false} TotalSame(n: nat, x: Counters, dir: Direction)
    ensures Total(seq(n, _ => x), dir) == n * x.At(dir)
  {
    var w := seq(n, _ => x);
    if n > 0 {
      TotalSame(n - 1, x, dir);
      assert w[..n - 1] == seq(n - 1, _ => x);
      assert n * x.At(dir) == (n - 1) * x.At(dir) + x.At(dir);
    }
  }

  /** What is lost by rounding down in `n` slots: less than one unit in each. */
  predicate Short(loss: int, n: nat) {
    0 <= loss && (loss < n || loss == n == 0)
  }

  /** Everything that a run writes to the speed ring. */
  ghost predicate SpeedHistory(h: Host, now: Host, w: seq<Counters>, counted: int, dir: Direction) {
    && |w| * INTERVAL == now.utime - h.utime
    && |now.speed| == |h.speed| && now.speed == (h.speed + w)[|w|..]
    && Short(counted - Total(w, dir), |w|)
  }

  lemma SpeedMore(h: Host, mid: Host, now: Host, w: seq<Counters>, n: nat, x: Counters, counted: int, d: int, dir: Direction)
    requires SpeedHistory(h, mid, w, counted, dir) && Short(d - n * x.At(dir), n)
    requires now.utime == mid.utime + n * INTERVAL && now.speed == (mid.speed + seq(n, _ => x))[n..]
    ensures SpeedHistory(h, now, w + seq(n, _ => x), counted + d, dir)
  {
    hide Total;
    var more := seq(n, _ => x);
    TotalAppend(w, more, dir);
    TotalSame(n, x, dir);
    WindowTwice(h.speed, w, more);
  }

  lemma WindowTwice(a: seq<Counters>, w: seq<Counters>, more: seq<Counters>)
    ensures ((a + w)[|w|..] + more)[|more|..] == (a + (w + more))[|w + more|..]
  {
  }

  /** Over any run: the speed ring is the window over what the run wrote, one slot for
      each interval by which the host's clock advanced, and all slots ever written
      add up to what was counted, short by less than one unit per slot. */
  lemma {:induction false} RunSpeed(h: Host, es: seq<Event>, dir: Direction) returns (w: seq<Counters>)
    requires |h.speed| == MAX_NSPEED
    ensures SpeedHistory(h, Run(h, es), w, TotalCounted(h, es, dir), dir)
  {
    hide Step, Slide, Counted, SpeedHistory;
    if es == [] {
      w := [];
      NoSpeed(h, dir);
    } else {
      var front, e := es[..|es| - 1], es[|es| - 1];
      var before := RunSpeed(h, front, dir);
      var mid := Run(h, front);
      SpeedLength(h, mid, before, TotalCounted(h, front, dir), dir);
      var n, x, d := StepSpeed(mid, e, dir);
      SpeedMore(h, mid, Step(mid, e), before, n, x, TotalCounted(h, front, dir), d, dir);
      w := before + seq(n, _ => x);
    }
  }

  lemma NoSpeed(h: Host, dir: Direction)
    ensures SpeedHistory(h, h, [], 0, dir)
  {
    assert h.speed + [] == h.speed;
  }

  lemma SpeedLength(h: Host, now: Host, w: seq<Counters>, counted: int, dir: Direction)
    requires SpeedHistory(h, now, w, counted, dir)
    ensures |now.speed| == |h.speed|
  {
  }

  lemma NotCounted(h: Host, s: Sample)
    ensures Rebaselines(h) || Early(h, s) ==> Counted(h, s) == ZERO
  {
  }

  lemma RoundEffect(h: Host)
    ensures Step(h, RoundEnd).utime == h.utime && Step(h, RoundEnd).speed == h.speed
  {
  }

  /** One event on the speed ring. */
  lemma StepSpeed(h: Host, e: Event, dir: Direction) returns (n: nat, x: Counters, d: int)
    requires |h.speed| == MAX_NSPEED
    ensures d == if e.Seen? then Counted(h, e.sample).At(dir) else 0
    ensures Short(d - n * x.At(dir), n)
    ensures Step(h, e).utime == h.utime + n * INTERVAL && Step(h, e).speed == (h.speed + seq(n, _ => x))[n..]
  {
    hide Slide, Post, Diff, Step, Share, Ticks, Counted;
    if e.Seen? {
      SampleEffect(h, e.sample);
      NotCounted(h, e.sample);
    } else {
      RoundEffect(h);
    }
    n, x, d := 0, ZERO, if e.Seen? then Counted(h, e.sample).At(dir) else 0;
    if e.Seen? && !Rebaselines(h) && !Early(h, e.sample) {
      n := Ticks(h.utime, e.sample.uptime);
      x := Share(Counted(h, e.sample), n);
      ShareLoss(Counted(h, e.sample), n, dir);
      SlideIsWindow(h.speed, n, x);
    } else {
      assert h.speed + seq(0, _ => ZERO) == h.speed;
    }
  }

  predicate ValidEvents(es: seq<Event>) {
    forall i :: 0 <= i < |es| && es[i].Seen? ==> ValidSample(es[i].sample)
  }

  predicate Ledgers(h: Host) {
    && DistinctKeys(h.daily) && |h.daily| <= MAX_NDAILY
    && DistinctKeys(h.monthly) && |h.monthly| <= MAX_NMONTHLY
  }

  /** In every run no day and no month is booked twice, and the ledgers stay bounded. */
  lemma {:induction false} RunKeepsLedgers(uptime: int, es: seq<Event>)
    requires ValidEvents(es)
    ensures Ledgers(Run(NewHost(uptime), es))
  {
    hide DistinctKeys, Slide, Post, Diff, NewHost;
    if es == [] {
      NewLedgers(uptime);
    } else {
      var front, e := es[..|es| - 1], es[|es| - 1];
      RunKeepsLedgers(uptime, front);
      var h := Run(NewHost(uptime), front);
      if e.Seen? {
        var s := e.sample;
        PostKeepsLedger(h.daily, MAX_NDAILY, s.day, Counted(h, s));
        PostKeepsLedger(h.monthly, MAX_NMONTHLY, s.month, Counted(h, s));
      }
    }
  }

  lemma NewLedgers(uptime: int)
    ensures Ledgers(NewHost(uptime))
  {
  }

  // ---- Conservation ------------------------------------------------------------------

  datatype Period = Daily | Monthly

  function Ledger(h: Host, p: Period): seq<Slot> {
    if p == Daily then h.daily else h.monthly
  }

  function Capacity(p: Period): nat {
    if p == Daily then MAX_NDAILY else MAX_NMONTHLY
  }

  function KeyOf(s: Sample, p: Period): nat {
    if p == Daily then s.day else s.month
  }

  /** The sum of the differences counted while the clock was set. */
  function Recorded(h: Host, es: seq<Event>, dir: Direction): int {
    if es == [] then 0 else
      var front, e := es[..|es| - 1], es[|es| - 1];
      Recorded(h, front, dir) + if e.Seen? && e.sample.clockReady then Counted(Run(h, front), e.sample).At(dir) else 0
  }

  /** The sum of everything that was overwritten in a ring. */
  function Evicted(h: Host, es: seq<Event>, p: Period, dir: Direction): int {
    if es == [] then 0 else
      var front, e := es[..|es| - 1], es[|es| - 1];
      var before := Run(h, front);
      Evicted(h, front, p, dir) +
      if e.Seen? && e.sample.clockReady && !Early(before, e.sample)
      then Dropped(Ledger(before, p), Capacity(p), KeyOf(e.sample, p)).At(dir) else 0
  }

  /** Over any run, what a ring holds and what it has evicted add up to what was
      counted, modulo 2^64: nothing is lost and nothing is booked twice. */
  lemma {:induction false} RunConserves(h: Host, es: seq<Event>, p: Period, dir: Direction)
    ensures Congruent(Sum(Ledger(Run(h, es), p), dir) + Evicted(h, es, p, dir), Sum(Ledger(h, p), dir) + Recorded(h, es, dir))
  {
    hide Step, Post, Sum, Dropped, Counted, Early, Congruent, Ledger, Capacity, KeyOf;
    if es == [] {
      CongruentBy(Sum(Ledger(h, p), dir), Sum(Ledger(h, p), dir), 0);
    } else {
      var front, e := es[..|es| - 1], es[|es| - 1];
      var before := Run(h, front);
      RunConserves(h, front, p, dir);
      LedgerStep(before, e, p, dir);
      if e.Seen? && e.sample.clockReady && !Early(before, e.sample) {
        var c, key := Counted(before, e.sample), KeyOf(e.sample, p);
        var list := Ledger(before, p);
        PostConserves(list, Capacity(p), key, c, dir);
        Carry(Sum(list, dir), Sum(Ledger(Run(h, es), p), dir), Dropped(list, Capacity(p), key).At(dir), c.At(dir),
              Evicted(h, front, p, dir), Sum(Ledger(h, p), dir) + Recorded(h, front, dir));
      }
    }
  }

  /** What one event books. */
  lemma LedgerStep(h: Host, e: Event, p: Period, dir: Direction)
    ensures Ledger(Step(h, e), p) ==
      if e.Seen? && e.sample.clockReady && !Early(h, e.sample)
      then Post(Ledger(h, p), Capacity(p), KeyOf(e.sample, p), Counted(h, e.sample)) else Ledger(h, p)
    ensures e.Seen? && Early(h, e.sample) ==> Counted(h, e.sample).At(dir) == 0
  {
    hide Post, Slide, Diff;
  }

  lemma Carry(held: int, held': int, out: int, c: int, evicted: int, total: int)
    requires Congruent(held' + out, held + c) && Congruent(held + evicted, total)
    ensures Congruent(held' + (evicted + out), total + c)
  {
    CongruentAdd(held' + out, held + c, held + evicted, total);
    var w: int :| held' + out + (held + evicted) == held + c + total + w * TWO64;
    CongruentBy(held' + (evicted + out), total + c, w);
  }

  // ---- Telescoping -------------------------------------------------------------------

  /** The sum of all counted differences of a run. */
  function TotalCounted(h: Host, es: seq<Event>, dir: Direction): int {
    if es == [] then 0 else
      var front, e := es[..|es| - 1], es[|es| - 1];
      TotalCounted(h, front, dir) + if e.Seen? then Counted(Run(h, front), e.sample).At(dir) else 0
  }

  /** What a sample adds to the reading without being counted: the whole change at
      a new baseline, and a decrease that is taken for an artefact. */
  function Uncounted(h: Host, s: Sample, dir: Direction): int {
    var c, sc := s.counter.At(dir), h.last.At(dir);
    if Rebaselines(h) then c - sc
    else if !Early(h, s) && c < sc && Counted(h, s).At(dir) == 0 then TWO64 - sc + c
    else 0
  }

  function TotalUncounted(h: Host, es: seq<Event>, dir: Direction): int {
    if es == [] then 0 else
      var front, e := es[..|es| - 1], es[|es| - 1];
      TotalUncounted(h, front, dir) + if e.Seen? then Uncounted(Run(h, front), e.sample, dir) else 0
  }

  /** Every sample is accounted for: counted or not, it carries the reading on. */
  lemma SampleAccounts(h: Host, s: Sample, dir: Direction)
    ensures Congruent(Counted(h, s).At(dir) + Uncounted(h, s, dir), Step(h, Seen(s)).last.At(dir) - h.last.At(dir))
  {
    var c: int, sc: int, d: int := s.counter.At(dir), h.last.At(dir), Counted(h, s).At(dir);
    var change := Step(h, Seen(s)).last.At(dir) - sc;
    if !Rebaselines(h) && !Early(h, s) {
      DiffMeaning(c, sc, s.wanUp, s.wanUptime);
      assert d == Diff(c, sc, s.wanUp, s.wanUptime) && change == c - sc;
    }
    var total := d + Uncounted(h, s, dir);
    assert total == change || total == change + TWO64;
    CongruentBy(total, change, if total == change then 0 else 1);
  }

  /** Over any run, with any counters: what was counted and what was not add up to
      the last reading minus the first, modulo 2^64. */
  lemma {:induction false} RunAccounts(h: Host, es: seq<Event>, dir: Direction)
    ensures Congruent(TotalCounted(h, es, dir) + TotalUncounted(h, es, dir), Run(h, es).last.At(dir) - h.last.At(dir))
  {
    if es == [] {
      CongruentBy(0, 0, 0);
    } else {
      var front, e := es[..|es| - 1], es[|es| - 1];
      var before := Run(h, front);
      RunAccounts(h, front, dir);
      if e.Seen? {
        SampleAccounts(before, e.sample, dir);
        CongruentAdd(
          TotalCounted(h, front, dir) + TotalUncounted(h, front, dir), before.last.At(dir) - h.last.At(dir),
          Counted(before, e.sample).At(dir) + Uncounted(before, e.sample, dir),
          Run(h, es).last.At(dir) - before.last.At(dir));
      }
    }
  }

  /** One sample in every round. */
  function EveryRound(samples: seq<Sample>): seq<Event> {
    if samples == [] then [] else EveryRound(samples[..|samples| - 1]) + [RoundEnd, Seen(samples[|samples| - 1])]
  }

  predicate Increasing(from: u64, samples: seq<Sample>, dir: Direction) {
    && (forall i :: 0 <= i < |samples| ==> from <= samples[i].counter.At(dir))
    && (forall i, j :: 0 <= i < j < |samples| ==> samples[i].counter.At(dir) <= samples[j].counter.At(dir))
  }

  /** Between two baselines the counted differences telescope: whatever the
      number of rounds and of samples that came too early, the total is the host's
      last reading minus its baseline, and that reading is the newest one as soon
      as a sample is not too early. */
  lemma {:induction false} Telescopes(h: Host, samples: seq<Sample>, dir: Direction)
    requires h.sync == -1 && Increasing(h.last.At(dir), samples, dir)
    ensures var es := EveryRound(samples);
            var now := Run(h, es);
            && now.sync == -1
            && TotalCounted(h, es, dir) == now.last.At(dir) - h.last.At(dir)
            && (samples != [] ==> now.last.At(dir) <= samples[|samples| - 1].counter.At(dir))
            && (samples != [] && !Early(Run(h, es[..|es| - 1]), samples[|samples| - 1])
                ==> now.last == samples[|samples| - 1].counter)
    decreases |samples|
  {
    hide Run, TotalCounted, Step, EveryRound, Counted, Early, Increasing;
    if samples == [] {
      NoRounds(h, dir);
    } else {
      var front, s := samples[..|samples| - 1], samples[|samples| - 1];
      IncreasingFront(h.last.At(dir), samples, dir);
      Telescopes(h, front, dir);
      RoundAppended(h, samples, dir);
      if front == [] {
        NoRounds(h, dir);
      }
      RoundCounts(Run(h, EveryRound(front)), s, dir);
    }
  }

  lemma IncreasingFront(from: u64, samples: seq<Sample>, dir: Direction)
    requires samples != [] && Increasing(from, samples, dir)
    ensures Increasing(from, samples[..|samples| - 1], dir) && from <= samples[|samples| - 1].counter.At(dir)
    ensures |samples| > 1 ==> samples[|samples| - 2].counter.At(dir) <= samples[|samples| - 1].counter.At(dir)
  {
  }

  lemma NoRounds(h: Host, dir: Direction)
    ensures EveryRound([]) == [] && Run(h, []) == h && TotalCounted(h, [], dir) == 0
  {
  }

  /** One round: its end, then a sample no lower than the last reading. */
  lemma RoundCounts(h: Host, s: Sample, dir: Direction)
    requires h.sync == -1 && h.last.At(dir) <= s.counter.At(dir)
    ensures var mid := Step(h, RoundEnd);
            var now := Step(mid, Seen(s));
            && now.sync == -1
            && Counted(mid, s).At(dir) == now.last.At(dir) - h.last.At(dir)
            && now.last.At(dir) <= s.counter.At(dir)
            && (!Early(mid, s) ==> now.last == s.counter)
  {
    hide Post, Slide, Ticks;
  }

  /** What one more round adds to a run. */
  lemma RoundAppended(h: Host, samples: seq<Sample>, dir: Direction)
    requires samples != []
    ensures var front, s := EveryRound(samples[..|samples| - 1]), samples[|samples| - 1];
            var es := EveryRound(samples);
            var mid := Step(Run(h, front), RoundEnd);
            && es != []
            && Run(h, es[..|es| - 1]) == mid
            && Run(h, es) == Step(mid, Seen(s))
            && TotalCounted(h, es, dir) == TotalCounted(h, front, dir) + Counted(mid, s).At(dir)
  {
    hide Run, TotalCounted, Step, Counted;
    var front, s := EveryRound(samples[..|samples| - 1]), samples[|samples| - 1];
    var middle := front + [RoundEnd];
    assert EveryRound(samples) == middle + [Seen(s)];
    assert (middle + [Seen(s)])[..|middle|] == middle;
    RunAppend(h, front, RoundEnd);
    RunAppend(h, middle, Seen(s));
    CountedAppend(h, front, RoundEnd, dir);
    CountedAppend(h, middle, Seen(s), dir);
  }

  lemma CountedAppend(h: Host, es: seq<Event>, e: Event, dir: Direction)
    ensures TotalCounted(h, es + [e], dir) == TotalCounted(h, es, dir) + if e.Seen? then Counted(Run(h, es), e.sample).At(dir) else 0
  {
    hide Run, Counted;
    assert (es + [e])[..|es|] == es;
  }
}
