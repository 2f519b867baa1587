/**
  The Aral Sea timelapse of dashboard.js (`createChart3`): an index into a
  fixed list of years, moved by the previous/next buttons, the year slider and
  the ticks of a play interval, with a play/pause toggle and a speed slider.
  Timers are modelled abstractly: `liveIntervals` counts the intervals that
  have been set and not yet cleared, and `intervalPeriod` is the period of the
  most recently set one.
*/
module Timelapse {
  /** `aralSeaYears`: the years with a satellite image, in order. */
  const AralSeaYears: seq<int> := [
    1974, 1984, 1985, 1986, 1987, 1988, 1989, 1990, 1991, 1992, 1993, 1994,
    1995, 1996, 1997, 1998, 1999, 2000, 2001, 2002, 2003, 2004, 2005, 2006,
    2007, 2008, 2009, 2010, 2011, 2012, 2013, 2014, 2015, 2016, 2017, 2018,
    2019, 2020
  ]

  /** The initial `playSpeed`, in milliseconds. */
  const InitialSpeed: int := 500

  /** The speed slider's `min` and `max` attributes, in milliseconds. */
  const MinSpeed: int := 100
  const MaxSpeed: int := 2000

  /** "Previous": step back unless already at the first year. */
  function PrevIndex(i: nat): (j: nat)
    ensures j <= i
    ensures j == i <==> i == 0
    ensures i > 0 ==> i - j == 1
  {
    if i > 0 then i - 1 else i
  }

  /** "Next": step forward unless already at the last of `n` years. */
  function NextIndex(i: nat, n: nat): (j: nat)
    requires i < n
    ensures i <= j < n
    ensures j == i <==> i == n - 1
    ensures j != i ==> j - i == 1
  {
    if i < n - 1 then i + 1 else i
  }

  /** A play tick: step forward, wrapping from the last of `n` years to the first. */
  function TickIndex(i: nat, n: nat): (j: nat)
    requires i < n
    ensures j < n
    ensures j == (i + 1) % n
  {
    if i < n - 1 then i + 1 else 0
  }

  /** `k` consecutive ticks. */
  function Ticks(i: nat, n: nat, k: nat): (j: nat)
    requires i < n
    ensures j < n
  {
    if k == 0 then i else TickIndex(Ticks(i, n, k - 1), n)
  }

  /** `k` consecutive clicks on "Next". */
  function Nexts(i: nat, n: nat, k: nat): (j: nat)
    requires i < n
    ensures j < n
  {
    if k == 0 then i else NextIndex(Nexts(i, n, k - 1), n)
  }

  /** `k` consecutive clicks on "Previous". */
  function Prevs(i: nat, k: nat): nat {
    if k == 0 then i else PrevIndex(Prevs(i, k - 1))
  }

  /** Ticking `k` times moves `k` years forward around the cycle. */
  lemma {:induction false} TicksWrapAround(i: nat, n: nat, k: nat)
    requires i < n
    ensures Ticks(i, n, k) == (i + k) % n
  {
    if k > 0 {
      TicksWrapAround(i, n, k - 1);
      ModSucc(i + k - 1, n);
    }
  }

  /** Adding one before or after taking the remainder gives the same remainder. */
  lemma ModSucc(a: nat, n: nat)
    requires n > 0
    ensures (a % n + 1) % n == (a + 1) % n
  {
    var q, r := a / n, a % n;
    assert a == q * n + r;
    if r + 1 < n {
      ModUnique(r + 1, n, 0, r + 1);
      ModUnique(a + 1, n, q, r + 1);
    } else {
      assert (q + 1) * n == q * n + n;
      ModUnique(n, n, 1, 0);
      ModUnique(a + 1, n, q + 1, 0);
    }
  }

  /** The remainder is the only one in range: `x == q * n + r` with `0 <= r < n` fixes `x % n`. */
  lemma ModUnique(x: int, n: int, q: int, r: int)
    requires n > 0 && x == q * n + r && 0 <= r < n
    ensures x % n == r
  {
    var q', r' := x / n, x % n;
    assert x == q' * n + r';
    if q' < q {
      MulAtLeast(q - q', n);
    } else if q' > q {
      MulAtLeast(q' - q, n);
    }
  }

  /** A positive multiple of `n` is at least `n`. */
  lemma {:induction false} MulAtLeast(d: int, n: nat)
    requires d >= 1
    ensures d * n >= n
  {
    if d > 1 {
      MulAtLeast(d - 1, n);
      assert d * n == (d - 1) * n + n;
    }
  }

  /** A full cycle of ticks, one per year, comes back to the same year. */
  lemma TicksFullCycle(i: nat, n: nat)
    requires i < n
    ensures Ticks(i, n, n) == i
  {
    TicksWrapAround(i, n, n);
    ModUnique(i + n, n, 1, i);
  }

  /** Clicking "Next" `k` times moves `k` years forward, stopping at the last year. */
  lemma {:induction false} NextsClamp(i: nat, n: nat, k: nat)
    requires i < n
    ensures Nexts(i, n, k) == if i + k < n then i + k else n - 1
  {
    if k > 0 {
      NextsClamp(i, n, k - 1);
    }
  }

  /** Clicking "Previous" `k` times moves `k` years back, stopping at the first year. */
  lemma {:induction false} PrevsClamp(i: nat, k: nat)
    ensures Prevs(i, k) == if k <= i then i - k else 0
  {
    if k > 0 {
      PrevsClamp(i, k - 1);
    }
  }

  /**
    The player's closure state: `currentImageIndex`, `isPlaying`, `playSpeed`,
    the timers, and what the page shows (the year caption and image, the
    year slider's position and the speed caption).
  */
  datatype Player = Player(
    index: nat,
    playing: bool,
    speed: int,
    liveIntervals: nat,
    intervalPeriod: int,
    displayedYear: int,
    sliderPosition: nat,
    speedCaption: int)

  /** The user and timer events the player reacts to. */
  datatype Event =
    | PreviousClick
    | NextClick
    | YearSlider(value: int)
    | Tick
    | PlayClick
    | SpeedSlider(value: int)

  /** The state `createChart3` sets up: first year shown, paused, 500 ms, no timer. */
  const Initial: Player := Player(0, false, InitialSpeed, 0, InitialSpeed, AralSeaYears[0], 0, InitialSpeed)

  /**
    The invariant: the index names a year, the page shows that year, exactly
    one interval is live while playing and none while paused, the live one
    runs at the current speed, and the speed is within the slider's range.
  */
  ghost predicate Valid(s: Player) {
    && s.index < |AralSeaYears|
    && s.displayedYear == AralSeaYears[s.index]
    && s.sliderPosition == s.index
    && s.liveIntervals == (if s.playing then 1 else 0)
    && (s.playing ==> s.intervalPeriod == s.speed)
    && MinSpeed <= s.speed <= MaxSpeed
    && s.speedCaption == s.speed
  }

  /**
    The events that can occur: a slider reports a value within its range, and
    a tick fires only while some interval is live.
  */
  predicate Enabled(s: Player, e: Event) {
    match e
    case YearSlider(v) => 0 <= v < |AralSeaYears|
    case SpeedSlider(v) => MinSpeed <= v <= MaxSpeed
    case Tick => s.liveIntervals > 0
    case _ => true
  }

  /** `updateImage()`: show the year at the index and move the year slider to it. */
  function ShowCurrent(s: Player): Player
    requires s.index < |AralSeaYears|
  {
    s.(displayedYear := AralSeaYears[s.index], sliderPosition := s.index)
  }

  /** `clearInterval(playInterval)`: the stored interval stops, if it was live. */
  function AfterClearInterval(s: Player): Player {
    s.(liveIntervals := if s.liveIntervals > 0 then s.liveIntervals - 1 else 0)
  }

  /** `startPlay()`: one more interval, ticking at the current speed. */
  function AfterStartPlay(s: Player): Player {
    s.(liveIntervals := s.liveIntervals + 1, intervalPeriod := s.speed)
  }

  /** The effect of one event on the player's state. */
  function Step(s: Player, e: Event): Player
    requires s.index < |AralSeaYears| && Enabled(s, e)
  {
    var n := |AralSeaYears|;
    match e
    case PreviousClick =>
      if s.index > 0 then ShowCurrent(s.(index := s.index - 1)) else s
    case NextClick =>
      if s.index < n - 1 then ShowCurrent(s.(index := s.index + 1)) else s
    case YearSlider(v) =>
      ShowCurrent(s.(index := v))
    case Tick =>
      ShowCurrent(s.(index := TickIndex(s.index, n)))
    case PlayClick =>
      if s.playing then AfterClearInterval(s).(playing := false)
      else AfterStartPlay(s).(playing := true)
    case SpeedSlider(v) =>
      var t := s.(speed := v, speedCaption := v);
      if t.playing then AfterStartPlay(AfterClearInterval(t)) else t
  }

  /** Each event moves the index as its button, slider or tick promises, and preserves the invariant. */
  lemma StepSpec(s: Player, e: Event)
    requires Valid(s) && Enabled(s, e)
    ensures Valid(Step(s, e))
    ensures e.PreviousClick? ==> Step(s, e).index == PrevIndex(s.index)
    ensures e.NextClick? ==> Step(s, e).index == NextIndex(s.index, |AralSeaYears|)
    ensures e.YearSlider? ==> Step(s, e).index == e.value
    ensures e.Tick? ==> Step(s, e).index == TickIndex(s.index, |AralSeaYears|)
    ensures e.PlayClick? ==> Step(s, e).playing == !s.playing && Step(s, e).index == s.index
    ensures e.SpeedSlider? ==> Step(s, e).speed == e.value && Step(s, e).playing == s.playing
  {
  }

  /** Events that can occur one after another from `s`. */
  ghost predicate Feasible(s: Player, es: seq<Event>)
    requires Valid(s)
    decreases |es|
  {
    es == [] || (Enabled(s, es[0]) && (StepSpec(s, es[0]); Feasible(Step(s, es[0]), es[1..])))
  }

  /** The state after a sequence of events. */
  function Run(s: Player, es: seq<Event>): (t: Player)
    requires Valid(s) && Feasible(s, es)
    ensures Valid(t)
    decreases |es|
  {
    if es == [] then s
    else
      StepSpec(s, es[0]);
      Run(Step(s, es[0]), es[1..])
  }

  /**
    Whatever the user clicks and however the timer fires, starting from the
    initial state at most one interval is ever live, exactly one while playing,
    and it ticks at the speed the slider shows.
  */
  lemma AtMostOneInterval(es: seq<Event>)
    requires Feasible(Initial, es)
    ensures Run(Initial, es).liveIntervals <= 1
    ensures Run(Initial, es).liveIntervals == 1 <==> Run(Initial, es).playing
    ensures Run(Initial, es).playing ==> Run(Initial, es).intervalPeriod == Run(Initial, es).speedCaption
  {
  }

  /** The timelapse player, its closure variables held as fields. */
  class TimelapsePlayer {
    var currentImageIndex: nat
    var isPlaying: bool
    var playSpeed: int
    var liveIntervals: nat
    var intervalPeriod: int
    var displayedYear: int
    var sliderPosition: nat
    var speedCaption: int

    /** The fields as a `Player` value. */
    function State(): Player
      reads this
    {
      Player(currentImageIndex, isPlaying, playSpeed, liveIntervals, intervalPeriod,
             displayedYear, sliderPosition, speedCaption)
    }

    constructor()
      ensures State() == Initial && Valid(State())
    {
      currentImageIndex := 0;
      isPlaying := false;
      playSpeed := InitialSpeed;
      liveIntervals := 0;
      intervalPeriod := InitialSpeed;
      displayedYear := AralSeaYears[0];
      sliderPosition := 0;
      speedCaption := InitialSpeed;
    }

    /** `updateImage()`. */
    method UpdateImage()
      requires currentImageIndex < |AralSeaYears|
      modifies this
      ensures State() == ShowCurrent(old(State()))
    {
      displayedYear := AralSeaYears[currentImageIndex];
      sliderPosition := currentImageIndex;
    }

    /** The "Previous" button's click handler. */
    method Previous()
      requires Valid(State())
      modifies this
      ensures State() == Step(old(State()), PreviousClick) && Valid(State())
    {
      if currentImageIndex > 0 {
        currentImageIndex := currentImageIndex - 1;
        UpdateImage();
      }
      StepSpec(old(State()), PreviousClick);
    }

    /** The "Next" button's click handler. */
    method Next()
      requires Valid(State())
      modifies this
      ensures State() == Step(old(State()), NextClick) && Valid(State())
    {
      if currentImageIndex < |AralSeaYears| - 1 {
        currentImageIndex := currentImageIndex + 1;
        UpdateImage();
      }
      StepSpec(old(State()), NextClick);
    }

    /** The year slider's input handler, `value` being the slider's position. */
    method SlideTo(value: int)
      requires Valid(State()) && 0 <= value < |AralSeaYears|
      modifies this
      ensures State() == Step(old(State()), YearSlider(value)) && Valid(State())
    {
      currentImageIndex := value;
      UpdateImage();
      StepSpec(old(State()), YearSlider(value));
    }

    /** `startPlay()`: sets a new interval at the current speed. */
    method StartPlay()
      modifies this
      ensures State() == AfterStartPlay(old(State()))
    {
      liveIntervals := liveIntervals + 1;
      intervalPeriod := playSpeed;
    }

    /** `clearInterval(playInterval)`. */
    method ClearInterval()
      modifies this
      ensures State() == AfterClearInterval(old(State()))
    {
      if liveIntervals > 0 {
        liveIntervals := liveIntervals - 1;
      }
    }

    /** The callback of the live interval. */
    method Tick()
      requires Valid(State()) && liveIntervals > 0
      modifies this
      ensures State() == Step(old(State()), Event.Tick) && Valid(State())
    {
      if currentImageIndex < |AralSeaYears| - 1 {
        currentImageIndex := currentImageIndex + 1;
        UpdateImage();
      } else {
        currentImageIndex := 0;
        UpdateImage();
      }
      StepSpec(old(State()), Event.Tick);
    }

    /** `togglePlay()`, the play/pause button's click handler. */
    method TogglePlay()
      requires Valid(State())
      modifies this
      ensures State() == Step(old(State()), PlayClick) && Valid(State())
    {
      if isPlaying {
        ClearInterval();
        isPlaying := false;
      } else {
        StartPlay();
        isPlaying := true;
      }
      StepSpec(old(State()), PlayClick);
    }

    /** The speed slider's input handler, `value` being the slider's position in milliseconds. */
    method ChangeSpeed(value: int)
      requires Valid(State()) && MinSpeed <= value <= MaxSpeed
      modifies this
      ensures State() == Step(old(State()), SpeedSlider(value)) && Valid(State())
    {
      playSpeed := value;
      speedCaption := playSpeed;
      if isPlaying {
        ClearInterval();
        StartPlay();
      }
      StepSpec(old(State()), SpeedSlider(value));
    }
  }
}
