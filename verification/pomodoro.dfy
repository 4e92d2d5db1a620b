/** The focus/break timer: a two-phase countdown. Its state is the current
    phase, the seconds left in it, whether the one-second interval is
    running, and the configured phase lengths in minutes. Real-time
    scheduling is replaced by an explicit step: `Second` is one elapsed
    second of wall-clock time. */
module Pomodoro {
  import opened Wrappers

  datatype Mode = Focus | Break

  /** Phase lengths in minutes. */
  datatype Config = Config(focus: int, brk: int)

  datatype Timer = Timer(mode: Mode, remaining: int, ticking: bool, config: Config)

  const DefaultFocus := 25
  const DefaultBreak := 5
  const MaxFocus := 180
  const MaxBreak := 60
  const SecondsPerMinute := 60

  /** The configuration used when nothing is stored. */
  const DefaultConfig := Config(DefaultFocus, DefaultBreak)

  function Other(m: Mode): Mode {
    match m
    case Focus => Break
    case Break => Focus
  }

  /** The configured length of phase `m`, in seconds. */
  function PhaseSeconds(c: Config, m: Mode): int {
    match m
    case Focus => c.focus * SecondsPerMinute
    case Break => c.brk * SecondsPerMinute
  }

  /** Both phase lengths lie within what the settings form accepts. */
  predicate ValidConfig(c: Config) {
    1 <= c.focus <= MaxFocus && 1 <= c.brk <= MaxBreak
  }

  /** The timer invariant: a valid configuration, and between one second
      and the whole current phase left on the clock. */
  predicate Valid(t: Timer) {
    ValidConfig(t.config) && 1 <= t.remaining <= PhaseSeconds(t.config, t.mode)
  }

  /** The state at page load, and after every stop: idle at the start of a
      focus phase. */
  predicate AtRest(t: Timer) {
    t.mode == Focus && !t.ticking && t.remaining == PhaseSeconds(t.config, Focus)
  }

  /** The state at page load for a stored configuration. */
  function Initial(c: Config): (t: Timer)
    ensures AtRest(t) && t.config == c
    ensures ValidConfig(c) ==> Valid(t)
  {
    Timer(Focus, c.focus * SecondsPerMinute, false, c)
  }

  /** With nothing stored, the page opens on a valid timer at rest with a
      25-minute focus phase: 1500 seconds on the clock. */
  lemma DefaultStart()
    ensures Valid(Initial(DefaultConfig)) && AtRest(Initial(DefaultConfig))
    ensures Initial(DefaultConfig).remaining == 1500
    ensures Initial(DefaultConfig).config.brk == 5
  {
  }

  /** The start button: sets the interval running unless it already runs.
      Nothing but the running flag changes. */
  function Start(t: Timer): (r: Timer)
    ensures r.ticking
    ensures t.ticking ==> r == t
    ensures r.mode == t.mode && r.remaining == t.remaining && r.config == t.config
  {
    if t.ticking then t else t.(ticking := true)
  }

  /** The pause button: stops the interval if it runs. The clock keeps its
      phase and its seconds. */
  function Pause(t: Timer): (r: Timer)
    ensures !r.ticking
    ensures !t.ticking ==> r == t
    ensures r.mode == t.mode && r.remaining == t.remaining && r.config == t.config
  {
    if !t.ticking then t else t.(ticking := false)
  }

  /** The stop button: pause, then back to the start of a focus phase. */
  function Stop(t: Timer): (r: Timer)
    ensures AtRest(r) && r.config == t.config
    ensures ValidConfig(t.config) ==> Valid(r)
  {
    var p := Pause(t);
    p.(mode := Focus, remaining := p.config.focus * SecondsPerMinute)
  }

  /** Whether the next tick ends the phase (and sounds the beep). */
  predicate PhaseEnds(t: Timer) {
    t.remaining - 1 <= 0
  }

  /** The body of the one-second interval: count down by one; when that
      reaches zero or below, switch to the other phase with its full length. */
  function Tick(t: Timer): (r: Timer)
    ensures r.ticking == t.ticking && r.config == t.config
    ensures !PhaseEnds(t) ==> r.mode == t.mode && r.remaining == t.remaining - 1
    ensures PhaseEnds(t) ==> r.mode == Other(t.mode) && r.remaining == PhaseSeconds(t.config, r.mode)
    ensures Valid(t) ==> Valid(r)
  {
    var left := t.remaining - 1;
    if left <= 0 then
      match t.mode
      case Focus => t.(mode := Break, remaining := t.config.brk * SecondsPerMinute)
      case Break => t.(mode := Focus, remaining := t.config.focus * SecondsPerMinute)
    else t.(remaining := left)
  }

  /** One second of wall-clock time: the interval fires only while running. */
  function Second(t: Timer): (r: Timer)
    ensures !t.ticking ==> r == t
    ensures Valid(t) ==> Valid(r)
  {
    if t.ticking then Tick(t) else t
  }

  /** `n` seconds of wall-clock time. The interval never touches the
      configuration, and a paused or stopped timer does not move however
      long the page stays open. */
  function Run(t: Timer, n: nat): (r: Timer)
    ensures r.config == t.config
    ensures !t.ticking ==> r == t
  {
    if n == 0 then t else Second(Run(t, n - 1))
  }

  /** The timer invariant holds however long the clock runs. */
  lemma {:induction false} RunValid(t: Timer, n: nat)
    requires Valid(t)
    ensures Valid(Run(t, n))
  {
    if n > 0 {
      RunValid(t, n - 1);
    }
  }

  /** While fewer seconds pass than are left, a running timer just counts
      down, one second per second. */
  lemma {:induction false} CountDown(t: Timer, n: nat)
    requires t.ticking && n < t.remaining
    ensures Run(t, n) == t.(remaining := t.remaining - n)
  {
    if n > 0 {
      CountDown(t, n - 1);
    }
  }

  /** When exactly the seconds left have passed, the phase has flipped and
      the new phase starts from its full length, still running. */
  lemma PhaseFlip(t: Timer)
    requires t.ticking && t.remaining >= 1
    ensures Run(t, t.remaining) == Timer(Other(t.mode), PhaseSeconds(t.config, Other(t.mode)), true, t.config)
  {
    CountDown(t, t.remaining - 1);
  }

  /** Started from rest, a focus phase lasts exactly its configured minutes
      times sixty seconds: with 25 minutes, 1500 seconds later the timer is
      at the start of a break. */
  lemma FocusPhaseLength(c: Config)
    requires c.focus >= 1
    ensures Run(Start(Initial(c)), c.focus * SecondsPerMinute) == Timer(Break, c.brk * SecondsPerMinute, true, c)
  {
    PhaseFlip(Start(Initial(c)));
  }

  /** Pausing a running timer and starting it again resumes from exactly
      where it was paused. */
  lemma PauseThenStart(t: Timer)
    requires t.ticking
    ensures Start(Pause(t)) == t
  {
  }

  /** Stopping twice is stopping once, and a timer at rest stops to itself. */
  lemma StopIdempotent(t: Timer)
    ensures Stop(Stop(t)) == Stop(t)
    ensures AtRest(t) ==> Stop(t) == t
  {
  }

  /** `Math.max(lo, Math.min(hi, v))`. */
  function Clamp(v: int, lo: int, hi: int): (r: int)
    requires lo <= hi
    ensures lo <= r <= hi
    ensures lo <= v <= hi ==> r == v
    ensures v < lo ==> r == lo
    ensures v > hi ==> r == hi
  {
    var m := if hi < v then hi else v;
    if lo > m then lo else m
  }

  /** One field of the settings form: an empty field takes the default, and
      any number is then clamped to `[1, max]`. */
  function ReadMinutes(field: Option<int>, default: int, max: int): (m: int)
    requires 1 <= max
    ensures 1 <= m <= max
    ensures field.Some? && 1 <= field.value <= max ==> m == field.value
    ensures field.Some? && field.value < 1 ==> m == 1
    ensures field.Some? && field.value > max ==> m == max
    ensures field.None? && 1 <= default <= max ==> m == default
  {
    var v := match field case Some(x) => x case None => default;
    Clamp(v, 1, max)
  }

  /** The apply button: read and clamp both fields, store the configuration,
      and stop. The result is a valid timer at rest on the new settings. */
  function ApplyConfig(t: Timer, focusField: Option<int>, breakField: Option<int>): (r: Timer)
    ensures Valid(r) && AtRest(r)
    ensures r.config.focus == ReadMinutes(focusField, DefaultFocus, MaxFocus)
    ensures r.config.brk == ReadMinutes(breakField, DefaultBreak, MaxBreak)
  {
    var c := Config(ReadMinutes(focusField, DefaultFocus, MaxFocus),
                    ReadMinutes(breakField, DefaultBreak, MaxBreak));
    Stop(t.(config := c))
  }

  /** Applying 30 and 10 minutes, even while running, gives an idle focus
      phase of 1800 seconds; empty fields give the 25/5 defaults. */
  lemma ApplyConfigExamples(t: Timer)
    ensures ApplyConfig(t, Some(30), Some(10)) == Timer(Focus, 1800, false, Config(30, 10))
    ensures ApplyConfig(t, None, None) == Timer(Focus, 1500, false, Config(25, 5))
    ensures ApplyConfig(t, Some(0), Some(999)).config == Config(1, 60)
  {
  }
}
