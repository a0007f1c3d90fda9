/** What the animated effects look like over time, for ticks that have not wrapped. */
module LedAnimation {
  import opened Protocol
  import opened Neopixel
  import opened LedEffects
  import opened LedColours

  const TICKS := 0x1_0000_0000

  // ---- division -------------------------------------------------------------------------

  lemma Distributes(a: int, b: int, p: int)
    ensures (a + b) * p == a * p + b * p
  {
  }

  lemma Monotone(a: int, b: int, p: nat)
    requires a <= b
    ensures a * p <= b * p
  {
  }

  lemma DivMod(x: nat, p: nat)
    requires p > 0
    ensures x / p * p + x % p == x && 0 <= x % p < p
  {
  }

  lemma StepIs(k: nat, p: nat, r: nat)
    requires r < p
    ensures (k * p + r) / p == k && (k * p + r) % p == r
  {
    var x := k * p + r;
    var q := x / p;
    DivMod(x, p);
    Distributes(k, 1, p);
    Distributes(q, 1, p);
    if q > k {
      Monotone(k + 1, q, p);
    } else if q < k {
      Monotone(q + 1, k, p);
    }
  }

  /** Adding a whole cycle of m steps of p ticks leads to the same position. */
  lemma StepPeriod(t: nat, p: nat, m: nat)
    requires p > 0 && m > 0
    ensures (t + m * p) / p % m == t / p % m
  {
    DivMod(t, p);
    Distributes(t / p, m, p);
    StepIs(t / p + m, p, t % p);
    DivMod(t / p, m);
    Distributes(t / p / m, 1, m);
    StepIs(t / p / m + 1, m, t / p % m);
  }

  lemma NextStep(t: nat, p: nat)
    requires p > 0
    ensures (t + 1) / p == t / p + Bit((t + 1) % p == 0)
    ensures (t + 1) % p == if t % p + 1 == p then 0 else t % p + 1
  {
    var q, r := t / p, t % p;
    DivMod(t, p);
    NextOf(q, r, p);
  }

  lemma NextOf(q: nat, r: nat, p: nat)
    requires r < p
    ensures (q * p + r + 1) / p == if r + 1 == p then q + 1 else q
    ensures (q * p + r + 1) % p == if r + 1 == p then 0 else r + 1
  {
    if r + 1 < p {
      StepIs(q, p, r + 1);
    } else {
      Distributes(q, 1, p);
      StepIs(q + 1, p, 0);
    }
  }

  lemma Doubled(q: nat, m: nat, p: nat)
    requires m == 2 * p
    ensures q * m == (q + q) * p
  {
    Distributes(q, q, p);
  }

  lemma HalfCycle(s: nat, count: nat, q: nat, pos: nat)
    requires pos < 2 * count && s == (q + q) * count + pos
    ensures s % count == if pos < count then pos else pos - count
  {
    if pos < count {
      StepIs(q + q, count, pos);
    } else {
      Distributes(q + q, 1, count);
      StepIs(q + q + 1, count, pos - count);
    }
  }

  // ---- how often something happens in a window of ticks ---------------------------------

  function Bit(b: bool): nat {
    if b then 1 else 0
  }

  /** For how many of the n ticks after `from` f holds. */
  function Count(f: nat -> bool, from: nat, n: nat): nat {
    if n == 0 then 0 else Count(f, from, n - 1) + Bit(f(from + n - 1))
  }

  function Window(f: nat -> bool, from: nat, n: nat): set<nat> {
    set t | from <= t < from + n && f(t)
  }

  lemma {:induction false} CountIsSize(f: nat -> bool, from: nat, n: nat)
    ensures Count(f, from, n) == |Window(f, from, n)|
  {
    if n > 0 {
      CountIsSize(f, from, n - 1);
      var last := from + n - 1;
      var before := Window(f, from, n - 1);
      assert last !in before;
      if f(last) {
        assert Window(f, from, n) == before + {last};
      } else {
        assert Window(f, from, n) == before;
      }
    }
  }

  lemma {:induction false} FirstTickOff(f: nat -> bool, from: nat, n: nat)
    requires n > 0
    ensures Count(f, from, n) == Bit(f(from)) + Count(f, from + 1, n - 1)
  {
    if n > 1 {
      FirstTickOff(f, from, n - 1);
    }
  }

  /** All windows of the length of a period are alike. */
  lemma {:induction false} WindowsAlike(f: nat -> bool, from: nat, n: nat)
    requires n > 0 && forall t: nat :: f(t) == f(t + n)
    ensures Count(f, from, n) == Count(f, 0, n)
  {
    if from > 0 {
      WindowsAlike(f, from - 1, n);
      FirstTickOff(f, from - 1, n);
      assert f(from - 1) == f(from - 1 + n);
    }
  }

  /** A step lasts p ticks, so a window of k steps is p times as long. */
  lemma {:induction false} CountOfSteps(f: nat -> bool, g: nat -> bool, p: nat, k: nat)
    requires p > 0 && forall t: nat :: f(t) == g(t / p)
    ensures Count(f, 0, k * p) == Count(g, 0, k) * p
  {
    if k > 0 {
      CountOfSteps(f, g, p, k - 1);
      OneStep(f, g, p, k - 1, p);
      Distributes(k - 1, 1, p);
      Distributes(Count(g, 0, k - 1), Bit(g(k - 1)), p);
    }
  }

  lemma {:induction false} OneStep(f: nat -> bool, g: nat -> bool, p: nat, k: nat, n: nat)
    requires p > 0 && n <= p && forall t: nat :: f(t) == g(t / p)
    ensures Count(f, 0, k * p + n) == Count(f, 0, k * p) + Bit(g(k)) * n
  {
    if n > 0 {
      OneStep(f, g, p, k, n - 1);
      StepIs(k, p, n - 1);
    }
  }

  /** All windows of a whole cycle of m steps are alike: a condition on the position in the
      cycle holds for p ticks per position it holds in. */
  lemma CycleCount(f: nat -> bool, g: nat -> bool, p: nat, m: nat, from: nat)
    requires p > 0 && m > 0 && forall t: nat :: f(t) == g(t / p % m)
    ensures Count(f, from, m * p) == Count(g, 0, m) * p
  {
    var h := (s: nat) => g(s % m);
    forall t: nat ensures f(t) == f(t + m * p) {
      StepPeriod(t, p, m);
    }
    Monotone(1, m, p);
    WindowsAlike(f, from, m * p);
    CountOfSteps(f, h, p, m);
    forall s: nat | s < m ensures h(s) == g(s) {
      StepIs(0, m, s);
    }
    CountAgreesAt(h, g, 0, m);
  }

  lemma {:induction false} CountAgreesAt(f: nat -> bool, g: nat -> bool, from: nat, n: nat)
    requires forall t :: from <= t < from + n ==> f(t) == g(t)
    ensures Count(f, from, n) == Count(g, from, n)
  {
    if n > 0 {
      CountAgreesAt(f, g, from, n - 1);
    }
  }

  /** A condition that holds exactly from lo up to hi. */
  lemma {:induction false} CountOfRange(g: nat -> bool, lo: nat, hi: nat, n: nat)
    requires lo <= hi && forall s: nat :: s < n ==> (g(s) <==> lo <= s < hi)
    ensures Count(g, 0, n) == if n <= lo then 0 else if n <= hi then n - lo else hi - lo
  {
    if n > 0 {
      CountOfRange(g, lo, hi, n - 1);
    }
  }

  // ---- wipe and chase -------------------------------------------------------------------

  function First(c: ZoneCfg): Rgb {
    DimRgb(c.primary, c.brightness)
  }

  function Second(c: ZoneCfg): Rgb {
    DimRgb(c.secondary, c.brightness)
  }

  /** The ticks of a window in which a zone gives its pixel i a colour. */
  ghost function TicksOf(c: ZoneCfg, ch: Chance, i: nat, colour: Rgb, from: nat, n: nat): set<nat>
    requires i < c.count && from + n <= TICKS
  {
    set t: nat | from <= t < from + n && Paint(Zone(c, t), ch, i) == Some(colour)
  }

  /** A step of a wipe, the wrap of its cycle included, toggles one pixel, each in turn. */
  lemma ToggleInTurn(s: nat, count: byte, i: nat)
    requires i < count
    ensures WipeLit(count, s % (2 * count), i) != WipeLit(count, (s + 1) % (2 * count), i) <==> i == (s + 1) % count
  {
    var m := 2 * count;
    var pos, next := s % m, (s + 1) % m;
    NextStep(s, m);
    DivMod(s + 1, m);
    Doubled((s + 1) / m, m, count);
    HalfCycle(s + 1, count, (s + 1) / m, next);
    WipeLitIff(count, pos, i);
    WipeLitIff(count, next, i);
  }

  /** From one tick to the next a wipe changes nothing within a step, and at a step exactly
      one pixel. */
  lemma WipeChangesOnePixel(c: ZoneCfg, ch: Chance, t: nat, i: nat)
    requires c.effect == WIPE && i < c.count && t + 1 < TICKS && First(c) != BLACK
    ensures Paint(Zone(c, t), ch, i) != Paint(Zone(c, t + 1), ch, i) <==>
      (t + 1) % SpeedPeriod(c.speed) == 0 && i == (t + 1) / SpeedPeriod(c.speed) % c.count
  {
    var p := SpeedPeriod(c.speed);
    NextStep(t, p);
    ToggleInTurn(t / p, c.count, i);
  }

  /** The ticks of a whole cycle in which a pixel has a colour, by position. */
  lemma TicksByPosition(c: ZoneCfg, ch: Chance, i: nat, colour: Rgb, g: nat -> bool, m: nat, from: nat)
    requires i < c.count && m > 0 && from + m * SpeedPeriod(c.speed) <= TICKS
    requires forall t: nat :: t < TICKS ==>
      (Paint(Zone(c, t), ch, i) == Some(colour) <==> g(StepOf(Zone(c, t)) % m))
    ensures |TicksOf(c, ch, i, colour, from, m * SpeedPeriod(c.speed))| == Count(g, 0, m) * SpeedPeriod(c.speed)
  {
    var p := SpeedPeriod(c.speed);
    var f := (t: nat) => g(t / p % m);
    CycleCount(f, g, p, m, from);
    CountIsSize(f, from, m * p);
    assert Window(f, from, m * p) == TicksOf(c, ch, i, colour, from, m * p);
  }

  /** In any window of a whole wipe cycle each pixel is lit for half the ticks and dark for
      the others. */
  lemma WipeDutyCycle(c: ZoneCfg, ch: Chance, i: nat, from: nat)
    requires c.effect == WIPE && i < c.count && First(c) != BLACK
    requires from + 2 * c.count * SpeedPeriod(c.speed) <= TICKS
    ensures |TicksOf(c, ch, i, First(c), from, 2 * c.count * SpeedPeriod(c.speed))| == c.count * SpeedPeriod(c.speed)
    ensures |TicksOf(c, ch, i, BLACK, from, 2 * c.count * SpeedPeriod(c.speed))| == c.count * SpeedPeriod(c.speed)
  {
    var m := 2 * c.count;
    var lit := (pos: nat) => WipeLit(c.count, pos, i);
    var dark := (pos: nat) => !WipeLit(c.count, pos, i);
    forall s: nat | s < m ensures lit(s) <==> i <= s < i + c.count {
      WipeLitIff(c.count, s, i);
    }
    CountOfRange(lit, i, i + c.count, m);
    CountOfRest(lit, dark, m);
    TicksByPosition(c, ch, i, First(c), lit, m, from);
    TicksByPosition(c, ch, i, BLACK, dark, m, from);
  }

  lemma {:induction false} CountOfRest(f: nat -> bool, g: nat -> bool, n: nat)
    requires forall t: nat :: f(t) != g(t)
    ensures Count(f, 0, n) + Count(g, 0, n) == n
  {
    if n > 0 {
      CountOfRest(f, g, n - 1);
    }
  }

  /** In any window of a whole chase cycle each pixel has the primary colour for exactly one
      step, */
  lemma ChaseTakesTurns(c: ZoneCfg, ch: Chance, i: nat, from: nat)
    requires c.effect == CHASE && i < c.count && First(c) != Second(c)
    requires from + c.count * SpeedPeriod(c.speed) <= TICKS
    ensures |TicksOf(c, ch, i, First(c), from, c.count * SpeedPeriod(c.speed))| == SpeedPeriod(c.speed)
  {
    var first := (pos: nat) => i == pos;
    CountOfRange(first, i, i + 1, c.count);
    TicksByPosition(c, ch, i, First(c), first, c.count, from);
  }

  /** and when it gives the colour up, the next pixel takes it. */
  lemma ChaseMovesOn(c: ZoneCfg, ch: Chance, t: nat, i: nat)
    requires c.effect == CHASE && i < c.count && t + 1 < TICKS && First(c) != Second(c)
    requires Paint(Zone(c, t), ch, i) == Some(First(c))
    ensures var next, j := Zone(c, t + 1), if (t + 1) % SpeedPeriod(c.speed) != 0 then i else (i + 1) % c.count;
      forall k: nat | k < c.count :: Paint(next, ch, k) == Some(if k == j then First(c) else Second(c))
  {
    var p := SpeedPeriod(c.speed);
    NextStep(t, p);
    NextStep(t / p, c.count);
    StepIs(0, c.count, i);
    NextStep(i, c.count);
  }

  // ---- rainbow --------------------------------------------------------------------------

  lemma OffsetsGrow(count: byte, i: nat, j: nat)
    requires i < j < count
    ensures 0 <= i * 256 / count < j * 256 / count < 256
  {
    var a, b := i * 256 / count, j * 256 / count;
    DivMod(i * 256, count);
    DivMod(j * 256, count);
    if b <= a {
      Monotone(b, a, count);
    }
    if b >= 256 {
      Monotone(256, b, count);
    }
  }

  /** No two pixels of a rainbow have the same hue, at any tick. */
  lemma HuesDiffer(step: nat, count: byte, i: nat, j: nat)
    requires i < j < count
    ensures Hue(step, count, i) != Hue(step, count, j)
  {
    OffsetsGrow(count, i, j);
  }

  /** The strongest channel is the brightness, and a saturated colour has a dark channel. */
  lemma HsvKeepsBrightness(h: byte, s: byte, v: byte)
    ensures var c := HsvToRgb(h, s, v);
      (c.r == v || c.g == v || c.b == v) && c.r <= v && c.g <= v && c.b <= v &&
      (s == 255 ==> c.r == 0 || c.g == 0 || c.b == 0)
  {
    if s > 0 {
      var remainder := (h - h / 43 * 43) * 6 % 256;
      DimFits(v, 255 - s);
      DimFits(v, 255 - Dim(s, remainder));
      DimFits(v, 255 - Dim(s, 255 - remainder));
    }
  }

  /** At full saturation and brightness a colour tells its hue. */
  lemma HuesShow(h: byte, k: byte)
    requires HsvToRgb(h, 255, 255) == HsvToRgb(k, 255, 255)
    ensures h == k
  {
    HueColour(h, 255);
    HueColour(k, 255);
  }

  /** At full brightness no two pixels of a rainbow have the same colour. */
  lemma RainbowColoursDiffer(c: ZoneCfg, ch: Chance, t: u32, i: nat, j: nat)
    requires c.effect == RAINBOW && i < j < c.count && c.brightness == 255
    ensures Paint(Zone(c, t), ch, i) != Paint(Zone(c, t), ch, j)
  {
    var step := StepOf(Zone(c, t));
    HuesDiffer(step, c.count, i, j);
    if HsvToRgb(Hue(step, c.count, i), 255, 255) == HsvToRgb(Hue(step, c.count, j), 255, 255) {
      HuesShow(Hue(step, c.count, i), Hue(step, c.count, j));
    }
  }

  /** Below it they can coincide: at brightness zero the whole rainbow is dark. */
  lemma DarkRainbow(c: ZoneCfg, ch: Chance, t: u32, i: nat)
    requires c.effect == RAINBOW && i < c.count && c.brightness == 0
    ensures Paint(Zone(c, t), ch, i) == Some(BLACK)
  {
    HsvKeepsBrightness(Hue(StepOf(Zone(c, t)), c.count, i), 255, 0);
  }
}
