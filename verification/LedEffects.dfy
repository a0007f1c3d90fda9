/** The LED effects engine: a table of zones painted over each other into the strips. */
module LedEffects {
  import opened Protocol
  import opened Neopixel

  const LED_MAX_ZONES := 8

  const SOLID: byte := 0
  const BLINK: byte := 1
  const BREATHE: byte := 2
  const RAINBOW: byte := 3
  const CHASE: byte := 4
  const WIPE: byte := 5
  const TWINKLE: byte := 6

  datatype ZoneCfg = ZoneCfg(
    active: bool, stripIdx: byte, start: byte, count: byte, effect: byte,
    primary: Rgb, secondary: Rgb, brightness: byte, speed: byte
  )

  datatype Zone = Zone(cfg: ZoneCfg, tick: u32)

  const EMPTY := Zone(ZoneCfg(false, 0, 0, 0, 0, BLACK, BLACK, 0, 0), 0)

  /** What the sine and the random generator contribute to one rendering of a zone: a level
      up to the zone's brightness, a pixel and a coin. */
  datatype Chance = Chance(level: byte, pick: nat, coin: bool)

  // ---- helpers ------------------------------------------------------------------------

  function Dim(v: byte, bri: byte): byte {
    DimFits(v, bri);
    v as int * bri as int / 255
  }

  lemma DimFits(v: byte, bri: byte)
    ensures 0 <= v as int * bri as int / 255 <= v
    ensures v as int * bri as int / 255 <= bri
  {
    assert v as int * bri as int <= v as int * 255;
    assert v as int * bri as int <= bri as int * 255;
  }

  function DimRgb(c: Rgb, bri: byte): Rgb {
    Rgb(Dim(c.r, bri), Dim(c.g, bri), Dim(c.b, bri))
  }

  /** Ticks per animation step: 1 at speed 255, 50 at speed 0. */
  function SpeedPeriod(speed: byte): (p: nat)
    ensures 1 <= p <= 50 && (p - 1) * 255 <= (255 - speed) * 49 < p * 255
  {
    1 + (255 - speed) * 49 / 255
  }

  function HsvToRgb(h: byte, s: byte, v: byte): Rgb {
    if s == 0 then Rgb(v, v, v)
    else
      var region := h / 43;
      var remainder: byte := (h - region * 43) * 6 % 256;
      var p := Dim(v, 255 - s);
      var q := Dim(v, 255 - Dim(s, remainder));
      var t := Dim(v, 255 - Dim(s, 255 - remainder));
      if region == 0 then Rgb(v, t, p)
      else if region == 1 then Rgb(q, v, p)
      else if region == 2 then Rgb(p, v, t)
      else if region == 3 then Rgb(p, q, v)
      else if region == 4 then Rgb(t, p, v)
      else Rgb(v, p, q)
  }

  /** The animation step a zone is in. */
  function StepOf(z: Zone): nat {
    z.tick / SpeedPeriod(z.cfg.speed)
  }

  /** The hue of pixel i of a rainbow. */
  function Hue(step: nat, count: byte, i: nat): byte
    requires i < count
  {
    (step % 256 + i * 256 / count) % 256
  }

  /** Whether pixel i of a wipe is lit at a position of its cycle. */
  predicate WipeLit(count: byte, pos: nat, i: nat) {
    if pos < count then i <= pos else i > pos - count
  }

  // ---- one zone -----------------------------------------------------------------------

  /** The effects whose arithmetic divides by the zone's length. */
  predicate Divides(effect: byte) {
    effect == CHASE || effect == WIPE || effect == TWINKLE
  }

  /** The firmware divides by the count of such a zone, so it must not be zero. */
  predicate Renderable(c: ZoneCfg) {
    Divides(c.effect) ==> c.count >= 1
  }

  /** The colour a zone gives its pixel i, if it paints it. */
  function Paint(z: Zone, ch: Chance, i: nat): Option<Rgb>
    requires i < z.cfg.count
  {
    var c := z.cfg;
    var first, second := DimRgb(c.primary, c.brightness), DimRgb(c.secondary, c.brightness);
    if c.effect == SOLID then Some(first)
    else if c.effect == BLINK then Some(if StepOf(z) % 2 == 0 then first else BLACK)
    else if c.effect == BREATHE then Some(DimRgb(c.primary, ch.level))
    else if c.effect == RAINBOW then Some(HsvToRgb(Hue(StepOf(z), c.count, i), 255, c.brightness))
    else if c.effect == CHASE then Some(if i == StepOf(z) % c.count then first else second)
    else if c.effect == WIPE then Some(if WipeLit(c.count, StepOf(z) % (2 * c.count), i) then first else BLACK)
    else if c.effect == TWINKLE && z.tick % SpeedPeriod(c.speed) == 0 && i == ch.pick % c.count then
      Some(if ch.coin then first else second)
    else None
  }

  function Ticked(z: Zone): Zone {
    if BLINK <= z.cfg.effect <= TWINKLE then z.(tick := (z.tick + 1) % 0x1_0000_0000) else z
  }

  /** The colour a zone gives pixel i of strip s, if it covers and paints it. */
  function PaintAt(z: Zone, ch: Chance, s: int, i: int): Option<Rgb> {
    if s == z.cfg.stripIdx && z.cfg.start <= i < z.cfg.start + z.cfg.count
    then Paint(z, ch, i - z.cfg.start)
    else None
  }

  function Over(top: Option<Rgb>, below: Rgb): Rgb {
    match top case Some(c) => c case None => below
  }

  /** The strips after a zone was painted over them, as far as its first n pixels. */
  ghost predicate Painted(before: seq<seq<Rgb>>, after: seq<seq<Rgb>>, z: Zone, ch: Chance, n: int) {
    SameShape(before, after) &&
    forall s, i :: OnStrip(before, s, i) ==>
      after[s][i] == Over(if i < z.cfg.start + n then PaintAt(z, ch, s, i) else None, before[s][i])
  }

  // ---- the frame ----------------------------------------------------------------------

  /** Zone k is active and gives pixel i of strip s colour c. */
  predicate Paints(zones: seq<Zone>, chances: seq<Chance>, k: nat, s: int, i: int, c: Rgb)
    requires k < |zones| == |chances|
  {
    zones[k].cfg.active && PaintAt(zones[k], chances[k], s, i) == Some(c)
  }

  /** The colour of the highest-numbered of the first n zones that paints the pixel. */
  function TopPaint(zones: seq<Zone>, chances: seq<Chance>, n: nat, s: int, i: int): Option<Rgb>
    requires n <= |zones| == |chances|
  {
    if n == 0 then None
    else if zones[n - 1].cfg.active && PaintAt(zones[n - 1], chances[n - 1], s, i).Some?
    then PaintAt(zones[n - 1], chances[n - 1], s, i)
    else TopPaint(zones, chances, n - 1, s, i)
  }

  /** The top colour is the one of the zone no higher zone paints over. */
  lemma {:induction false} TopPaintIsHighest(zones: seq<Zone>, chances: seq<Chance>, n: nat, s: int, i: int, c: Rgb)
    requires n <= |zones| == |chances|
    ensures TopPaint(zones, chances, n, s, i) == Some(c) <==>
      exists k: nat :: k < n && Paints(zones, chances, k, s, i, c) &&
        forall j, d :: k < j < n ==> !Paints(zones, chances, j, s, i, d)
  {
    if n > 0 {
      TopPaintIsHighest(zones, chances, n - 1, s, i, c);
      var top := PaintAt(zones[n - 1], chances[n - 1], s, i);
      if zones[n - 1].cfg.active && top.Some? {
        assert Paints(zones, chances, n - 1, s, i, top.value);
      } else if TopPaint(zones, chances, n, s, i) == Some(c) {
        var k: nat :| k < n - 1 && Paints(zones, chances, k, s, i, c) &&
          forall j, d :: k < j < n - 1 ==> !Paints(zones, chances, j, s, i, d);
      }
    }
  }

  /** The strips after the first n zones were painted in order. */
  ghost predicate Framed(before: seq<seq<Rgb>>, after: seq<seq<Rgb>>, zones: seq<Zone>, chances: seq<Chance>, n: nat)
    requires n <= |zones| == |chances|
  {
    SameShape(before, after) &&
    forall s, i :: OnStrip(before, s, i) ==> after[s][i] == Over(TopPaint(zones, chances, n, s, i), before[s][i])
  }

  lemma OneZoneMore(before: seq<seq<Rgb>>, mid: seq<seq<Rgb>>, after: seq<seq<Rgb>>,
                    zones: seq<Zone>, chances: seq<Chance>, n: nat)
    requires n < |zones| == |chances| && Framed(before, mid, zones, chances, n)
    requires if zones[n].cfg.active then Painted(mid, after, zones[n], chances[n], zones[n].cfg.count) else mid == after
    ensures Framed(before, after, zones, chances, n + 1)
  {
    forall s, i | OnStrip(before, s, i)
      ensures after[s][i] == Over(TopPaint(zones, chances, n + 1, s, i), before[s][i])
    {
      assert OnStrip(mid, s, i);
    }
  }
}
