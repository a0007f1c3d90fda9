/** Which colours the effects give their pixels, channel by channel. */
module LedColours {
  import opened Protocol
  import opened Neopixel
  import opened LedEffects

  /** The channels of a colour at a level out of 255. */
  lemma ChannelsScale(c: Rgb, level: byte)
    ensures var d := DimRgb(c, level);
      d.r == c.r * level / 255 && d.g == c.g * level / 255 && d.b == c.b * level / 255
    ensures level == 255 ==> DimRgb(c, level) == c
  {
  }

  lemma SolidColour(z: Zone, ch: Chance, i: nat)
    requires z.cfg.effect == 0 && i < z.cfg.count
    ensures Paint(z, ch, i).Some?
    ensures var c, want, level := Paint(z, ch, i).value, z.cfg.primary, z.cfg.brightness;
      c.r == want.r * level / 255 && c.g == want.g * level / 255 && c.b == want.b * level / 255
    ensures z.cfg.brightness == 255 ==> Paint(z, ch, i) == Some(z.cfg.primary)
  {
    ChannelsScale(z.cfg.primary, z.cfg.brightness);
  }

  /** On in even steps, dark in odd ones. */
  lemma BlinkColour(z: Zone, ch: Chance, i: nat)
    requires z.cfg.effect == 1 && i < z.cfg.count
    ensures Paint(z, ch, i).Some?
    ensures var c, want, level := Paint(z, ch, i).value, z.cfg.primary, z.cfg.brightness;
      if z.tick / SpeedPeriod(z.cfg.speed) % 2 == 0
      then c.r == want.r * level / 255 && c.g == want.g * level / 255 && c.b == want.b * level / 255
      else c == Rgb(0, 0, 0)
  {
    ChannelsScale(z.cfg.primary, z.cfg.brightness);
  }

  lemma BreatheColour(z: Zone, ch: Chance, i: nat)
    requires z.cfg.effect == 2 && i < z.cfg.count
    ensures Paint(z, ch, i).Some?
    ensures var c, want := Paint(z, ch, i).value, z.cfg.primary;
      c.r == want.r * ch.level / 255 && c.g == want.g * ch.level / 255 && c.b == want.b * ch.level / 255
  {
    ChannelsScale(z.cfg.primary, ch.level);
  }

  /** The colour a hue has at full saturation: one channel at the brightness, one dark, and one
      that rises or falls with the hue, scaled to the brightness. */
  lemma HueColour(h: byte, v: byte)
    ensures var c, up := HsvToRgb(h, 255, v), 6 * (h % 43);
      0 <= up <= 252 &&
      (h < 43 ==> c.r == v && c.g == v * up / 255 && c.b == 0) &&
      (43 <= h < 86 ==> c.r == v * (255 - up) / 255 && c.g == v && c.b == 0) &&
      (86 <= h < 129 ==> c.r == 0 && c.g == v && c.b == v * up / 255) &&
      (129 <= h < 172 ==> c.r == 0 && c.g == v * (255 - up) / 255 && c.b == v) &&
      (172 <= h < 215 ==> c.r == v * up / 255 && c.g == 0 && c.b == v) &&
      (215 <= h ==> c.r == v && c.g == 0 && c.b == v * (255 - up) / 255)
  {
    var up: byte := 6 * (h % 43);
    assert h - h / 43 * 43 == h % 43;
    assert Dim(255, up) == up && Dim(255, 255 - up) == 255 - up && Dim(v, 0) == 0;
    HueScales(h, v, up);
  }

  lemma HueScales(h: byte, v: byte, up: byte)
    requires up == (h - h / 43 * 43) * 6 % 256
    requires Dim(255, up) == up && Dim(255, 255 - up) == 255 - up && Dim(v, 0) == 0
    ensures HsvToRgb(h, 255, v) ==
      match h / 43
      case 0 => Rgb(v, Dim(v, up), 0)
      case 1 => Rgb(Dim(v, 255 - up), v, 0)
      case 2 => Rgb(0, v, Dim(v, up))
      case 3 => Rgb(0, Dim(v, 255 - up), v)
      case 4 => Rgb(Dim(v, up), 0, v)
      case _ => Rgb(v, 0, Dim(v, 255 - up))
  {
  }

  /** Without saturation all channels are at the brightness. */
  lemma GreyColour(h: byte, v: byte)
    ensures HsvToRgb(h, 0, v) == Rgb(v, v, v)
  {
  }

  lemma QuotientFits(x: nat, c: nat)
    requires c > 0
    ensures x / c * c <= x < x / c * c + c
  {
  }

  lemma OneMoreTimes(q: nat, c: nat)
    ensures (q + 1) * c == q * c + c
  {
  }

  lemma HueOf(step: nat, count: byte, i: nat, spread: nat)
    requires i < count && spread == i * 256 / count
    ensures Hue(step, count, i) == (step + spread) % 256
  {
    SumOfRest(step, spread);
  }

  lemma SumOfRest(a: nat, b: nat)
    ensures (a % 256 + b) % 256 == (a + b) % 256
  {
  }

  /** A rainbow's hues are spread evenly over the circle of 256, and turn by one each step. */
  lemma RainbowColour(z: Zone, ch: Chance, i: nat) returns (spread: nat, hue: byte)
    requires z.cfg.effect == 3 && i < z.cfg.count
    ensures spread * z.cfg.count <= 256 * i < (spread + 1) * z.cfg.count
    ensures hue == (z.tick / SpeedPeriod(z.cfg.speed) + spread) % 256
    ensures Paint(z, ch, i) == Some(HsvToRgb(hue, 255, z.cfg.brightness))
  {
    var step := z.tick / SpeedPeriod(z.cfg.speed);
    spread, hue := SpreadHue(step, z.cfg.count, i);
    HuePaints(z, ch, i, step, hue);
  }

  lemma SpreadHue(step: nat, count: byte, i: nat) returns (spread: nat, hue: byte)
    requires i < count
    ensures spread * count <= 256 * i < (spread + 1) * count
    ensures hue == (step + spread) % 256 && hue == Hue(step, count, i)
  {
    spread := i * 256 / count;
    QuotientFits(i * 256, count);
    OneMoreTimes(spread, count);
    HueOf(step, count, i, spread);
    hue := Hue(step, count, i);
  }

  lemma HuePaints(z: Zone, ch: Chance, i: nat, step: nat, hue: byte)
    requires z.cfg.effect == 3 && i < z.cfg.count && step == StepOf(z) && hue == Hue(step, z.cfg.count, i)
    ensures Paint(z, ch, i) == Some(HsvToRgb(hue, 255, z.cfg.brightness))
  {
  }

  /** One pixel has the primary colour and moves on by one each step, the others the secondary. */
  lemma ChaseColour(z: Zone, ch: Chance, i: nat)
    requires z.cfg.effect == 4 && i < z.cfg.count
    ensures Paint(z, ch, i).Some?
    ensures var c, level := Paint(z, ch, i).value, z.cfg.brightness;
      var want := if i == z.tick / SpeedPeriod(z.cfg.speed) % z.cfg.count then z.cfg.primary else z.cfg.secondary;
      c.r == want.r * level / 255 && c.g == want.g * level / 255 && c.b == want.b * level / 255
  {
    ChannelsScale(z.cfg.primary, z.cfg.brightness);
    ChannelsScale(z.cfg.secondary, z.cfg.brightness);
  }

  /** A pixel is lit from its own position in the cycle on, for as many as the zone has pixels. */
  lemma WipeColour(z: Zone, ch: Chance, i: nat)
    requires z.cfg.effect == 5 && i < z.cfg.count
    ensures Paint(z, ch, i).Some?
    ensures var c, want, level := Paint(z, ch, i).value, z.cfg.primary, z.cfg.brightness;
      var pos := z.tick / SpeedPeriod(z.cfg.speed) % (2 * z.cfg.count);
      if i <= pos < i + z.cfg.count
      then c.r == want.r * level / 255 && c.g == want.g * level / 255 && c.b == want.b * level / 255
      else c == Rgb(0, 0, 0)
  {
    ChannelsScale(z.cfg.primary, z.cfg.brightness);
    WipeLitIff(z.cfg.count, StepOf(z) % (2 * z.cfg.count), i);
  }

  /** A pixel of a wipe is lit in one unbroken stretch of as many positions as the zone has
      pixels, beginning with its own. */
  lemma WipeLitIff(count: byte, pos: nat, i: nat)
    requires i < count && pos < 2 * count
    ensures WipeLit(count, pos, i) <==> i <= pos < i + count
  {
  }

  /** At the beginning of a step one pixel takes a colour by the coin; no other pixel, and none
      within a step, is touched. */
  lemma TwinkleColour(z: Zone, ch: Chance, i: nat)
    requires z.cfg.effect == 6 && i < z.cfg.count
    ensures Paint(z, ch, i).Some? <==> z.tick % SpeedPeriod(z.cfg.speed) == 0 && i == ch.pick % z.cfg.count
    ensures Paint(z, ch, i).Some? ==>
      var c, level := Paint(z, ch, i).value, z.cfg.brightness;
      var want := if ch.coin then z.cfg.primary else z.cfg.secondary;
      c.r == want.r * level / 255 && c.g == want.g * level / 255 && c.b == want.b * level / 255
  {
    ChannelsScale(z.cfg.primary, z.cfg.brightness);
    ChannelsScale(z.cfg.secondary, z.cfg.brightness);
  }

  lemma UnknownEffect(z: Zone, ch: Chance, i: nat)
    requires z.cfg.effect > 6 && i < z.cfg.count
    ensures Paint(z, ch, i) == None
  {
  }

  // ---- a zone by itself -----------------------------------------------------------------

  /** Zone k is the only active one, and solid at full brightness. */
  predicate LoneSolid(zones: seq<Zone>, k: nat) {
    k < |zones| && zones[k].cfg.active && zones[k].cfg.effect == 0 && zones[k].cfg.brightness == 255 &&
    forall j :: 0 <= j < |zones| && j != k ==> !zones[j].cfg.active
  }

  lemma {:induction false} LonePaint(zones: seq<Zone>, chances: seq<Chance>, n: nat, k: nat, s: int, i: int)
    requires n <= |zones| == |chances| && LoneSolid(zones, k)
    ensures TopPaint(zones, chances, n, s, i) == if k < n then PaintAt(zones[k], chances[k], s, i) else None
  {
    if n > 0 {
      LonePaint(zones, chances, n - 1, k, s, i);
      if n - 1 == k && s == zones[k].cfg.stripIdx && 0 <= i - zones[k].cfg.start < zones[k].cfg.count {
        SolidColour(zones[k], chances[k], i - zones[k].cfg.start);
      }
    }
  }

  /** Then its pixels, and no others, take exactly the colour it was asked for. */
  lemma LoneSolidFrame(before: seq<seq<Rgb>>, after: seq<seq<Rgb>>, zones: seq<Zone>, chances: seq<Chance>, k: nat)
    requires |zones| == |chances| && LoneSolid(zones, k) && Framed(before, after, zones, chances, |zones|)
    ensures var c := zones[k].cfg; Filled(before, after, c.stripIdx, c.start, c.start + c.count, c.primary)
  {
    var c := zones[k].cfg;
    forall s, i | OnStrip(before, s, i)
      ensures after[s][i] == if s == c.stripIdx && c.start <= i < c.start + c.count then c.primary else before[s][i]
    {
      LonePaint(zones, chances, |zones|, k, s, i);
      if s == c.stripIdx && c.start <= i < c.start + c.count {
        SolidColour(zones[k], chances[k], i - c.start);
      }
    }
  }
}
