/** The effects task and the zone setters, on the strips they share. */
module LedEngine {
  import opened Protocol
  import opened Neopixel
  import opened LedEffects
  import opened LedColours

  class Engine {
    const zones: array<Zone>
    const strips: Strips

    ghost predicate Valid()
      reads this, strips
    {
      zones.Length == LED_MAX_ZONES && strips.Valid()
    }

    constructor (strips: Strips)
      requires strips.Valid()
      ensures Valid() && this.strips == strips && fresh(zones)
      ensures zones[..] == seq(LED_MAX_ZONES, _ => EMPTY)
    {
      this.strips := strips;
      zones := new Zone[LED_MAX_ZONES](_ => EMPTY);
    }

    /** `render_zone`: only pixels are written, nothing is sent. */
    method RenderZone(k: nat, ch: Chance)
      requires Valid() && k < LED_MAX_ZONES && Renderable(zones[k].cfg)
      modifies zones, strips`pending
      ensures Valid() && Painted(old(strips.pending), strips.pending, old(zones[k]), ch, old(zones[k]).cfg.count)
      ensures zones[..] == old(zones[..])[k := Ticked(old(zones[k]))]
      ensures forall s :: 0 <= s < |strips.pending| && s != old(zones[k]).cfg.stripIdx ==>
        strips.pending[s] == old(strips.pending)[s]
    {
      var z := zones[k];
      var c := z.cfg;
      if c.effect == TWINKLE {
        if z.tick % SpeedPeriod(c.speed) == 0 {
          var idx := ch.pick % c.count;
          var colour := if ch.coin then c.primary else c.secondary;
          var _ := strips.SetPixel(c.stripIdx, c.start + idx, DimRgb(colour, c.brightness));
        }
      } else if SOLID <= c.effect < TWINKLE {
        PaintPixels(z, ch);
      }
      if BLINK <= c.effect <= TWINKLE {
        zones[k] := z.(tick := (z.tick + 1) % 0x1_0000_0000);
      }
    }

    /** The pixel loops of the effects that paint their whole zone. */
    method PaintPixels(z: Zone, ch: Chance)
      requires Valid() && Renderable(z.cfg) && SOLID <= z.cfg.effect < TWINKLE
      modifies strips`pending
      ensures Valid() && Painted(old(strips.pending), strips.pending, z, ch, z.cfg.count)
      ensures forall s :: 0 <= s < |strips.pending| && s != z.cfg.stripIdx ==>
        strips.pending[s] == old(strips.pending)[s]
    {
      var c := z.cfg;
      for i := 0 to c.count
        invariant Valid() && Painted(old(strips.pending), strips.pending, z, ch, i)
        invariant forall s :: 0 <= s < |strips.pending| && s != c.stripIdx ==>
          strips.pending[s] == old(strips.pending)[s]
      {
        var colour := PixelColour(z, ch, i);
        var _ := strips.SetPixel(c.stripIdx, c.start + i, colour);
      }
    }

    /** The colour each effect's loop body picks. */
    method PixelColour(z: Zone, ch: Chance, i: nat) returns (colour: Rgb)
      requires Renderable(z.cfg) && SOLID <= z.cfg.effect < TWINKLE && i < z.cfg.count
      ensures Some(colour) == Paint(z, ch, i)
    {
      var c := z.cfg;
      var period := SpeedPeriod(c.speed);
      var first := DimRgb(c.primary, c.brightness);
      if c.effect == SOLID {
        colour := first;
      } else if c.effect == BLINK {
        colour := if z.tick / period % 2 == 0 then first else BLACK;
      } else if c.effect == BREATHE {
        colour := DimRgb(c.primary, ch.level);
      } else if c.effect == RAINBOW {
        var hueBase := z.tick / period % 256;
        colour := HsvToRgb((hueBase + i * 256 / c.count) % 256, 255, c.brightness);
      } else if c.effect == CHASE {
        var pos := z.tick / period % c.count;
        colour := if i == pos then first else DimRgb(c.secondary, c.brightness);
      } else {
        var cycleLen := 2 * c.count;
        var pos := z.tick / period % cycleLen;
        var lit := if pos < c.count then i <= pos else i > pos - c.count;
        colour := if lit then first else BLACK;
      }
    }

    /** The zones are rendered in order; a strip is dirty when an active zone names it. */
    method RenderAll(chances: seq<Chance>) returns (dirty: seq<bool>)
      requires Valid() && |chances| == LED_MAX_ZONES
      requires forall k :: 0 <= k < LED_MAX_ZONES ==> zones[k].cfg.active ==> Renderable(zones[k].cfg)
      modifies zones, strips`pending
      ensures Valid() && |dirty| == MAX_STRIPS
      ensures Framed(old(strips.pending), strips.pending, old(zones[..]), chances, LED_MAX_ZONES)
      ensures forall k :: 0 <= k < LED_MAX_ZONES ==>
        zones[k] == if old(zones[k]).cfg.active then Ticked(old(zones[k])) else old(zones[k])
      ensures forall s :: 0 <= s < |strips.pending| && !dirty[s] ==> strips.pending[s] == old(strips.pending)[s]
    {
      dirty := seq(MAX_STRIPS, _ => false);
      for i := 0 to LED_MAX_ZONES
        invariant Valid() && |dirty| == MAX_STRIPS
        invariant Framed(old(strips.pending), strips.pending, old(zones[..]), chances, i)
        invariant forall k :: 0 <= k < i ==>
          zones[k] == if old(zones[k]).cfg.active then Ticked(old(zones[k])) else old(zones[k])
        invariant forall k :: i <= k < LED_MAX_ZONES ==> zones[k] == old(zones[k])
        invariant forall s :: 0 <= s < |strips.pending| && !dirty[s] ==> strips.pending[s] == old(strips.pending)[s]
      {
        ghost var mid := strips.pending;
        if zones[i].cfg.active {
          var strip := zones[i].cfg.stripIdx;
          RenderZone(i, chances[i]);
          if strip < MAX_STRIPS {
            dirty := dirty[strip := true];
          }
        }
        OneZoneMore(old(strips.pending), mid, strips.pending, old(zones[..]), chances, i);
      }
    }

    method FlushDirty(dirty: seq<bool>)
      requires Valid() && |dirty| == MAX_STRIPS
      modifies strips`shown
      ensures Valid()
      ensures forall s :: 0 <= s < |strips.shown| ==>
        strips.shown[s] == if dirty[s] then strips.pending[s] else old(strips.shown)[s]
    {
      for s := 0 to MAX_STRIPS
        invariant Valid()
        invariant forall t :: 0 <= t < |strips.shown| ==>
          strips.shown[t] == if t < s && dirty[t] then strips.pending[t] else old(strips.shown)[t]
      {
        if dirty[s] {
          var _ := strips.Flush(s);
        }
      }
    }

    /** One round of `effects_task`: the frame is the zones' declarative frame, every zone
        that animates moves on by one tick, and if nothing was waiting to be sent before,
        nothing is afterwards. */
    method Tick(chances: seq<Chance>)
      requires Valid() && |chances| == LED_MAX_ZONES
      requires forall k :: 0 <= k < LED_MAX_ZONES ==> zones[k].cfg.active ==> Renderable(zones[k].cfg)
      modifies zones, strips
      ensures Valid()
      ensures Framed(old(strips.pending), strips.pending, old(zones[..]), chances, LED_MAX_ZONES)
      ensures forall k :: 0 <= k < LED_MAX_ZONES ==>
        zones[k] == if old(zones[k]).cfg.active then Ticked(old(zones[k])) else old(zones[k])
      ensures forall k :: 0 <= k < LED_MAX_ZONES ==>
        var was := old(zones[k]);
        zones[k].cfg == was.cfg &&
        zones[k].tick == if was.cfg.active && 1 <= was.cfg.effect <= 6 then (was.tick + 1) % 0x1_0000_0000 else was.tick
      ensures forall k: nat :: LoneSolid(old(zones[..]), k) ==>
        var c := old(zones[..])[k].cfg;
        Filled(old(strips.pending), strips.pending, c.stripIdx, c.start, c.start + c.count, c.primary)
      ensures old(strips.InSync()) ==> strips.InSync()
    {
      var dirty := RenderAll(chances);
      FlushDirty(dirty);
      forall k: nat | LoneSolid(old(zones[..]), k)
        ensures var c := old(zones[..])[k].cfg;
          Filled(old(strips.pending), strips.pending, c.stripIdx, c.start, c.start + c.count, c.primary)
      {
        LoneSolidFrame(old(strips.pending), strips.pending, old(zones[..]), chances, k);
      }
    }

    /** `led_effects_set_zone`: the zone is active from its first tick on. */
    method SetZone(id: byte, cfg: ZoneCfg) returns (ok: bool)
      requires Valid()
      modifies zones
      ensures Valid() && ok == (id < LED_MAX_ZONES)
      ensures zones[..] == if ok then old(zones[..])[id := Zone(cfg.(active := true), 0)] else old(zones[..])
    {
      if id >= LED_MAX_ZONES {
        return false;
      }
      zones[id] := Zone(cfg.(active := true), 0);
      return true;
    }

    /** `led_effects_clear_zone`: an active zone's pixels go dark at once, then it is gone. */
    method ClearZone(id: byte) returns (ok: bool)
      requires Valid()
      modifies zones, strips
      ensures Valid() && ok == (id < LED_MAX_ZONES)
      ensures zones[..] == if ok then old(zones[..])[id := EMPTY] else old(zones[..])
      ensures ok && old(zones[id]).cfg.active ==>
        var c := old(zones[id]).cfg;
        Filled(old(strips.pending), strips.pending, c.stripIdx, c.start, c.start + c.count, BLACK)
      ensures !ok || !old(zones[id]).cfg.active ==> strips.pending == old(strips.pending)
      ensures old(strips.InSync()) ==> strips.InSync()
    {
      if id >= LED_MAX_ZONES {
        return false;
      }
      var c := zones[id].cfg;
      if c.active {
        for i := 0 to c.count
          invariant Valid() && strips.shown == old(strips.shown)
          invariant Filled(old(strips.pending), strips.pending, c.stripIdx, c.start, c.start + i, BLACK)
          invariant forall s :: 0 <= s < |strips.pending| && s != c.stripIdx ==>
            strips.pending[s] == old(strips.pending)[s]
          invariant zones[..] == old(zones[..])
        {
          var _ := strips.SetPixel(c.stripIdx, c.start + i, BLACK);
        }
        var _ := strips.Flush(c.stripIdx);
      }
      zones[id] := EMPTY;
      return true;
    }
  }
}
