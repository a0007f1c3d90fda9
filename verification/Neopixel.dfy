/** The LED strips: pixels written but not yet sent, and pixels the strip shows. */
module Neopixel {
  import opened Protocol

  const MAX_STRIPS := 4

  datatype Rgb = Rgb(r: byte, g: byte, b: byte)

  const BLACK := Rgb(0, 0, 0)

  /** Pixel i of strip s exists. */
  predicate OnStrip(strips: seq<seq<Rgb>>, s: int, i: int) {
    0 <= s < |strips| && 0 <= i < |strips[s]|
  }

  predicate SameShape(a: seq<seq<Rgb>>, b: seq<seq<Rgb>>) {
    |a| == |b| && forall s :: 0 <= s < |a| ==> |a[s]| == |b[s]|
  }

  function WithPixel(strips: seq<seq<Rgb>>, s: int, i: int, c: Rgb): seq<seq<Rgb>> {
    if OnStrip(strips, s, i) then strips[s := strips[s][i := c]] else strips
  }

  /** The pixels of strip s in [lo, hi) take colour c and nothing else changes. */
  ghost predicate Filled(before: seq<seq<Rgb>>, after: seq<seq<Rgb>>, s: int, lo: int, hi: int, c: Rgb) {
    SameShape(before, after) &&
    forall t, i :: OnStrip(before, t, i) ==>
      after[t][i] == if t == s && lo <= i < hi then c else before[t][i]
  }

  class Strips {
    var pending: seq<seq<Rgb>>
    var shown: seq<seq<Rgb>>

    ghost predicate Valid()
      reads this
    {
      |pending| <= MAX_STRIPS && SameShape(pending, shown)
    }

    /** Nothing written is waiting to be sent. */
    ghost predicate InSync()
      reads this
    {
      shown == pending
    }

    /** `neopixel_init` for each configured strip clears it. */
    constructor (lengths: seq<nat>)
      requires |lengths| <= MAX_STRIPS
      ensures Valid() && InSync() && |pending| == |lengths|
      ensures forall s :: 0 <= s < |lengths| ==> |pending[s]| == lengths[s]
      ensures forall s, i :: OnStrip(pending, s, i) ==> pending[s][i] == BLACK
    {
      pending := seq(|lengths|, s requires 0 <= s < |lengths| => seq(lengths[s], _ => BLACK));
      shown := seq(|lengths|, s requires 0 <= s < |lengths| => seq(lengths[s], _ => BLACK));
    }

    /** `neopixel_set_pixel`: no transmission. */
    method SetPixel(s: int, i: nat, c: Rgb) returns (ok: bool)
      requires Valid()
      modifies this`pending
      ensures Valid() && ok == OnStrip(old(pending), s, i)
      ensures pending == WithPixel(old(pending), s, i, c)
    {
      if s < 0 || s >= |pending| {
        return false;
      }
      if i >= |pending[s]| {
        return false;
      }
      pending := pending[s := pending[s][i := c]];
      return true;
    }

    /** `neopixel_flush`: the strip shows what was written. */
    method Flush(s: int) returns (ok: bool)
      requires Valid()
      modifies this`shown
      ensures Valid() && ok == (0 <= s < |pending|)
      ensures shown == if ok then old(shown)[s := pending[s]] else old(shown)
    {
      if s < 0 || s >= |pending| {
        return false;
      }
      shown := shown[s := pending[s]];
      return true;
    }

    /** `neopixel_set`. */
    method Set(s: int, i: nat, c: Rgb) returns (ok: bool)
      requires Valid()
      modifies this
      ensures Valid() && ok == OnStrip(old(pending), s, i)
      ensures pending == WithPixel(old(pending), s, i, c)
      ensures old(InSync()) ==> InSync()
    {
      ok := SetPixel(s, i, c);
      if ok {
        ok := Flush(s);
      }
    }

    /** `neopixel_set_all`. */
    method SetAll(s: int, c: Rgb) returns (ok: bool)
      requires Valid()
      modifies this
      ensures Valid() && ok == (0 <= s < |old(pending)|)
      ensures Filled(old(pending), pending, s, 0, if ok then |old(pending)[s]| else 0, c)
      ensures old(InSync()) ==> InSync()
    {
      if s < 0 || s >= |pending| {
        return false;
      }
      FillRange(s, 0, |pending[s]|, c);
      ok := Flush(s);
    }

    /** `neopixel_set_range`: the range is cut at the end of the strip; one that starts beyond
        it is refused. */
    method SetRange(s: int, start: byte, count: byte, c: Rgb) returns (ok: bool)
      requires Valid()
      modifies this
      ensures Valid() && ok == OnStrip(old(pending), s, start)
      ensures Filled(old(pending), pending, s, start, start + count, c)
      ensures old(InSync()) ==> InSync()
    {
      if s < 0 || s >= |pending| {
        return false;
      }
      if start >= |pending[s]| {
        return false;
      }
      var end := if start + count > |pending[s]| then |pending[s]| else start + count;
      FillRange(s, start, end, c);
      ok := Flush(s);
    }

    method FillRange(s: nat, lo: nat, hi: nat, c: Rgb)
      requires Valid() && s < |pending| && lo <= hi <= |pending[s]|
      modifies this`pending
      ensures Valid() && Filled(old(pending), pending, s, lo, hi, c)
      ensures forall t :: 0 <= t < |pending| && t != s ==> pending[t] == old(pending)[t]
    {
      for i := lo to hi
        invariant Valid() && Filled(old(pending), pending, s, lo, i, c)
        invariant forall t :: 0 <= t < |pending| && t != s ==> pending[t] == old(pending)[t]
      {
        var _ := SetPixel(s, i, c);
      }
    }
  }
}
