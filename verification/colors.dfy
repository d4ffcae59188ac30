/**
 * Conversion of a shaded colour to 8-bit channels: each channel is clamped to
 * [0, 1], scaled by 255 and truncated (`as u8`). The older snapshot clamps
 * channel by channel (src/main.rs), the current one clamps the vector
 * (src/rt/mod.rs); both are modelled and shown to agree.
 */
module Colors {
  import opened Vectors

  newtype byte = b: int | 0 <= b < 256

  datatype Color = Color(r: byte, g: byte, b: byte)

  /** `x.min(1.0).max(0.0) * 255.0 as u8`. */
  function Channel(x: real): (c: byte)
    ensures x >= 1.0 ==> c == 255
    ensures x <= 0.0 ==> c == 0
    ensures c as real <= MaxR(MinR(x, 1.0), 0.0) * 255.0 < c as real + 1.0
  {
    Truncate(MaxR(MinR(x, 1.0), 0.0) * 255.0)
  }

  /** The `as u8` cast of a value already within [0, 255]. */
  function Truncate(v: real): (c: byte)
    requires 0.0 <= v <= 255.0
    ensures c as real <= v < c as real + 1.0
  {
    v.Floor as byte
  }

  /** Each channel converts independently (src/main.rs). */
  function ToColor(v: Vec3): (c: Color)
    ensures c.r as real <= MaxR(MinR(v.x, 1.0), 0.0) * 255.0 < c.r as real + 1.0
    ensures c.g as real <= MaxR(MinR(v.y, 1.0), 0.0) * 255.0 < c.g as real + 1.0
    ensures c.b as real <= MaxR(MinR(v.z, 1.0), 0.0) * 255.0 < c.b as real + 1.0
  {
    Color(Channel(v.x), Channel(v.y), Channel(v.z))
  }

  /** The vector form (src/rt/mod.rs): clamp the whole vector, scale by 255,
      cast each channel. */
  function VectorToColor(v: Vec3): (c: Color)
    ensures v.x >= 1.0 ==> c.r == 255
    ensures v.x <= 0.0 ==> c.r == 0
    ensures c.r as real <= MaxR(MinR(v.x, 1.0), 0.0) * 255.0 < c.r as real + 1.0
    ensures c.g as real <= MaxR(MinR(v.y, 1.0), 0.0) * 255.0 < c.g as real + 1.0
    ensures c.b as real <= MaxR(MinR(v.z, 1.0), 0.0) * 255.0 < c.b as real + 1.0
  {
    var rgb := Scale(Max(Min(v, Splat(1.0)), Zero), 255.0);
    Color(Truncate(rgb.x), Truncate(rgb.y), Truncate(rgb.z))
  }

  /** Both snapshots convert every colour to the same bytes. */
  lemma SnapshotsConvertAlike(v: Vec3)
    ensures VectorToColor(v) == ToColor(v)
  {
  }

  /** Conversion is monotone in each channel. */
  lemma ChannelMonotone(x: real, y: real)
    requires x <= y
    ensures Channel(x) <= Channel(y)
  {
    var a := MaxR(MinR(x, 1.0), 0.0) * 255.0;
    var b := MaxR(MinR(y, 1.0), 0.0) * 255.0;
    assert a <= b;
    assert Channel(x) as real <= a <= b < Channel(y) as real + 1.0;
  }
}
