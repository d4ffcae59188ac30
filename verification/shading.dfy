/**
 * Direct lighting from one unshadowed light, as written identically in both
 * snapshots (src/rt/mod.rs and src/main.rs): a diffuse term scaled by a base
 * colour and a specular term around the mirror image of the incoming
 * direction, raised to the power 50. Normalisation and the power are the
 * abstract primitives of `Maths`.
 */
module Shading {
  import opened Vectors
  import opened Numerics

  datatype Light = Light(position: Vec3, color: Vec3)

  /** The shadow probe: from the surface point towards the light. */
  function ShadowRay(m: Maths, position: Vec3, light: Light): Ray {
    Ray(position, m.normalize(Sub(light.position, position)))
  }

  /** `light.color * illum * base` when the light falls on the front of the
      surface (`illum` is the cosine between the light direction and the
      normal), otherwise nothing. */
  function Diffuse(illum: real, lightColor: Vec3, base: Vec3): (r: Vec3)
    ensures illum <= 0.0 ==> r == Zero
    ensures NonNegative(lightColor) && NonNegative(base) ==> NonNegative(r)
  {
    if illum > 0.0 then
      ProductNonNegative(lightColor, illum, base);
      Mul(Scale(lightColor, illum), base)
    else
      Zero
  }

  lemma ProductNonNegative(c: Vec3, s: real, b: Vec3)
    requires s > 0.0
    ensures NonNegative(c) && NonNegative(b) ==> NonNegative(Mul(Scale(c, s), b))
  {
    if NonNegative(c) && NonNegative(b) {
      assert c.x * s >= 0.0 && c.y * s >= 0.0 && c.z * s >= 0.0;
    }
  }

  /** Cosine between the light direction and the mirror image of the incoming
      direction about the normal. */
  function SpecularCosine(m: Maths, lightDir: Vec3, normal: Vec3, rayDirection: Vec3): real {
    var dot := Dot(normal, rayDirection);
    var reflected := m.normalize(Sub(rayDirection, Scale(normal, 2.0 * dot)));
    Dot(lightDir, reflected)
  }

  /** `light.color * specular^50` when the cosine `specular` is positive,
      otherwise nothing. */
  function Specular(m: Maths, specular: real, lightColor: Vec3): (r: Vec3)
    ensures specular <= 0.0 ==> r == Zero
    ensures PowSound(m) && NonNegative(lightColor) ==> NonNegative(r)
  {
    if specular > 0.0 then Scale(lightColor, m.powi50(specular)) else Zero
  }

  /** The contribution of a light that the shadow probe did not block: the
      diffuse term plus the specular term. */
  function Unshadowed(m: Maths, illum: real, specular: real, lightColor: Vec3, base: Vec3): (r: Vec3)
    ensures PowSound(m) && NonNegative(lightColor) && NonNegative(base) ==> NonNegative(r)
  {
    var diffuse := Diffuse(illum, lightColor, base);
    var highlight := Specular(m, specular, lightColor);
    SumNonNegative(diffuse, highlight);
    Add(diffuse, highlight)
  }

  /** A light behind the surface and outside the highlight contributes
      nothing. */
  lemma DarkSideContributesNothing(m: Maths, illum: real, specular: real, lightColor: Vec3, base: Vec3)
    requires illum <= 0.0 && specular <= 0.0
    ensures Unshadowed(m, illum, specular, lightColor, base) == Zero
  {
    AddZero(Zero);
  }

  /** The light's contribution at `position` with surface normal `normal`,
      seen along `rayDirection`, when nothing blocks it. */
  function Lit(m: Maths, position: Vec3, normal: Vec3, light: Light, rayDirection: Vec3, base: Vec3): Vec3 {
    var lightDir := ShadowRay(m, position, light).direction;
    Unshadowed(m, Dot(lightDir, normal), SpecularCosine(m, lightDir, normal, rayDirection), light.color, base)
  }

  /** Every light has a non-negative colour. */
  ghost predicate LightsNonNegative(lights: seq<Light>) {
    forall i :: 0 <= i < |lights| ==> NonNegative(lights[i].color)
  }
}
