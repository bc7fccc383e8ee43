/** The control flow of the bounce loops of `LambertIntegrator::rayColor`
    and `DisneyIntegrator::rayColor`. Everything floating point (colours,
    pdfs, directions) is abstracted: what the scene and the samplers report
    at bounce `i` of the path is the oracle value `path(i)`, and a colour is
    the list of the contributions that were added to it. */
module Bounce {

  /** What one bounce reports when the ray hits a surface. */
  datatype Hit = Hit(
    sampleBlack: bool,   // the BSDF sample is degenerate (`sample.isBlack`)
    sampleDirac: bool,   // the BSDF sample is a delta sample (`sample.isDirac`)
    surfaceDirac: bool,  // the material is classified delta-like (`isDirac`)
    emitter: bool,       // the surface is itself a light (`isect.light`)
    facing: bool,        // the outgoing direction faces the normal (`Dot(wo, n) >= 0`)
    lightBlack: bool,    // the explicit light sample is degenerate (`lSample.isBlack`)
    occluded: bool)      // the shadow ray towards the light is blocked (`IntersectP`)

  /** The result of intersecting the current ray with the scene. */
  datatype Bounce = Miss | Surface(hit: Hit)

  /** How a bounce of the Disney loop ends: three ways to return, one to go on. */
  datatype Outcome = Missed | Degenerate | EmitterHit | Scattered

  function Classify(b: Bounce): Outcome {
    match b
    case Miss => Missed
    case Surface(h) => if h.sampleBlack then Degenerate else if h.emitter then EmitterHit else Scattered
  }

  /** A term added to the radiance `L`, tagged with the bounce that added it;
      each is scaled by the throughput accumulated before that bounce and by
      the number of lights. `FullEmit` is the emittance of a light that was
      hit, `WeightedEmit` that emittance under the balance-heuristic weight,
      `LightSampled` the explicit light-sampling estimate. */
  datatype Term = FullEmit(bounce: nat) | WeightedEmit(bounce: nat) | LightSampled(bounce: nat)

  function Max0(n: int): nat { if n < 0 then 0 else n }

  /** Explicit light sampling is tried on a non-emissive surface hit when the
      scene has lights and the material is not delta-like. */
  predicate SamplesLight(b: Bounce, lightCount: nat) {
    Classify(b) == Scattered && lightCount > 0 && !b.hit.surfaceDirac
  }

  /** A shadow ray is cast when the light sample is not degenerate. */
  predicate CastsShadowRay(b: Bounce, lightCount: nat) {
    SamplesLight(b, lightCount) && !b.hit.lightBlack
  }

  /** The light sample contributes when the shadow ray is unoccluded. */
  predicate LightContributes(b: Bounce, lightCount: nat) {
    CastsShadowRay(b, lightCount) && !b.hit.occluded
  }

  /** The light-sampling terms of the first `n` bounces, in bounce order. */
  function LightTerms(path: nat -> Bounce, lightCount: nat, n: nat): seq<Term> {
    if n == 0 then []
    else LightTerms(path, lightCount, n - 1)
         + (if LightContributes(path(n - 1), lightCount) then [LightSampled(n - 1)] else [])
  }

  /** The bounces, in order, among the first `n` that cast a shadow ray. */
  function ShadowRays(path: nat -> Bounce, lightCount: nat, n: nat): seq<nat> {
    if n == 0 then []
    else ShadowRays(path, lightCount, n - 1)
         + (if CastsShadowRay(path(n - 1), lightCount) then [n - 1] else [])
  }

  /** `oldDirac` on entry to bounce `k`: true on the first bounce, then the
      delta flag of the previous bounce's BSDF sample. */
  predicate OldDirac(path: nat -> Bounce, k: nat) {
    k == 0 || (path(k - 1).Surface? && path(k - 1).hit.sampleDirac)
  }

  /** What hitting a light at bounce `k` adds: nothing when it faces away,
      its full emittance after a delta sample or on the first bounce, and the
      weighted emittance otherwise. */
  function EmitTerm(path: nat -> Bounce, k: nat): seq<Term>
    requires path(k).Surface?
  {
    if !path(k).hit.facing then []
    else if OldDirac(path, k) then [FullEmit(k)]
    else [WeightedEmit(k)]
  }

  /** The bounce loop of `DisneyIntegrator::rayColor` with at most `depth`
      bounces and `lightCount` lights. Returns the radiance `L`, the bounces
      that cast a shadow ray, and the number of bounces the loop began. */
  method DisneyRayColor(path: nat -> Bounce, lightCount: nat, depth: int)
    returns (L: seq<Term>, shadowRays: seq<nat>, bounces: nat)
    ensures bounces <= Max0(depth)
    ensures forall k :: 0 <= k < bounces - 1 ==> Classify(path(k)) == Scattered
    ensures bounces < depth ==> 0 < bounces && Classify(path(bounces - 1)) != Scattered
    ensures shadowRays == ShadowRays(path, lightCount, bounces)
    ensures bounces > 0 && Classify(path(bounces - 1)) == Degenerate ==> L == []
    ensures bounces > 0 && Classify(path(bounces - 1)) == EmitterHit ==>
              L == LightTerms(path, lightCount, bounces - 1) + EmitTerm(path, bounces - 1)
    ensures bounces > 0 && Classify(path(bounces - 1)) == Missed ==>
              L == LightTerms(path, lightCount, bounces - 1)
    ensures bounces == 0 || Classify(path(bounces - 1)) == Scattered ==>
              L == LightTerms(path, lightCount, bounces)
  {
    L, shadowRays := [], [];
    var oldDirac := true;
    var i := 0;
    while i < depth
      invariant i <= Max0(depth)
      invariant forall k :: 0 <= k < i ==> Classify(path(k)) == Scattered
      invariant L == LightTerms(path, lightCount, i)
      invariant shadowRays == ShadowRays(path, lightCount, i)
      invariant oldDirac == OldDirac(path, i)
    {
      bounces := i + 1;
      if path(i).Surface? {
        var h := path(i).hit;
        if h.sampleBlack {
          L := [];
          return;
        }
        if h.emitter {
          if h.facing {
            L := L + [if oldDirac then FullEmit(i) else WeightedEmit(i)];
          }
          return;
        } else if lightCount > 0 && !h.surfaceDirac {
          if !h.lightBlack {
            shadowRays := shadowRays + [i];
            if !h.occluded {
              L := L + [LightSampled(i)];
            }
          }
        }
        oldDirac := h.sampleDirac;
      } else {
        return;
      }
      i := i + 1;
    }
    bounces := i;
  }

  /** A colour of `LambertIntegrator::rayColor`: black, or the sky gradient
      of the ray that escaped at bounce `bounce`, scaled by a throughput of
      `0.5` raised to `halvings`. */
  datatype Radiance = Black | SkyScaled(halvings: nat, bounce: nat)

  /** The bounce loop of `LambertIntegrator::rayColor`: each hit halves the
      throughput, the first miss returns the scaled sky, and a path that
      hits on every one of its `depth` bounces returns black. */
  method LambertRayColor(path: nat -> Bounce, depth: int) returns (L: Radiance)
    ensures L.SkyScaled? ==>
              && 0 <= L.bounce < depth
              && path(L.bounce).Miss?
              && (forall j :: 0 <= j < L.bounce ==> path(j).Surface?)
              && L.halvings == L.bounce
    ensures L.Black? <==> forall j :: 0 <= j < depth ==> path(j).Surface?
  {
    L := Black;
    var halvings := 0;
    var i := 0;
    while i < depth
      invariant i <= Max0(depth)
      invariant halvings == i
      invariant forall j :: 0 <= j < i ==> path(j).Surface?
    {
      if path(i).Surface? {
        halvings := halvings + 1;
      } else {
        L := SkyScaled(halvings, i);
        return;
      }
      i := i + 1;
    }
  }

  /** Every light-sampling term comes from a distinct earlier bounce whose
      light sample got through, and every such bounce contributes one. */
  lemma {:induction false} LightTermsExact(path: nat -> Bounce, lightCount: nat, n: nat, t: Term)
    ensures t in LightTerms(path, lightCount, n) <==>
              t.LightSampled? && t.bounce < n && LightContributes(path(t.bounce), lightCount)
  {
    if n > 0 {
      LightTermsExact(path, lightCount, n - 1, t);
    }
  }

  /** The shadow rays are cast exactly at the bounces that sample a light
      and get a non-degenerate light sample. */
  lemma {:induction false} ShadowRaysExact(path: nat -> Bounce, lightCount: nat, n: nat, k: nat)
    ensures k in ShadowRays(path, lightCount, n) <==> k < n && CastsShadowRay(path(k), lightCount)
  {
    if n > 0 {
      ShadowRaysExact(path, lightCount, n - 1, k);
    }
  }

  /** A delta-like surface never issues a shadow ray and never gets a
      light-sampling term, and neither does a scene without lights. */
  lemma NoLightSamplingWithoutLightsOrOnDelta(path: nat -> Bounce, lightCount: nat, n: nat, k: nat)
    requires k < n
    requires lightCount == 0 || (path(k).Surface? && path(k).hit.surfaceDirac)
    ensures k !in ShadowRays(path, lightCount, n)
    ensures LightSampled(k) !in LightTerms(path, lightCount, n)
  {
    ShadowRaysExact(path, lightCount, n, k);
    LightTermsExact(path, lightCount, n, LightSampled(k));
  }

  /** Light-sampling contributions never outnumber the shadow rays, which
      never outnumber the bounces. */
  lemma {:induction false} LightTermsBounded(path: nat -> Bounce, lightCount: nat, n: nat)
    ensures |LightTerms(path, lightCount, n)| <= |ShadowRays(path, lightCount, n)| <= n
  {
    if n > 0 {
      LightTermsBounded(path, lightCount, n - 1);
    }
  }

  /** On a path that hits a light directly, the first bounce adds the light's
      full emittance: `oldDirac` starts true. */
  lemma FirstBounceLightIsUnweighted(path: nat -> Bounce, lightCount: nat)
    requires Classify(path(0)) == EmitterHit && path(0).hit.facing
    ensures LightTerms(path, lightCount, 0) + EmitTerm(path, 0) == [FullEmit(0)]
  {
  }
}
