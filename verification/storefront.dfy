/** Display decisions of the storefront home page (app/page.tsx): the hero
    cover versus the default gradient, the product card thumbnail, and the
    colour swatches with their "+N" badge. */
module Storefront {
  import opened Common
  import opened Catalog
  import Settings

  /** The hero's state: the cover URL to try and whether showing it failed. */
  datatype HeroState = HeroState(coverImage: string, imageError: bool)

  const InitialHero: HeroState := HeroState(Settings.DefaultCover, false)

  /** `loadCoverImage`: `fetched` is the URL returned, or `None` when the call threw.
      A usable URL replaces the cover and clears the error; anything else
      marks an error and leaves the cover as it was. */
  function LoadCover(st: HeroState, fetched: Option<string>): (r: HeroState)
    ensures !r.imageError <==> fetched.Some? && fetched.value != "" && fetched.value != Settings.DefaultCover
    ensures !r.imageError ==> r.coverImage == fetched.value
    ensures r.imageError ==> r.coverImage == st.coverImage
  {
    if fetched.Some? && fetched.value != "" && fetched.value != Settings.DefaultCover
    then HeroState(fetched.value, false)
    else HeroState(st.coverImage, true)
  }

  /** The `onError` handler of the cover image. */
  function OnImageError(st: HeroState): (r: HeroState)
    ensures r.imageError && r.coverImage == st.coverImage
  {
    st.(imageError := true)
  }

  /** `!imageError && coverImage !== 'default'`: the custom cover is rendered,
      otherwise the gradient. */
  predicate ShowsCustomCover(st: HeroState)
  {
    !st.imageError && st.coverImage != Settings.DefaultCover
  }

  /** After the page loads the setting, the custom cover is shown exactly when
      a non-empty value other than "default" is stored, and it is that value. */
  lemma HeroAfterLoad(lookup: Settings.CoverLookup)
    ensures var st := LoadCover(InitialHero, Some(Settings.CoverPhotoUrl(lookup)));
            && (ShowsCustomCover(st) <==>
                  lookup.Row? && Truthy(lookup.value) && lookup.value.value != Settings.DefaultCover)
            && (ShowsCustomCover(st) ==> st.coverImage == lookup.value.value)
  {
  }

  /** Whatever state the hero is in, an image error switches it to the gradient. */
  lemma ImageErrorShowsGradient(st: HeroState)
    ensures !ShowsCustomCover(OnImageError(st))
  {
  }

  // ---------------------------------------------------------------------------
  // Product cards.
  // ---------------------------------------------------------------------------

  const CardPlaceholder: string := "https://via.placeholder.com/400"

  function CardThumbnail(p: Product): (src: string)
    ensures src == CardPlaceholder
            || (|p.variations| > 0 && |p.variations[0].images| > 0 && src == p.variations[0].images[0] && src != "")
    ensures (|p.variations| > 0 && |p.variations[0].images| > 0 && p.variations[0].images[0] != "")
              ==> src == p.variations[0].images[0]
  {
    ThumbnailOr(p, CardPlaceholder)
  }

  const SwatchLimit: nat := 4

  /** `variations.slice(0, 4)` */
  function Swatches(p: Product): (shown: seq<ColorVariation>)
    ensures |shown| <= SwatchLimit
    ensures |shown| == if |p.variations| <= SwatchLimit then |p.variations| else SwatchLimit
    ensures p.variations[..|shown|] == shown
  {
    if |p.variations| <= SwatchLimit then p.variations else p.variations[..SwatchLimit]
  }

  /** The "+N" badge: present only with more than four variations, N the rest. */
  function ExtraBadge(p: Product): (n: Option<nat>)
    ensures n.Some? <==> |p.variations| > SwatchLimit
    ensures n.Some? ==> n.value >= 1
  {
    if |p.variations| > SwatchLimit then Some(|p.variations| - SwatchLimit) else None
  }

  /** The swatches and the badge together account for every variation. */
  lemma SwatchesAndBadgeCoverAll(p: Product)
    ensures |Swatches(p)| + ExtraBadge(p).GetOr(0) == |p.variations|
  {
  }
}
