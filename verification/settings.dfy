/** The cover-photo setting (lib/supabase.ts): a single `cover_photo_url`
    value, where the sentinel "default" means "no custom cover". */
module Settings {
  import opened Common

  const DefaultCover: string := "default"

  /** What the settings lookup produced: the query reported an error, the
      call threw, or a row came back whose value may be null. */
  datatype CoverLookup = QueryError | QueryThrew | Row(value: Option<string>)

  /** `getCoverPhotoUrl`: every failure, a null value and an empty value all
      fall back to "default"; a non-empty stored value is returned unchanged. */
  function CoverPhotoUrl(lookup: CoverLookup): (url: string)
    ensures url != ""
    ensures url != DefaultCover ==> lookup.Row? && lookup.value == Some(url)
    ensures lookup.Row? && Truthy(lookup.value) ==> url == lookup.value.value
    ensures !lookup.Row? || !Truthy(lookup.value) ==> url == DefaultCover
  {
    match lookup
    case QueryError => DefaultCover
    case QueryThrew => DefaultCover
    case Row(value) => if Truthy(value) then value.value else DefaultCover
  }
}
