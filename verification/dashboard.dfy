/** Decisions of the admin dashboard (app/admin/dashboard/page.tsx): which
    status buttons an order offers, how the cover-photo field is loaded,
    submitted and cleared, and the inventory thumbnail. */
module Dashboard {
  import opened Common
  import opened Catalog
  import Settings

  /** The order buttons, in the order they are rendered. */
  datatype OrderAction = Confirm | MarkDelivered | MarkReturned

  /** The status a button writes; the write itself accepts any status. */
  function Target(a: OrderAction): (status: OrderStatus)
  {
    match a
    case Confirm => Confirmed
    case MarkDelivered => Delivered
    case MarkReturned => Returned
  }

  function OfferedActions(status: OrderStatus): (actions: seq<OrderAction>)
    ensures Confirm in actions <==> status == Pending
    ensures MarkDelivered in actions <==> status == Confirmed
    ensures MarkReturned in actions
    ensures actions[|actions| - 1] == MarkReturned
    ensures forall i, j :: 0 <= i < j < |actions| ==> actions[i] != actions[j]
  {
    (if status == Pending then [Confirm] else [])
    + (if status == Confirmed then [MarkDelivered] else [])
    + [MarkReturned]
  }

  /** The order lifecycle: pending -> confirmed -> delivered, and pending or
      confirmed -> returned; delivered and returned are final. */
  predicate LifecycleStep(from: OrderStatus, to: OrderStatus)
  {
    || (from == Pending && to == Confirmed)
    || (from == Confirmed && to == Delivered)
    || ((from == Pending || from == Confirmed) && to == Returned)
  }

  /** From a non-final status the buttons offer exactly the intended next statuses. */
  lemma OfferedMatchesLifecycleBeforeFinal(status: OrderStatus, to: OrderStatus)
    requires status == Pending || status == Confirmed
    ensures (exists a :: a in OfferedActions(status) && Target(a) == to) <==> LifecycleStep(status, to)
  {
    if LifecycleStep(status, to) {
      var a := if to == Returned then MarkReturned else if to == Confirmed then Confirm else MarkDelivered;
      assert a in OfferedActions(status) && Target(a) == to;
    }
  }

  /** A delivered or returned order still offers "Mark Returned", which the
      lifecycle does not allow; nothing else is offered. */
  lemma FinalStatusesOfferOnlyReturn(status: OrderStatus)
    requires status == Delivered || status == Returned
    ensures OfferedActions(status) == [MarkReturned]
    ensures !LifecycleStep(status, Target(MarkReturned))
  {
  }

  /** A freshly created order without an explicit status is offered "Confirm". */
  lemma NewOrderIsConfirmable(input: OrderInput, id: string, createdAt: string)
    requires input.status.None?
    ensures Confirm in OfferedActions(NewOrderRow(input, id, createdAt).status)
  {
  }

  // ---------------------------------------------------------------------------
  // Cover photo tab.
  // ---------------------------------------------------------------------------

  /** The text field after loading: the sentinel shows as an empty field. */
  function CoverFieldOnLoad(url: string): (field: string)
    ensures url == Settings.DefaultCover ==> field == ""
    ensures url != Settings.DefaultCover ==> field == url
  {
    if url == Settings.DefaultCover then "" else url
  }

  /** JavaScript's `trim` white space: the ECMAScript WhiteSpace and
      LineTerminator code points. */
  predicate IsJsWhitespace(c: char)
  {
    var n := c as int;
    || n == 0x09 || n == 0x0A || n == 0x0B || n == 0x0C || n == 0x0D || n == 0x20
    || n == 0xA0 || n == 0x1680 || (0x2000 <= n <= 0x200A) || n == 0x2028 || n == 0x2029
    || n == 0x202F || n == 0x205F || n == 0x3000 || n == 0xFEFF
  }

  /** `!s.trim()` */
  predicate IsBlank(s: string)
  {
    forall i :: 0 <= i < |s| ==> IsJsWhitespace(s[i])
  }

  datatype CoverSubmit = RejectedBlank | StoreCover(url: string)

  /** Submitting the field: a blank field is rejected and nothing is written;
      otherwise the field is stored as typed (untrimmed). */
  function SubmitCover(field: string): (r: CoverSubmit)
    ensures r.RejectedBlank? <==> IsBlank(field)
    ensures r.StoreCover? ==> r.url == field && field != ""
  {
    if IsBlank(field) then RejectedBlank else StoreCover(field)
  }

  /** Removing the cover: the value written to the setting (`None` when
      nothing was written), and what the field then shows. */
  datatype CoverRemoval = CoverRemoval(written: Option<string>, field: string)

  /** `handleRemoveCoverPhoto`: `confirmed` is the answer to the confirmation
      dialog and `writeOk` whether `updateCoverPhotoUrl('default')` returned
      rather than threw. The field is cleared only after a successful write. */
  function RemoveCover(field: string, confirmed: bool, writeOk: bool): (r: CoverRemoval)
    ensures r.written.Some? <==> confirmed && writeOk
    ensures r.written.Some? ==> r.written.value == Settings.DefaultCover && r.field == ""
    ensures r.written.None? ==> r.field == field
  {
    if confirmed && writeOk then CoverRemoval(Some(Settings.DefaultCover), "")
    else CoverRemoval(None, field)
  }

  /** The field shows what loading the stored setting would show. */
  predicate FieldMatchesSetting(field: string, lookup: Settings.CoverLookup)
  {
    field == CoverFieldOnLoad(Settings.CoverPhotoUrl(lookup))
  }

  /** The setting after a removal: the written sentinel, or the old setting. */
  function SettingAfter(lookup: Settings.CoverLookup, r: CoverRemoval): (after: Settings.CoverLookup)
  {
    if r.written.Some? then Settings.Row(r.written) else lookup
  }

  /** A URL that is submitted, stored and loaded again shows unchanged in the
      field, unless it is literally "default", which reads back as no cover. */
  lemma SubmittedCoverReloads(field: string)
    requires SubmitCover(field).StoreCover?
    ensures var shown := CoverFieldOnLoad(Settings.CoverPhotoUrl(Settings.Row(Some(SubmitCover(field).url))));
            (field != Settings.DefaultCover ==> shown == field) && (field == Settings.DefaultCover ==> shown == "")
  {
  }

  /** After a successful removal the setting reads back as the sentinel and
      the reloaded field is the cleared one. */
  lemma RemovedCoverReloadsEmpty(field: string, confirmed: bool, writeOk: bool)
    ensures var r := RemoveCover(field, confirmed, writeOk);
            r.written.Some? ==>
              && Settings.CoverPhotoUrl(Settings.Row(r.written)) == Settings.DefaultCover
              && CoverFieldOnLoad(Settings.CoverPhotoUrl(Settings.Row(r.written))) == r.field
  {
  }

  /** A removal, whether cancelled, failed or done, keeps the field in
      agreement with what reloading the setting would show. */
  lemma RemoveCoverKeepsFieldInSync(field: string, lookup: Settings.CoverLookup, confirmed: bool, writeOk: bool)
    requires FieldMatchesSetting(field, lookup)
    ensures var r := RemoveCover(field, confirmed, writeOk);
            FieldMatchesSetting(r.field, SettingAfter(lookup, r))
  {
  }

  // ---------------------------------------------------------------------------
  // Inventory list.
  // ---------------------------------------------------------------------------

  const InventoryPlaceholder: string := "https://via.placeholder.com/80"

  function InventoryThumbnail(p: Product): (src: string)
    ensures src == InventoryPlaceholder
            || (|p.variations| > 0 && |p.variations[0].images| > 0 && src == p.variations[0].images[0] && src != "")
    ensures (|p.variations| > 0 && |p.variations[0].images| > 0 && p.variations[0].images[0] != "")
              ==> src == p.variations[0].images[0]
  {
    ThumbnailOr(p, InventoryPlaceholder)
  }
}
