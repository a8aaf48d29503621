# my-ecommerce: verified model of the shop's sequential logic

A Dafny model of the parts of the my-ecommerce storefront and admin panel
that are plain sequential logic rather than database or UI plumbing:

- **Image upload endpoint** (`UploadRoute`): `POST` validates the form, keeps
  the files whose media type is JPEG, JPG, PNG or WebP, and derives one public
  path per kept file, `/uploads/products/<productId>/<colour segment>/<ts>-<i>-<safe name>`.
  The colour segment and the file name are produced by two character-level
  sanitisers.
- **Sales analytics** (`SalesAnalytics`): `getSalesAnalytics` folds the orders into
  - the revenue of the non-returned orders;
  - the number of delivered orders;
  - per-date buckets in order of first appearance, of which the chart shows the
    last thirty.
- **Small fallbacks in the data layer**: the `pending` default of `createOrder`
  (`Catalog.NewOrderRow`) and the `"default"` sentinel of `getCoverPhotoUrl`
  (`Settings.CoverPhotoUrl`).
- **Admin product form** (`ProductForm`):
  - toggling colours by hex, where Green and Lime share `#00FF00`;
  - appending and removing images per colour name;
  - submit validation;
  - the create → upload-per-colour → update protocol, with the calls it makes
    recorded as a trace.
- **Admin dashboard** (`Dashboard`): the status buttons offered per order, the
  cover-photo field's load/submit/remove mapping, and the inventory thumbnail.
- **Storefront home page** (`Storefront`): the hero cover versus the gradient,
  the card thumbnail, and the swatch list with its "+N" badge.

`Common` holds `Option` (JavaScript `null`/`undefined`, or a step that threw),
JavaScript truthiness of strings and `filter`. `Decimal` holds the decimal
spelling of naturals, as a template literal prints them below 10^21, with its
inverse.

Modelling choices:
- Money is integer cents.
- `Date.now()` is a parameter `clock` read once per accepted file, and
  `toLocaleDateString` is an abstract `dateKey` function.
- The remote steps are parameters that succeed or fail:
  - the form's create, upload and update;
  - the settings lookup and the cover removal's write;
  - the analytics query.
- Strings are sequences of Unicode scalar values. The upload endpoint's two
  regular expressions work on UTF-16 code units, so a character outside the
  Basic Multilingual Plane is replaced twice.

## Model

| member | source | states |
|---|---|---|
| Common.Filter | lib/supabase.ts:311-315 | `filter` keeps only elements satisfying the predicate and never lengthens the list |
| Common.FilterMembers | lib/supabase.ts:311-312 | an element survives `filter` exactly when it is in the input and satisfies the predicate |
| Common.FilterConcat | lib/supabase.ts:311-312 | filtering distributes over concatenation, so the survivors keep their relative order |
| Decimal.ToDecimal | app/admin/api/upload/route.ts:53 | the printed number is a non-empty digit string without a leading zero (except "0") |
| Decimal.ParseToDecimal | app/admin/api/upload/route.ts:53 | reading the printed digits back gives the number: printing loses nothing |
| Decimal.ToDecimalInjective | app/admin/api/upload/route.ts:53 | different timestamps or indices print differently |
| Catalog.NewOrderRow | lib/supabase.ts:186-194 | the inserted order carries the caller's fields; a missing status becomes `pending`, a given one is kept |
| Catalog.ThumbnailOr | app/page.tsx:123 | the thumbnail is the first image of the first variation when that exists and is non-empty, else the placeholder |
| Settings.CoverPhotoUrl | lib/supabase.ts:372-390 | never empty; a query error, an exception, a null or an empty value all give "default"; a non-empty stored value is returned unchanged |
| UploadRoute.Utf16Length | app/admin/api/upload/route.ts:28 | the JavaScript length of a string is at least its character count, and equal to it exactly when no character needs a surrogate pair |
| UploadRoute.LowerAscii | app/admin/api/upload/route.ts:28 | ASCII `toLowerCase`: upper-case letters map to their lower-case letter, everything else is unchanged |
| UploadRoute.CleanColorName | app/admin/api/upload/route.ts:28 | one output character per UTF-16 code unit of the input, each in [a-z0-9-]; on a string without surrogate pairs a character whose ASCII lower-case form is in [a-z0-9] becomes that form, every other one becomes exactly one '-' |
| UploadRoute.CleanColorNameConcat | app/admin/api/upload/route.ts:28 | the segment of a concatenation is the concatenation of the segments: characters are cleaned independently |
| UploadRoute.CleanColorNameOfAstral | app/admin/api/upload/route.ts:28 | a character outside the Basic Multilingual Plane becomes "--" |
| UploadRoute.CleanColorNameOfEmojiName | app/admin/api/upload/route.ts:28 | "Red" followed by U+1F525 becomes "red--" |
| UploadRoute.CleanColorNameIsLowerCase | app/admin/api/upload/route.ts:28 | the colour segment contains no upper-case letter |
| UploadRoute.CleanColorNameIdempotent | app/admin/api/upload/route.ts:28 | cleaning an already clean segment changes nothing |
| UploadRoute.SafeFileName | app/admin/api/upload/route.ts:52 | one output character per UTF-16 code unit, each in [A-Za-z0-9._-]; on a string without surrogate pairs characters in [A-Za-z0-9.-] are kept and every other one becomes '_' |
| UploadRoute.SafeFileNameConcat | app/admin/api/upload/route.ts:52 | the safe name of a concatenation is the concatenation of the safe names |
| UploadRoute.SafeFileNameOfAstral | app/admin/api/upload/route.ts:52 | a character outside the Basic Multilingual Plane becomes "__" |
| UploadRoute.SafeFileNameOfEmojiName | app/admin/api/upload/route.ts:52 | U+1F600 followed by ".png" becomes "__.png" |
| UploadRoute.SafeFileNameIdempotent | app/admin/api/upload/route.ts:52 | sanitising a sanitised name changes nothing |
| UploadRoute.IsAllowed | app/admin/api/upload/route.ts:45-46 | a file is kept exactly when its media type is one of image/jpeg, image/jpg, image/png, image/webp |
| UploadRoute.FileName | app/admin/api/upload/route.ts:51-53 | the stored name starts with the printed timestamp and a '-', and ends with the sanitised original name |
| UploadRoute.StoredPath | app/admin/api/upload/route.ts:64 | every stored path starts with `/uploads/products/` and ends with the generated file name |
| UploadRoute.StoreFrom | app/admin/api/upload/route.ts:38-66 | the loop only appends to the paths pushed so far, at most one per remaining file |
| UploadRoute.AcceptedIndices | app/admin/api/upload/route.ts:41-48 | reference: the strictly increasing positions of exactly the files of an allowed media type |
| UploadRoute.Post | app/admin/api/upload/route.ts:6-81 | no files gives 400 "No files provided" before any other validation; then a missing or empty product id or colour name gives 400; a valid request is 200 unless the file system fails (500 "Failed to upload files"); the path count never exceeds the file count and the message is "<count> files uploaded successfully" |
| UploadRoute.StoreFromMatchesReference | app/admin/api/upload/route.ts:41-65 | the loop's output equals the path function applied to the reference list of allowed positions |
| UploadRoute.UploadedPathsMatchAcceptedFiles | app/admin/api/upload/route.ts:41-65 | the k-th returned path is `/uploads/products/<id>/<segment>/<ts>-<i>-<safe name>` for the k-th allowed file, where i is its position in the whole input and ts that file's clock reading |
| UploadRoute.SplitAtFirstDash | app/admin/api/upload/route.ts:53 | two dash-joined names with dash-free heads are equal only if heads and tails are |
| UploadRoute.DecimalHasNoDash | app/admin/api/upload/route.ts:51-53 | a printed timestamp or index contains no '-' |
| UploadRoute.FileNameDeterminesIndex | app/admin/api/upload/route.ts:50-53 | a generated file name determines the timestamp and position it was built from |
| UploadRoute.UploadedPathsDistinct | app/admin/api/upload/route.ts:50-65 | within one request all returned paths are pairwise different, whatever the clock readings and names |
| UploadRoute.LeadingDigitsOfConcat | app/admin/api/upload/route.ts:71 | the digits at the head of "<n> files …" are exactly the printed n |
| UploadRoute.SuccessMessageCountsPaths | app/admin/api/upload/route.ts:68-72 | the number at the head of the success message equals the number of returned paths |
| UploadRoute.NoAllowedFileGivesNoPaths | app/admin/api/upload/route.ts:44-48 | disallowed files are skipped, not refused: a request with no allowed file is a 200 with no paths and "0 files uploaded successfully" |
| SalesAnalytics.TotalRevenue | lib/supabase.ts:311-313 | the revenue is never negative when no order has a negative price |
| SalesAnalytics.TotalSold | lib/supabase.ts:315 | the sold count is at most the order count, and 0 exactly when no order is delivered |
| SalesAnalytics.AddOrder | lib/supabase.ts:319-327 | a returned order leaves the buckets alone; any other order adds at most one bucket |
| SalesAnalytics.SalesByDate | lib/supabase.ts:318-328 | never more buckets than orders |
| SalesAnalytics.IndexOfDate | lib/supabase.ts:322-324 | the position of the bucket for a date, or the list length when no bucket has that date |
| SalesAnalytics.LastN | lib/supabase.ts:330 | `slice(-n)`: for n > 0 the last min(n, length) elements, for n = 0 the whole list (as `slice(-0)`), always a suffix of the input |
| SalesAnalytics.GetSalesAnalytics | lib/supabase.ts:311-335 | the chart has at most 30 entries and the sold count never exceeds the order count |
| SalesAnalytics.LoadSalesAnalytics | lib/supabase.ts:300-341 | a query error gives no analytics (the source rethrows); null rows give revenue 0, sold 0 and an empty chart |
| SalesAnalytics.FirstOccurrences | lib/supabase.ts:318-330 | reference for the bucket dates: each value of the list once, and only values of the list |
| SalesAnalytics.TotalRevenueStep | lib/supabase.ts:311-313 | each non-returned order adds its price (a null price as 0) to the revenue; a returned one adds nothing |
| SalesAnalytics.TotalSoldStep | lib/supabase.ts:315 | each delivered order adds exactly one to the sold count; any other order adds nothing |
| SalesAnalytics.AllReturnedGivesZero | lib/supabase.ts:311-315 | when every order is returned, revenue and sold count are both 0 |
| SalesAnalytics.TotalSoldIgnoresOtherStatuses | lib/supabase.ts:315 | the sold count depends only on which orders are delivered, whatever the other statuses are |
| SalesAnalytics.IndexOfDateFinds | lib/supabase.ts:322-324 | a bucket for a date is found exactly when the date is among the bucket dates |
| SalesAnalytics.ReturnedOrdersIgnored | lib/supabase.ts:318-319 | the buckets of all orders equal the buckets of the non-returned orders alone |
| SalesAnalytics.BucketDatesAreFirstOccurrences | lib/supabase.ts:318-328 | the bucket dates are the non-returned orders' date keys, each once, in order of first occurrence |
| SalesAnalytics.BucketDatesDistinct | lib/supabase.ts:322-324 | no two buckets share a date |
| SalesAnalytics.FirstOccurrencesOrdered | lib/supabase.ts:318-328 | an earlier entry of the first-occurrence list first occurs earlier in the input |
| SalesAnalytics.BucketsOrderedByFirstOccurrence | lib/supabase.ts:318-328 | buckets are ordered by the first occurrence of their date among the non-returned orders |
| SalesAnalytics.BucketContents | lib/supabase.ts:318-328 | each bucket's count and revenue are those of exactly the non-returned orders of its date, and at least 1; a date without a bucket has no such order |
| SalesAnalytics.AddOrderKeepsMatch | lib/supabase.ts:319-327 | one step of the reduce keeps every bucket in agreement with the orders seen so far |
| SalesAnalytics.AddOrderTotals | lib/supabase.ts:319-327 | one step adds 1 to the bucket count total and the price to the revenue total, or nothing for a returned order |
| SalesAnalytics.BucketTotals | lib/supabase.ts:311-328 | bucket counts sum to the number of non-returned orders; bucket revenues sum to the total revenue |
| SalesAnalytics.ChartDataIsLastBuckets | lib/supabase.ts:330 | the chart is the last 30 buckets, or all of them when there are fewer |
| Dashboard.OfferedActions | app/admin/dashboard/page.tsx:485-506 | "Confirm" is offered iff the status is pending; "Mark Delivered" iff confirmed; "Mark Returned" always, as the last button; no button twice |
| Dashboard.OfferedMatchesLifecycleBeforeFinal | app/admin/dashboard/page.tsx:485-506 | for pending and confirmed orders the buttons lead to exactly the next statuses of the lifecycle pending → confirmed → delivered, with returned reachable from pending or confirmed |
| Dashboard.FinalStatusesOfferOnlyReturn | app/admin/dashboard/page.tsx:501-506 | delivered and returned orders still offer "Mark Returned", and only that |
| Dashboard.NewOrderIsConfirmable | lib/supabase.ts:192 | an order created without a status is offered "Confirm" |
| Dashboard.CoverFieldOnLoad | app/admin/dashboard/page.tsx:93-96 | a loaded "default" shows as an empty field; any other value shows unchanged |
| Dashboard.IsBlank | app/admin/dashboard/page.tsx:133 | `!s.trim()`: every character is ECMAScript white space or a line terminator |
| Dashboard.SubmitCover | app/admin/dashboard/page.tsx:131-148 | a field that is empty or only JavaScript white space is rejected with no write; otherwise the field is stored as typed |
| Dashboard.RemoveCover | app/admin/dashboard/page.tsx:150-164 | "default" is written only when the dialog is confirmed and the write succeeds, and only then is the field cleared; a cancelled or failed removal keeps the field |
| Dashboard.SubmittedCoverReloads | app/admin/dashboard/page.tsx:93-96 | a stored URL reloads unchanged into the field, except the literal "default", which reloads as empty |
| Dashboard.RemovedCoverReloadsEmpty | app/admin/dashboard/page.tsx:150-164 | after a successful removal the setting reads back as "default" and the reloaded field matches the cleared one |
| Dashboard.RemoveCoverKeepsFieldInSync | app/admin/dashboard/page.tsx:93-96 | if the field showed what loading the setting shows, it still does after any removal, cancelled, failed or done |
| Dashboard.InventoryThumbnail | app/admin/dashboard/page.tsx:411 | the first image of the first variation when present and non-empty, else the 80-pixel placeholder |
| Storefront.LoadCover | app/page.tsx:20-33 | a fetched URL that is non-empty and not "default" becomes the cover and clears the error; anything else, including an exception, sets the error and keeps the cover |
| Storefront.OnImageError | app/page.tsx:57 | an image error sets the error flag and keeps the cover |
| Storefront.HeroAfterLoad | app/page.tsx:12-33 | after the initial load the custom cover shows exactly when a non-empty value other than "default" is stored, and it shows that value |
| Storefront.ShowsCustomCover | app/page.tsx:50 | the custom cover is rendered exactly when no image error occurred and the cover is not "default" |
| Storefront.ImageErrorShowsGradient | app/page.tsx:50-57 | after an image error the gradient is shown |
| Storefront.CardThumbnail | app/page.tsx:123 | the first image of the first variation when present and non-empty, else the 400-pixel placeholder |
| Storefront.Swatches | app/page.tsx:143 | at most the first four variations, in order, as a prefix of the list |
| Storefront.ExtraBadge | app/page.tsx:151-153 | "+N" appears only with more than four variations, and N is at least 1 |
| Storefront.SwatchesAndBadgeCoverAll | app/page.tsx:143-153 | swatches plus N account for every variation |
| ProductForm.ToggleColor | components/AdminProductForm.tsx:45-55 | an absent hex appends the colour and leaves the images alone; a present hex removes every entry with that hex and only those, and deletes the image list under the toggled colour's own name |
| ProductForm.WithoutHex | components/AdminProductForm.tsx:48 | the colours left after deselecting a hex have other hexes, and there are no more of them than before |
| ProductForm.WithoutHexShorter | components/AdminProductForm.tsx:48 | removing a selected hex shortens the selection |
| ProductForm.SelectImages | components/AdminProductForm.tsx:57-65 | null files change nothing; otherwise the new files go after the colour's existing ones and no other colour changes |
| ProductForm.DropIndex | components/AdminProductForm.tsx:70 | filtering by position drops one element when the index is in range and none otherwise |
| ProductForm.DropIndexIsSplice | components/AdminProductForm.tsx:70 | filtering by position deletes exactly the entry at the index and keeps the rest in order |
| ProductForm.RemoveImage | components/AdminProductForm.tsx:67-72 | fails (the source throws) exactly when the colour has no file list; otherwise only that colour's list changes |
| ProductForm.RemoveImageDeletesOneEntry | components/AdminProductForm.tsx:67-72 | removing at a valid index deletes exactly that file |
| ProductForm.ApplyEdits | components/AdminProductForm.tsx:45-72 | an edit session that completes leaves title, description and price unchanged; an empty session changes nothing |
| ProductForm.WithoutHexKeepsDistinct | components/AdminProductForm.tsx:48 | removing a hex keeps the selected hexes pairwise distinct |
| ProductForm.ToggleKeepsDistinct | components/AdminProductForm.tsx:45-55 | toggling keeps the selected hexes pairwise distinct |
| ProductForm.EditsKeepDistinct | components/AdminProductForm.tsx:45-72 | any session of toggles, image selections and removals keeps the selected hexes distinct |
| ProductForm.EditsFromEmptyKeepHexesDistinct | components/AdminProductForm.tsx:38-72 | from the empty form no two selected colours share a hex, so Green and Lime are never selected together |
| ProductForm.PresetHexesShareOnlyGreenLime | components/AdminProductForm.tsx:13-32 | among the presets only Green and Lime share a hex |
| ProductForm.PresetNamesDistinct | components/AdminProductForm.tsx:13-32 | no preset name repeats |
| ProductForm.LimeTogglesGreenOffButKeepsItsImages | components/AdminProductForm.tsx:45-51 | toggling Lime while Green is selected deselects Green but leaves Green's files in the map |
| ProductForm.FirstWithoutImages | components/AdminProductForm.tsx:103-108 | finds the first selected colour with a missing or empty file list, and none exactly when all have files |
| ProductForm.UploadFrom | components/AdminProductForm.tsx:124-139 | the colours are uploaded in selection order; with no failure each gives one upload call and one variation of its name, hex and returned paths; the first failure stops the loop, and its call is the last one |
| ProductForm.Submit | components/AdminProductForm.tsx:94-161 | rejected with no call iff nothing is selected or a selected colour has no files; otherwise the draft is created first with empty variations; a create failure makes no other call; only success resets the form |
| ProductForm.SubmitSuccessAssemblesVariations | components/AdminProductForm.tsx:114-142 | on success: one variation per selected colour, in order, with its name, hex and upload paths; the calls are create, one upload per colour, then the update |
| ProductForm.UpdateOnlyAfterAllUploads | components/AdminProductForm.tsx:114-142 | the update is sent iff the draft was created and every upload succeeded, and it is then the last call |
| ProductForm.UploadFailureStopsSubmit | components/AdminProductForm.tsx:85-88 | a failed upload is the last call and no update follows |
| ProductForm.RouteAnswer | components/AdminProductForm.tsx:74-92 | one upload request answered by the endpoint succeeds exactly when there are files, a product id and a colour name and no file-system failure, and returns at most one path per file |
| ProductForm.RouteUploader | components/AdminProductForm.tsx:74-92 | an upload through the endpoint succeeds exactly when there are files, a product id and a colour name and no file-system failure, and returns at most one path per file |
| ProductForm.RouteUploadsLandInColourFolders | components/AdminProductForm.tsx:74-92 | with `/api/upload` answered by the upload endpoint, every image of a created product lies in `/uploads/products/<id>/<colour segment>/` |
| ProductForm.CommittedProductThumbnails | app/page.tsx:123 | a product committed through the upload endpoint (`/api/upload` taken to be served by it) shows, on the home page and in the inventory, the stored path of its first colour's first allowed file, or the placeholder when that colour had none |
| ProductForm.DisallowedFilesCommitEmptyVariation | components/AdminProductForm.tsx:97-142 | as written: a colour whose only file is a GIF is committed with an empty image list |
| ProductForm.SubmitRequiringImages | components/AdminProductForm.tsx:102-108 | corrected protocol: a created product has one variation per selected colour, and each has at least one image |
| ProductForm.CorrectedSubmitRefusesEmptyVariation | components/AdminProductForm.tsx:102-108 | the corrected protocol reports the GIF-only colour as a failed upload instead of committing it |

## Left out

- Request parsing: the model gets the file list, product id and colour name
  already read. A body that fails to parse, which the endpoint answers with
  500, is not modelled.
- File-system effects of the upload endpoint (`mkdir`, `existsSync`,
  `writeFile`, reading the file bytes). They are one parameter, `ioFails`.
  Any such failure gives the 500 answer, and the model does not track which
  files were already written.
- `Date.now()` is the parameter `clock`, read once per accepted file. The model makes
  no claim about the clock being monotone or about paths being unique across
  requests.
- `toLocaleDateString()` is the abstract parameter `dateKey`.
- Bucket order follows JavaScript object insertion order. It would differ only
  for integer-like keys, which locale date strings are not.
- Floating-point money (`parseFloat(price)`, JavaScript number sums): amounts
  are integer cents. The form's price text is passed through unparsed.
- UploadRoute.LowerAscii: models `toLowerCase` on ASCII only. Non-ASCII
  letters, such as the Kelvin sign that lower-cases to 'k', are left
  unchanged instead of being lowered.
- UploadRoute.CleanColorName: inherits that ASCII-only lowering. The Kelvin
  sign gives "-" where the source gives "k". U+0130 (capital I with dot)
  gives "-" where the source lowers it to two code units, "i" and a combining
  dot, and so gives "i-". So for such letters the model's segment can be
  shorter than the source's, which can be longer than the input's `.length`.
- ProductForm.RouteUploader: the form posts to `/api/upload`, and the model
  takes that request to be answered by app/admin/api/upload/route.ts. Under
  the App Router that file is served at `/admin/api/upload`, and
  next.config.js declares no rewrite. Among the files modelled, nothing
  serves `/api/upload`. If nothing does in the deployed app, every upload
  fails and every submit with colours ends as `UploadFailed`. The same
  assumption underlies `ProductForm.RouteUploadsLandInColourFolders`,
  `ProductForm.CommittedProductThumbnails` and the finding below.
- ProductForm.Submit: `handleSubmit` is modelled as if no edit happens while
  it runs. The source awaits the create, each upload and the update, and
  only the submit button is disabled meanwhile. Colour toggles and file
  picks made during those awaits stay in the form after a failed create,
  upload or update, where the model's contract says the form is unchanged.
- Database and network calls are not modelled. The ones the modelled logic
  depends on are parameters that succeed or fail:
  - the create, upload and update of the product form;
  - the cover-photo lookup and the removal's write;
  - the analytics query.

  The rest is left out: the other queries, inserts, updates and deletes, and
  authentication (sign-in, sign-out, session).
- Dashboard.SubmitCover: a failed write of a submitted cover is not modelled.
  The source only alerts in that case, and the field stays as typed either way.
- ProductForm.Submit: the browser's form validation is not modelled. The title,
  description and price inputs are `required`, and price is a number input
  with step 0.01. The browser blocks submission before `handleSubmit` runs
  when one of them is empty or invalid. The model runs `handleSubmit` on any
  field values, so for example an empty title still reaches the create call.
- Dashboard.SubmitCover: the cover input has type `url`. The browser refuses to
  submit a value that is not an absolute URL and strips surrounding ASCII
  white space. The model takes the field as given. Through the UI, a value
  such as the literal "default" therefore never reaches the submit handler, so
  the `"default"` case of `Dashboard.SubmittedCoverReloads` is not reachable
  there.
- `updateOrderStatus` writes whatever status it is given. The model claims
  no enforcement of transitions, only which buttons are offered.
- Editing an existing product: the form's initial state taken from
  `existingProduct` is not modelled, and every session starts from the empty
  form.
- Upload progress, `alert`/`confirm` dialogs, console logging, routing,
  rendering and styling.
- `app/success/page.tsx`, which is static markup, and `next.config.js`,
  which is build configuration.

## Findings

| source | as written | input that shows it | evidently intended | confidence | as-written member | corrected member |
|---|---|---|---|---|---|---|
| components/AdminProductForm.tsx:102-139 | submit checks that each colour has at least one chosen file, but the upload endpoint (app/admin/api/upload/route.ts, lines 44-48) silently skips files of a disallowed media type and answers 200, so the variation is committed with the empty path list | colour Red selected with the single file `photo.gif` (`image/gif`), chosen by switching the file picker past its `accept` filter (AdminProductForm.tsx:295), for example to "All files", with `/api/upload` served by the upload endpoint; create, upload and update all succeed | every committed variation has at least one image, as the submit validation demands | not executed | ProductForm.DisallowedFilesCommitEmptyVariation | ProductForm.SubmitRequiringImages |
