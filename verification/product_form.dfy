/** The admin product form (components/AdminProductForm.tsx): the selected
    colours, the files chosen for each colour name, and the submit protocol
    create draft -> upload each colour's files -> update the variations.
    The three remote steps are parameters: `created` is the draft's id or
    `None` when creation threw, `upload` answers each upload request (`None`
    when it threw or the response was not ok), `updateOk` says whether the
    final update went through. */
module ProductForm {
  import opened Common
  import opened Catalog
  import UploadRoute
  import Storefront
  import Dashboard

  type File = UploadRoute.File

  /** An upload request (product id, colour name, files) and its answer. */
  type Uploader = (string, string, seq<File>) -> Option<seq<string>>

  datatype Colour = Colour(name: string, hex: string)

  const PresetColors: seq<Colour> := [
    Colour("Red", "#FF0000"),
    Colour("Blue", "#0000FF"),
    Colour("Green", "#00FF00"),
    Colour("Yellow", "#FFFF00"),
    Colour("Black", "#000000"),
    Colour("White", "#FFFFFF"),
    Colour("Gray", "#808080"),
    Colour("Pink", "#FFC0CB"),
    Colour("Purple", "#800080"),
    Colour("Orange", "#FFA500"),
    Colour("Brown", "#A52A2A"),
    Colour("Navy", "#000080"),
    Colour("Teal", "#008080"),
    Colour("Lime", "#00FF00"),
    Colour("Maroon", "#800000"),
    Colour("Gold", "#FFD700"),
    Colour("Silver", "#C0C0C0"),
    Colour("Beige", "#F5F5DC")
  ]

  /** The form: text fields, the selected colours in selection order, and the
      files chosen per colour name. */
  datatype FormState = FormState(
    title: string,
    description: string,
    price: string,
    selected: seq<Colour>,
    images: map<string, seq<File>>)

  const EmptyForm: FormState := FormState("", "", "", [], map[])

  /** `selectedColors.find(c => c.hex === hex)` is truthy; also what marks a
      preset as selected in the picker. */
  predicate HexSelected(selected: seq<Colour>, hex: string)
  {
    exists i :: 0 <= i < |selected| && selected[i].hex == hex
  }

  predicate HexesDistinct(selected: seq<Colour>)
  {
    forall i, j :: 0 <= i < j < |selected| ==> selected[i].hex != selected[j].hex
  }

  /** `selectedColors.filter(c => c.hex !== hex)` */
  function WithoutHex(selected: seq<Colour>, hex: string): (r: seq<Colour>)
    ensures |r| <= |selected|
    ensures forall i :: 0 <= i < |r| ==> r[i].hex != hex
  {
    Filter(selected, KeepOtherHex(hex))
  }

  function KeepOtherHex(hex: string): (keep: Colour -> bool)
  {
    (c: Colour) => c.hex != hex
  }

  /** The files chosen for a colour name: `colorImages[name] || []`. */
  function ImagesOf(images: map<string, seq<File>>, name: string): (fs: seq<File>)
  {
    if name in images then images[name] else []
  }

  // ---------------------------------------------------------------------------
  // Editing operations.
  // ---------------------------------------------------------------------------

  /** `toggleColor`: a colour whose hex is already selected deselects every
      entry with that hex and drops the file list under the toggled colour's
      own name; otherwise the colour is appended. */
  function ToggleColor(st: FormState, c: Colour): (r: FormState)
    ensures r.title == st.title && r.description == st.description && r.price == st.price
    ensures !HexSelected(st.selected, c.hex) ==>
              r.selected == st.selected + [c] && r.images == st.images
    ensures HexSelected(st.selected, c.hex) ==>
              && !HexSelected(r.selected, c.hex)
              && |r.selected| < |st.selected|
              && (forall i :: 0 <= i < |st.selected| && st.selected[i].hex != c.hex ==> st.selected[i] in r.selected)
              && (forall x :: x in r.selected ==> x in st.selected)
              && r.images.Keys == st.images.Keys - {c.name}
              && (forall n :: n in r.images ==> r.images[n] == st.images[n])
  {
    if HexSelected(st.selected, c.hex) then
      var rest := WithoutHex(st.selected, c.hex);
      assert |rest| < |st.selected| by {
        var i :| 0 <= i < |st.selected| && st.selected[i].hex == c.hex;
        WithoutHexShorter(st.selected, c.hex, i);
      }
      FilterMembers(st.selected, KeepOtherHex(c.hex));
      st.(selected := rest, images := st.images - {c.name})
    else
      st.(selected := st.selected + [c])
  }

  lemma {:induction false} WithoutHexShorter(s: seq<Colour>, hex: string, i: nat)
    requires i < |s| && s[i].hex == hex
    ensures |WithoutHex(s, hex)| < |s|
    decreases |s|
  {
    var n := |s| - 1;
    if i < n {
      WithoutHexShorter(s[..n], hex, i);
    }
  }

  /** `handleImageSelect`: a null file list changes nothing; otherwise the new
      files go after the colour's existing ones and no other colour changes. */
  function SelectImages(st: FormState, name: string, files: Option<seq<File>>): (r: FormState)
    ensures files.None? ==> r == st
    ensures files.Some? ==>
              && r.title == st.title && r.description == st.description && r.price == st.price
              && r.selected == st.selected
              && r.images.Keys == st.images.Keys + {name}
              && |r.images[name]| == |ImagesOf(st.images, name)| + |files.value|
              && r.images[name][..|ImagesOf(st.images, name)|] == ImagesOf(st.images, name)
              && r.images[name][|ImagesOf(st.images, name)|..] == files.value
              && (forall n :: n in st.images && n != name ==> r.images[n] == st.images[n])
  {
    match files
    case None => st
    case Some(fs) =>
      var updated := ImagesOf(st.images, name) + fs;
      assert updated[..|ImagesOf(st.images, name)|] == ImagesOf(st.images, name);
      st.(images := st.images[name := updated])
  }

  /** `files.filter((_, i) => i !== index)` */
  function DropIndex<T>(s: seq<T>, index: int): (r: seq<T>)
    ensures |r| == if 0 <= index < |s| then |s| - 1 else |s|
  {
    if s == [] then []
    else DropIndex(s[..|s| - 1], index) + (if |s| - 1 != index then [s[|s| - 1]] else [])
  }

  /** Filtering by position removes exactly the entry at `index` and keeps the
      rest in order; an index outside the list removes nothing. */
  lemma {:induction false} DropIndexIsSplice<T>(s: seq<T>, index: int)
    ensures 0 <= index < |s| ==> DropIndex(s, index) == s[..index] + s[index + 1..]
    ensures !(0 <= index < |s|) ==> DropIndex(s, index) == s
    decreases |s|
  {
    if s != [] {
      var n := |s| - 1;
      DropIndexIsSplice(s[..n], index);
      if 0 <= index < n {
        assert s[..n][..index] + s[..n][index + 1..] + [s[n]] == s[..index] + s[index + 1..];
      } else if index == n {
        assert s[..index] + s[index + 1..] == s[..n];
      } else {
        assert s[..n] + [s[n]] == s;
      }
    }
  }

  /** `removeImage`: throws (here `None`) when the colour has no file list. */
  function RemoveImage(st: FormState, name: string, index: int): (r: Option<FormState>)
    ensures r.None? <==> name !in st.images
    ensures r.Some? ==>
              && r.value.title == st.title && r.value.description == st.description && r.value.price == st.price
              && r.value.selected == st.selected
              && r.value.images.Keys == st.images.Keys
              && r.value.images[name] == DropIndex(st.images[name], index)
              && (forall n :: n in st.images && n != name ==> r.value.images[n] == st.images[n])
  {
    if name !in st.images then None
    else Some(st.(images := st.images[name := DropIndex(st.images[name], index)]))
  }

  lemma RemoveImageDeletesOneEntry(st: FormState, name: string, index: int)
    requires name in st.images && 0 <= index < |st.images[name]|
    ensures RemoveImage(st, name, index).Some?
    ensures RemoveImage(st, name, index).value.images[name]
         == st.images[name][..index] + st.images[name][index + 1..]
  {
    DropIndexIsSplice(st.images[name], index);
  }

  // ---------------------------------------------------------------------------
  // Selection invariant.
  // ---------------------------------------------------------------------------

  datatype Edit =
    | Toggle(colour: Colour)
    | AddImages(name: string, files: Option<seq<File>>)
    | DropImage(name: string, index: int)

  function ApplyEdit(st: FormState, e: Edit): (r: Option<FormState>)
  {
    match e
    case Toggle(c) => Some(ToggleColor(st, c))
    case AddImages(n, fs) => Some(SelectImages(st, n, fs))
    case DropImage(n, i) => RemoveImage(st, n, i)
  }

  /** A session of edits; it stops at the first edit that throws. */
  function ApplyEdits(st: FormState, es: seq<Edit>): (r: Option<FormState>)
    ensures es == [] ==> r == Some(st)
    ensures r.Some? ==> r.value.title == st.title && r.value.description == st.description && r.value.price == st.price
    decreases |es|
  {
    if es == [] then Some(st)
    else match ApplyEdit(st, es[0])
      case None => None
      case Some(st') => ApplyEdits(st', es[1..])
  }

  lemma {:induction false} WithoutHexKeepsDistinct(s: seq<Colour>, hex: string)
    requires HexesDistinct(s)
    ensures HexesDistinct(WithoutHex(s, hex))
    decreases |s|
  {
    if s != [] {
      var n := |s| - 1;
      var front, x := s[..n], s[n];
      assert s == front + [x];
      DistinctFront(front, x);
      WithoutHexKeepsDistinct(front, hex);
      FilterSnoc(front, x, KeepOtherHex(hex));
      if x.hex != hex {
        SurvivorsDifferFromLast(front, x, hex);
        DistinctSnoc(WithoutHex(front, hex), x);
      }
    }
  }

  lemma DistinctFront(front: seq<Colour>, x: Colour)
    requires HexesDistinct(front + [x])
    ensures HexesDistinct(front)
  {
    assert forall i :: 0 <= i < |front| ==> (front + [x])[i] == front[i];
  }

  /** Every survivor of filtering the front has a hex other than the last entry's. */
  lemma SurvivorsDifferFromLast(front: seq<Colour>, x: Colour, hex: string)
    requires HexesDistinct(front + [x])
    ensures forall i :: 0 <= i < |WithoutHex(front, hex)| ==> WithoutHex(front, hex)[i].hex != x.hex
  {
    var s := front + [x];
    var p := WithoutHex(front, hex);
    FilterMembers(front, KeepOtherHex(hex));
    forall i | 0 <= i < |p|
      ensures p[i].hex != x.hex
    {
      assert p[i] in p;
      var k :| 0 <= k < |front| && front[k] == p[i];
      assert s[k] == front[k] && s[|front|] == x;
    }
  }

  lemma DistinctSnoc(p: seq<Colour>, x: Colour)
    requires HexesDistinct(p)
    requires forall i :: 0 <= i < |p| ==> p[i].hex != x.hex
    ensures HexesDistinct(p + [x])
  {
  }

  lemma ToggleKeepsDistinct(st: FormState, c: Colour)
    requires HexesDistinct(st.selected)
    ensures HexesDistinct(ToggleColor(st, c).selected)
  {
    if HexSelected(st.selected, c.hex) {
      WithoutHexKeepsDistinct(st.selected, c.hex);
    }
  }

  lemma {:induction false} EditsKeepDistinct(st: FormState, es: seq<Edit>)
    requires HexesDistinct(st.selected)
    ensures ApplyEdits(st, es).Some? ==> HexesDistinct(ApplyEdits(st, es).value.selected)
    decreases |es|
  {
    if es != [] {
      match es[0]
      case Toggle(c) =>
        ToggleKeepsDistinct(st, c);
        EditsKeepDistinct(ToggleColor(st, c), es[1..]);
      case AddImages(n, fs) =>
        EditsKeepDistinct(SelectImages(st, n, fs), es[1..]);
      case DropImage(n, i) =>
        if RemoveImage(st, n, i).Some? {
          EditsKeepDistinct(RemoveImage(st, n, i).value, es[1..]);
        }
    }
  }

  /** Starting from an empty form, no sequence of edits selects two entries
      with the same hex, so Green and Lime are never selected together. */
  lemma EditsFromEmptyKeepHexesDistinct(es: seq<Edit>)
    ensures ApplyEdits(EmptyForm, es).Some? ==> HexesDistinct(ApplyEdits(EmptyForm, es).value.selected)
  {
    EditsKeepDistinct(EmptyForm, es);
  }

  /** Among the presets, only Green and Lime share a hex. */
  lemma PresetHexesShareOnlyGreenLime()
    ensures PresetColors[2].name == "Green" && PresetColors[13].name == "Lime"
    ensures PresetColors[2].hex == PresetColors[13].hex
    ensures forall i, j :: 0 <= i < j < |PresetColors| && PresetColors[i].hex == PresetColors[j].hex ==> i == 2 && j == 13
  {
  }

  /** No preset name repeats, so a name keys exactly one preset's file list. */
  lemma PresetNamesDistinct()
    ensures forall i, j :: 0 <= i < j < |PresetColors| ==> PresetColors[i].name != PresetColors[j].name
  {
  }

  /** Toggling Lime while Green is selected deselects Green, but the file list
      deleted is Lime's: Green's files stay in the map. */
  lemma LimeTogglesGreenOffButKeepsItsImages(files: seq<File>)
    ensures var green := PresetColors[2];
            var lime := PresetColors[13];
            var st := EmptyForm.(selected := [green], images := map[green.name := files]);
            var r := ToggleColor(st, lime);
            r.selected == [] && r.images == map[green.name := files]
  {
    var green := PresetColors[2];
    var lime := PresetColors[13];
    assert green.hex == lime.hex && green.name != lime.name;
    var st := EmptyForm.(selected := [green], images := map[green.name := files]);
    assert HexSelected(st.selected, lime.hex) by {
      assert st.selected[0].hex == lime.hex;
    }
    var r := ToggleColor(st, lime);
    assert r.images.Keys == {green.name};
  }

  // ---------------------------------------------------------------------------
  // Submit.
  // ---------------------------------------------------------------------------

  /** `!colorImages[name] || colorImages[name].length === 0` is false. */
  predicate HasImages(images: map<string, seq<File>>, name: string)
  {
    name in images && |images[name]| > 0
  }

  /** The first selected colour, in selection order, without files. */
  function FirstWithoutImages(selected: seq<Colour>, images: map<string, seq<File>>): (r: Option<string>)
    ensures r.None? <==> forall i :: 0 <= i < |selected| ==> HasImages(images, selected[i].name)
    ensures r.Some? ==> exists k :: 0 <= k < |selected| && selected[k].name == r.value
                          && !HasImages(images, selected[k].name)
                          && forall i :: 0 <= i < k ==> HasImages(images, selected[i].name)
  {
    if selected == [] then None
    else if !HasImages(images, selected[0].name) then Some(selected[0].name)
    else
      var r := FirstWithoutImages(selected[1..], images);
      assert forall i :: 1 <= i < |selected| ==> selected[i] == selected[1..][i - 1];
      r
  }

  /** The remote calls the form makes, in order. */
  datatype Call =
    | CreateProduct(title: string, description: string, price: string, variations: seq<ColorVariation>)
    | UploadImages(productId: string, colorName: string, files: seq<File>)
    | UpdateVariations(productId: string, variations: seq<ColorVariation>)

  datatype SubmitError = NoColourSelected | NoImagesFor(colorName: string)

  datatype Outcome =
    | Rejected(reason: SubmitError)
    | CreateFailed
    | UploadFailed(colorName: string)
    | UpdateFailed
    | Created(productId: string, variations: seq<ColorVariation>)

  /** The calls made, how the attempt ended, and the form afterwards. */
  datatype Submission = Submission(calls: seq<Call>, outcome: Outcome, next: FormState)

  function UploadCall(productId: string, c: Colour, images: map<string, seq<File>>): (call: Call)
    requires c.name in images
  {
    UploadImages(productId, c.name, images[c.name])
  }

  function UploadAnswer(upload: Uploader, productId: string, c: Colour, images: map<string, seq<File>>): (answer: Option<seq<string>>)
    requires c.name in images
  {
    upload(productId, c.name, images[c.name])
  }

  /** The uploads made, the variations assembled, and the position of the
      colour whose upload failed, if one did. */
  datatype UploadRun = UploadRun(calls: seq<Call>, variations: seq<ColorVariation>, failedAt: Option<nat>)

  /** The sequential per-colour upload loop from position `from` on; the
      first failure stops it. */
  function UploadFrom(productId: string, cols: seq<Colour>, images: map<string, seq<File>>, upload: Uploader,
                      from: nat): (r: UploadRun)
    requires from <= |cols|
    requires forall i :: 0 <= i < |cols| ==> cols[i].name in images
    ensures forall i :: 0 <= i < |r.calls| ==> r.calls[i].UploadImages?
    ensures r.failedAt.None? <==> forall i :: from <= i < |cols| ==> UploadAnswer(upload, productId, cols[i], images).Some?
    ensures r.failedAt.None? ==>
              && |r.calls| == |cols| - from && |r.variations| == |cols| - from
              && forall i :: from <= i < |cols| ==>
                   && r.calls[i - from] == UploadCall(productId, cols[i], images)
                   && r.variations[i - from] == ColorVariation(cols[i].name, cols[i].hex,
                                                               UploadAnswer(upload, productId, cols[i], images).value)
    ensures r.failedAt.Some? ==>
              var k := r.failedAt.value;
              && from <= k < |cols|
              && UploadAnswer(upload, productId, cols[k], images).None?
              && (forall i :: from <= i < k ==> UploadAnswer(upload, productId, cols[i], images).Some?)
              && |r.calls| == k + 1 - from
              && (forall i :: from <= i <= k ==> r.calls[i - from] == UploadCall(productId, cols[i], images))
    decreases |cols| - from
  {
    if from == |cols| then UploadRun([], [], None)
    else
      var c := cols[from];
      var call := UploadCall(productId, c, images);
      match UploadAnswer(upload, productId, c, images)
      case None => UploadRun([call], [], Some(from))
      case Some(paths) =>
        var rest := UploadFrom(productId, cols, images, upload, from + 1);
        UploadRun([call] + rest.calls, [ColorVariation(c.name, c.hex, paths)] + rest.variations, rest.failedAt)
  }

  function UploadEach(productId: string, cols: seq<Colour>, images: map<string, seq<File>>, upload: Uploader): (run: UploadRun)
    requires forall i :: 0 <= i < |cols| ==> cols[i].name in images
  {
    UploadFrom(productId, cols, images, upload, 0)
  }

  /** `handleSubmit`. */
  function Submit(st: FormState, created: Option<string>, upload: Uploader, updateOk: bool): (r: Submission)
    ensures r.outcome.Rejected? <==>
              |st.selected| == 0 || exists i :: 0 <= i < |st.selected| && !HasImages(st.images, st.selected[i].name)
    ensures r.outcome.Rejected? ==> r.calls == [] && r.next == st
    ensures !r.outcome.Rejected? ==> |r.calls| >= 1 && r.calls[0] == CreateProduct(st.title, st.description, st.price, [])
    ensures r.outcome == CreateFailed <==> !r.outcome.Rejected? && created.None?
    ensures r.outcome == CreateFailed ==> |r.calls| == 1
    ensures r.outcome.Created? ==> r.next == EmptyForm && created == Some(r.outcome.productId)
    ensures !r.outcome.Created? ==> r.next == st
  {
    if |st.selected| == 0 then Submission([], Rejected(NoColourSelected), st)
    else match FirstWithoutImages(st.selected, st.images)
      case Some(name) => Submission([], Rejected(NoImagesFor(name)), st)
      case None =>
        var create := CreateProduct(st.title, st.description, st.price, []);
        match created
        case None => Submission([create], CreateFailed, st)
        case Some(id) =>
          var run := UploadEach(id, st.selected, st.images, upload);
          match run.failedAt
          case Some(k) => Submission([create] + run.calls, UploadFailed(st.selected[k].name), st)
          case None =>
            var update := UpdateVariations(id, run.variations);
            if updateOk then Submission([create] + run.calls + [update], Created(id, run.variations), EmptyForm)
            else Submission([create] + run.calls + [update], UpdateFailed, st)
  }

  /** On success there is one variation per selected colour, in selection
      order, with that colour's name and hex and the paths its upload
      returned; the calls were create, one upload per colour, then the update. */
  lemma SubmitSuccessAssemblesVariations(st: FormState, created: Option<string>, upload: Uploader, updateOk: bool)
    requires Submit(st, created, upload, updateOk).outcome.Created?
    ensures var r := Submit(st, created, upload, updateOk);
            var id := r.outcome.productId;
            var vs := r.outcome.variations;
            var n := |st.selected|;
            && |vs| == n
            && (forall i :: 0 <= i < n ==>
                  && st.selected[i].name in st.images
                  && vs[i] == ColorVariation(st.selected[i].name, st.selected[i].hex,
                                             upload(id, st.selected[i].name, st.images[st.selected[i].name]).value))
            && |r.calls| == n + 2
            && r.calls[0] == CreateProduct(st.title, st.description, st.price, [])
            && (forall i :: 0 <= i < n ==>
                  r.calls[i + 1] == UploadImages(id, st.selected[i].name, st.images[st.selected[i].name]))
            && r.calls[n + 1] == UpdateVariations(id, vs)
  {
  }

  /** The update is sent only after the draft was created and every colour's
      upload succeeded, and it is then the last call; conversely, once those
      hold, the update is sent. */
  lemma UpdateOnlyAfterAllUploads(st: FormState, created: Option<string>, upload: Uploader, updateOk: bool)
    ensures var r := Submit(st, created, upload, updateOk);
            var updated := exists k :: 0 <= k < |r.calls| && r.calls[k].UpdateVariations?;
            updated <==>
              && !r.outcome.Rejected?
              && created.Some?
              && forall i :: 0 <= i < |st.selected| ==>
                   st.selected[i].name in st.images
                   && upload(created.value, st.selected[i].name, st.images[st.selected[i].name]).Some?
    ensures var r := Submit(st, created, upload, updateOk);
            forall k :: 0 <= k < |r.calls| && r.calls[k].UpdateVariations? ==> k == |r.calls| - 1
  {
    var r := Submit(st, created, upload, updateOk);
    if !r.outcome.Rejected? && created.Some? {
      var run := UploadEach(created.value, st.selected, st.images, upload);
      var create := CreateProduct(st.title, st.description, st.price, []);
      assert forall i :: 0 <= i < |run.calls| ==> !run.calls[i].UpdateVariations?;
      if run.failedAt.None? {
        var update := UpdateVariations(created.value, run.variations);
        assert r.calls == [create] + run.calls + [update];
        assert r.calls[|r.calls| - 1].UpdateVariations?;
      } else {
        assert r.calls == [create] + run.calls;
      }
    }
  }

  /** A failed upload stops the loop: the last call is that colour's upload,
      whose answer was a failure, and no update follows. */
  lemma UploadFailureStopsSubmit(st: FormState, created: Option<string>, upload: Uploader, updateOk: bool)
    requires Submit(st, created, upload, updateOk).outcome.UploadFailed?
    ensures var r := Submit(st, created, upload, updateOk);
            && created.Some?
            && r.calls[|r.calls| - 1].UploadImages?
            && r.calls[|r.calls| - 1].colorName == r.outcome.colorName
            && upload(created.value, r.outcome.colorName, r.calls[|r.calls| - 1].files).None?
            && forall k :: 0 <= k < |r.calls| ==> !r.calls[k].UpdateVariations?
  {
  }

  // ---------------------------------------------------------------------------
  // Uploads answered by the upload endpoint.
  // ---------------------------------------------------------------------------

  /** The answer to one upload request posted to the upload endpoint:
      `clock(colour, i)` is the reading taken for file `i` of that colour's
      request, `ioFails(colour)` whether that request hit a file-system error;
      any non-200 answer throws. */
  function RouteAnswer(clock: (string, nat) -> nat, ioFails: string -> bool,
                       id: string, name: string, fs: seq<File>): (answer: Option<seq<string>>)
    ensures answer.Some? <==> fs != [] && id != "" && name != "" && !ioFails(name)
    ensures answer.Some? ==> |answer.value| <= |fs|
  {
    var post := UploadRoute.Post(fs, Some(id), Some(name), (i: nat) => clock(name, i), ioFails(name));
    assert Truthy(Some(id)) <==> id != "";
    assert Truthy(Some(name)) <==> name != "";
    match post
    case Uploaded(paths, _) => Some(paths)
    case BadRequest(_) => None
    case ServerError(_) => None
  }

  /** The uploader the form uses, with `/api/upload` taken to be served by the
      upload endpoint. */
  function RouteUploader(clock: (string, nat) -> nat, ioFails: string -> bool): (upload: Uploader)
    ensures forall id, name, fs :: upload(id, name, fs).Some? <==> fs != [] && id != "" && name != "" && !ioFails(name)
    ensures forall id, name, fs :: upload(id, name, fs).Some? ==> |upload(id, name, fs).value| <= |fs|
  {
    (id: string, name: string, fs: seq<File>) => RouteAnswer(clock, ioFails, id, name, fs)
  }

  /** With uploads answered by the upload endpoint, every image of a created product lies in its
      product's folder under the sanitised colour segment. */
  lemma RouteUploadsLandInColourFolders(st: FormState, created: Option<string>,
                                        clock: (string, nat) -> nat, ioFails: string -> bool, updateOk: bool)
    requires Submit(st, created, RouteUploader(clock, ioFails), updateOk).outcome.Created?
    ensures var r := Submit(st, created, RouteUploader(clock, ioFails), updateOk);
            var id := r.outcome.productId;
            forall i, k :: 0 <= i < |r.outcome.variations| && 0 <= k < |r.outcome.variations[i].images| ==>
              var folder := UploadRoute.Folder(id, UploadRoute.CleanColorName(r.outcome.variations[i].name));
              |folder| <= |r.outcome.variations[i].images[k]|
              && r.outcome.variations[i].images[k][..|folder|] == folder
  {
    var upload := RouteUploader(clock, ioFails);
    var r := Submit(st, created, upload, updateOk);
    SubmitSuccessAssemblesVariations(st, created, upload, updateOk);
    var id := r.outcome.productId;
    var vs := r.outcome.variations;
    forall i, k | 0 <= i < |vs| && 0 <= k < |vs[i].images|
      ensures var folder := UploadRoute.Folder(id, UploadRoute.CleanColorName(vs[i].name));
              |folder| <= |vs[i].images[k]| && vs[i].images[k][..|folder|] == folder
    {
      var c := st.selected[i];
      var fs := st.images[c.name];
      var post := UploadRoute.Post(fs, Some(id), Some(c.name), (j: nat) => clock(c.name, j), ioFails(c.name));
      assert post.Uploaded? && vs[i].images == post.paths;
      UploadRoute.UploadedPathsMatchAcceptedFiles(fs, id, c.name, (j: nat) => clock(c.name, j));
      var folder := UploadRoute.Folder(id, UploadRoute.CleanColorName(c.name));
      var idx := UploadRoute.AcceptedIndices(fs);
      var name := UploadRoute.FileName(clock(c.name, idx[k]), idx[k], fs[idx[k]].name);
      assert vs[i].images[k] == folder + name;
    }
  }

  /** The thumbnail a product committed through the endpoint gets on the home
      page and in the inventory list: the path stored for the first allowed
      file of the first selected colour, or the placeholder when that colour
      had no allowed file. Stored paths are never empty, so the `||` fallback
      applies only to an empty image list. */
  lemma CommittedProductThumbnails(st: FormState, created: Option<string>, clock: (string, nat) -> nat,
                                   ioFails: string -> bool, updateOk: bool, p: Product)
    requires Submit(st, created, RouteUploader(clock, ioFails), updateOk).outcome.Created?
    requires p.variations == Submit(st, created, RouteUploader(clock, ioFails), updateOk).outcome.variations
    ensures |st.selected| > 0 && st.selected[0].name in st.images
    ensures var id := Submit(st, created, RouteUploader(clock, ioFails), updateOk).outcome.productId;
            var c := st.selected[0];
            var fs := st.images[c.name];
            var idx := UploadRoute.AcceptedIndices(fs);
            && (|idx| == 0 ==>
                  Storefront.CardThumbnail(p) == Storefront.CardPlaceholder
                  && Dashboard.InventoryThumbnail(p) == Dashboard.InventoryPlaceholder)
            && (|idx| > 0 ==>
                  var first := UploadRoute.StoredPath(id, UploadRoute.CleanColorName(c.name),
                                                      UploadRoute.FileName(clock(c.name, idx[0]), idx[0], fs[idx[0]].name));
                  Storefront.CardThumbnail(p) == first && Dashboard.InventoryThumbnail(p) == first)
  {
    var upload := RouteUploader(clock, ioFails);
    var r := Submit(st, created, upload, updateOk);
    SubmitSuccessAssemblesVariations(st, created, upload, updateOk);
    var id := r.outcome.productId;
    var c := st.selected[0];
    var fs := st.images[c.name];
    var post := UploadRoute.Post(fs, Some(id), Some(c.name), (j: nat) => clock(c.name, j), ioFails(c.name));
    assert post.Uploaded? && p.variations[0].images == post.paths;
    UploadRoute.UploadedPathsMatchAcceptedFiles(fs, id, c.name, (j: nat) => clock(c.name, j));
  }

  /** As written, a colour whose files all have a disallowed media type is
      uploaded "successfully" with no paths, and the product is committed with
      a variation that has no image, although the form demanded one. */
  lemma DisallowedFilesCommitEmptyVariation(clock: (string, nat) -> nat)
    ensures var gif := UploadRoute.File("photo.gif", "image/gif");
            var red := PresetColors[0];
            var st := EmptyForm.(selected := [red], images := map[red.name := [gif]]);
            var r := Submit(st, Some("p1"), RouteUploader(clock, _ => false), true);
            r.outcome == Created("p1", [ColorVariation("Red", "#FF0000", [])])
  {
    var gif := UploadRoute.File("photo.gif", "image/gif");
    var red := PresetColors[0];
    assert !UploadRoute.IsAllowed(gif);
    UploadRoute.NoAllowedFileGivesNoPaths([gif], "p1", red.name, (j: nat) => clock(red.name, j));
  }

  /** Corrected protocol: an upload that stored nothing counts as a failed
      upload, so no colour is committed without images. */
  function NonEmptyUploads(upload: Uploader): (checked: Uploader)
  {
    (id: string, name: string, fs: seq<File>) =>
      match upload(id, name, fs)
      case Some(paths) => if paths == [] then None else Some(paths)
      case None => None
  }

  function SubmitRequiringImages(st: FormState, created: Option<string>, upload: Uploader, updateOk: bool): (r: Submission)
    ensures r.outcome.Created? ==>
              |r.outcome.variations| == |st.selected|
              && forall i :: 0 <= i < |r.outcome.variations| ==> |r.outcome.variations[i].images| > 0
  {
    var r := Submit(st, created, NonEmptyUploads(upload), updateOk);
    if r.outcome.Created? then
      SubmitSuccessAssemblesVariations(st, created, NonEmptyUploads(upload), updateOk);
      r
    else r
  }

  /** The corrected protocol refuses the request the as-written one commits. */
  lemma CorrectedSubmitRefusesEmptyVariation(clock: (string, nat) -> nat)
    ensures var gif := UploadRoute.File("photo.gif", "image/gif");
            var red := PresetColors[0];
            var st := EmptyForm.(selected := [red], images := map[red.name := [gif]]);
            SubmitRequiringImages(st, Some("p1"), RouteUploader(clock, _ => false), true).outcome == UploadFailed("Red")
  {
    var gif := UploadRoute.File("photo.gif", "image/gif");
    var red := PresetColors[0];
    assert !UploadRoute.IsAllowed(gif);
    UploadRoute.NoAllowedFileGivesNoPaths([gif], "p1", red.name, (j: nat) => clock(red.name, j));
  }
}
