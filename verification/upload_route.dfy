/** The image upload endpoint (app/admin/api/upload/route.ts): validates the
    form fields, keeps the files whose media type is allowed, and derives one
    public path per kept file,
      /uploads/products/<productId>/<colour segment>/<timestamp>-<index>-<safe name>.
    The clock reading taken for each file and the outcome of the file-system
    writes are parameters; the bytes written are not modelled. */
module UploadRoute {
  import opened Common
  import Decimal

  /** A multipart file part: its original file name and declared media type. */
  datatype File = File(name: string, mediaType: string)

  const AllowedTypes: seq<string> := ["image/jpeg", "image/jpg", "image/png", "image/webp"]

  predicate IsAllowed(f: File)
  {
    f.mediaType in AllowedTypes
  }

  /** HTTP 200 with the stored paths, HTTP 400 or HTTP 500, each with its message. */
  datatype Response =
    | Uploaded(paths: seq<string>, message: string)
    | BadRequest(error: string)
    | ServerError(error: string)

  const NoFilesError: string := "No files provided"
  const MissingFieldsError: string := "Product ID and color name are required"
  const UploadFailedError: string := "Failed to upload files"
  const UploadsRoot: string := "/uploads/products/"
  const SuccessSuffix: string := " files uploaded successfully"

  // ---------------------------------------------------------------------------
  // UTF-16. The two regular expressions below have no `u` flag, so they match
  // UTF-16 code units: a character outside the Basic Multilingual Plane is two
  // units and is replaced twice.
  // ---------------------------------------------------------------------------

  /** A character that JavaScript stores as a surrogate pair. */
  predicate IsAstral(c: char)
  {
    c as int > 0xFFFF
  }

  /** Every character of `s` is a single UTF-16 code unit. */
  predicate InBmp(s: string)
  {
    forall i :: 0 <= i < |s| ==> !IsAstral(s[i])
  }

  /** JavaScript's `s.length`: the number of UTF-16 code units. */
  function Utf16Length(s: string): (n: nat)
    ensures n >= |s|
    ensures n == |s| <==> InBmp(s)
  {
    if s == [] then 0
    else
      assert forall i :: 1 <= i < |s| ==> s[i] == s[1..][i - 1];
      (if IsAstral(s[0]) then 2 else 1) + Utf16Length(s[1..])
  }

  // ---------------------------------------------------------------------------
  // Colour folder segment: lower-case, then every code unit outside [a-z0-9]
  // becomes '-' (ASCII model of `toLowerCase`).
  // ---------------------------------------------------------------------------

  predicate IsLowerAlnum(c: char)
  {
    'a' <= c <= 'z' || '0' <= c <= '9'
  }

  predicate IsUpperAscii(c: char)
  {
    'A' <= c <= 'Z'
  }

  function LowerAscii(c: char): (l: char)
    ensures !IsUpperAscii(l)
    ensures IsUpperAscii(c) ==> 'a' <= l <= 'z' && l as int == c as int + 32
    ensures !IsUpperAscii(c) ==> l == c
  {
    if IsUpperAscii(c) then (c as int + 32) as char else c
  }

  /** The code units one character becomes in the colour segment. */
  function CleanColorChar(c: char): (units: string)
  {
    if IsAstral(c) then "--"
    else
      var l := LowerAscii(c);
      [if IsLowerAlnum(l) then l else '-']
  }

  /** The folder segment for a colour name: one output character per UTF-16
      code unit of the input, lower-case letters and digits kept, everything
      else replaced by one '-' (runs are not collapsed). */
  function CleanColorName(s: string): (r: string)
    ensures |r| == Utf16Length(s)
    ensures forall i :: 0 <= i < |r| ==> IsLowerAlnum(r[i]) || r[i] == '-'
    ensures InBmp(s) ==> forall i :: 0 <= i < |s| && IsLowerAlnum(LowerAscii(s[i])) ==> r[i] == LowerAscii(s[i])
    ensures InBmp(s) ==> forall i :: 0 <= i < |s| && !IsLowerAlnum(LowerAscii(s[i])) ==> r[i] == '-'
  {
    CleanUnits(s);
    FlatMap(s, CleanColorChar)
  }

  lemma {:induction false} CleanUnits(s: string)
    ensures var r := FlatMap(s, CleanColorChar);
            && |r| == Utf16Length(s)
            && (forall i :: 0 <= i < |r| ==> IsLowerAlnum(r[i]) || r[i] == '-')
            && (InBmp(s) ==> forall i :: 0 <= i < |s| && IsLowerAlnum(LowerAscii(s[i])) ==> r[i] == LowerAscii(s[i]))
            && (InBmp(s) ==> forall i :: 0 <= i < |s| && !IsLowerAlnum(LowerAscii(s[i])) ==> r[i] == '-')
    decreases |s|
  {
    if s != [] {
      CleanUnits(s[1..]);
      assert forall i :: 1 <= i < |s| ==> s[i] == s[1..][i - 1];
    }
  }

  /** The segment of a concatenation is the concatenation of the segments, so
      each character is cleaned on its own. */
  lemma CleanColorNameConcat(a: string, b: string)
    ensures CleanColorName(a + b) == CleanColorName(a) + CleanColorName(b)
  {
    FlatMapConcat(a, b, CleanColorChar);
  }

  /** A character outside the Basic Multilingual Plane becomes two dashes. */
  lemma CleanColorNameOfAstral(c: char)
    requires IsAstral(c)
    ensures CleanColorName([c]) == "--"
  {
  }

  /** "Red" followed by U+1F525 gives "red--". */
  lemma CleanColorNameOfEmojiName()
    ensures CleanColorName("Red\U{1F525}") == "red--"
  {
  }

  lemma CleanColorNameIsLowerCase(s: string)
    ensures forall i :: 0 <= i < |CleanColorName(s)| ==> !IsUpperAscii(CleanColorName(s)[i])
  {
  }

  lemma CleanColorNameIdempotent(s: string)
    ensures CleanColorName(CleanColorName(s)) == CleanColorName(s)
  {
  }

  // ---------------------------------------------------------------------------
  // Original file name: characters in [A-Za-z0-9.-] kept, every other code
  // unit becomes '_'.
  // ---------------------------------------------------------------------------

  predicate IsNameSafe(c: char)
  {
    'a' <= c <= 'z' || 'A' <= c <= 'Z' || '0' <= c <= '9' || c == '.' || c == '-'
  }

  /** The code units one character becomes in the stored file name. */
  function SafeNameChar(c: char): (units: string)
  {
    if IsAstral(c) then "__" else [if IsNameSafe(c) then c else '_']
  }

  function SafeFileName(s: string): (r: string)
    ensures |r| == Utf16Length(s)
    ensures forall i :: 0 <= i < |r| ==> IsNameSafe(r[i]) || r[i] == '_'
    ensures InBmp(s) ==> forall i :: 0 <= i < |s| && IsNameSafe(s[i]) ==> r[i] == s[i]
    ensures InBmp(s) ==> forall i :: 0 <= i < |s| && !IsNameSafe(s[i]) ==> r[i] == '_'
  {
    SafeUnits(s);
    FlatMap(s, SafeNameChar)
  }

  lemma {:induction false} SafeUnits(s: string)
    ensures var r := FlatMap(s, SafeNameChar);
            && |r| == Utf16Length(s)
            && (forall i :: 0 <= i < |r| ==> IsNameSafe(r[i]) || r[i] == '_')
            && (InBmp(s) ==> forall i :: 0 <= i < |s| && IsNameSafe(s[i]) ==> r[i] == s[i])
            && (InBmp(s) ==> forall i :: 0 <= i < |s| && !IsNameSafe(s[i]) ==> r[i] == '_')
    decreases |s|
  {
    if s != [] {
      SafeUnits(s[1..]);
      assert forall i :: 1 <= i < |s| ==> s[i] == s[1..][i - 1];
    }
  }

  /** The safe name of a concatenation is the concatenation of the safe names. */
  lemma SafeFileNameConcat(a: string, b: string)
    ensures SafeFileName(a + b) == SafeFileName(a) + SafeFileName(b)
  {
    FlatMapConcat(a, b, SafeNameChar);
  }

  /** A character outside the Basic Multilingual Plane becomes two underscores. */
  lemma SafeFileNameOfAstral(c: char)
    requires IsAstral(c)
    ensures SafeFileName([c]) == "__"
  {
  }

  /** U+1F600 followed by ".png" gives "__.png". */
  lemma SafeFileNameOfEmojiName()
    ensures SafeFileName("\U{1F600}.png") == "__.png"
  {
  }

  lemma SafeFileNameIdempotent(s: string)
    ensures SafeFileName(SafeFileName(s)) == SafeFileName(s)
  {
  }

  // ---------------------------------------------------------------------------
  // File names and paths.
  // ---------------------------------------------------------------------------

  /** `${a}-${b}` */
  function DashJoin(a: string, b: string): (r: string)
  {
    a + "-" + b
  }

  /** `${timestamp}-${i}-${originalName}` */
  function FileName(timestamp: nat, index: nat, original: string): (r: string)
    ensures var t := Decimal.ToDecimal(timestamp); |t| < |r| && r[..|t|] == t && r[|t|] == '-'
    ensures var n := SafeFileName(original); |n| < |r| && r[|r| - |n|..] == n
  {
    DashJoin(Decimal.ToDecimal(timestamp), DashJoin(Decimal.ToDecimal(index), SafeFileName(original)))
  }

  /** `/uploads/products/${productId}/${cleanColorName}/` */
  function Folder(productId: string, segment: string): (r: string)
  {
    UploadsRoot + productId + "/" + segment + "/"
  }

  /** `/uploads/products/${productId}/${cleanColorName}/${filename}` */
  function StoredPath(productId: string, segment: string, fileName: string): (r: string)
    ensures |UploadsRoot| < |r| && r[..|UploadsRoot|] == UploadsRoot
    ensures |fileName| < |r| && r[|r| - |fileName|..] == fileName
  {
    Folder(productId, segment) + fileName
  }

  /** The path stored for the file `f` found at position `i` of the request,
      given the clock reading taken while handling it. */
  function PathOf(productId: string, segment: string, clock: nat -> nat, i: nat, f: File): (r: string)
  {
    StoredPath(productId, segment, FileName(clock(i), i, f.name))
  }

  /** The per-file loop: position `i` is next, `stored` holds the paths pushed so far.
      A file of a disallowed type is skipped; each other file pushes `pathOf(i, file)`. */
  function StoreFrom(files: seq<File>, pathOf: (nat, File) -> string, i: nat, stored: seq<string>): (r: seq<string>)
    requires i <= |files|
    ensures |stored| <= |r| <= |stored| + (|files| - i)
    ensures r[..|stored|] == stored
    decreases |files| - i
  {
    if i == |files| then stored
    else if !IsAllowed(files[i]) then StoreFrom(files, pathOf, i + 1, stored)
    else
      var next := stored + [pathOf(i, files[i])];
      assert next[..|stored|] == stored;
      StoreFrom(files, pathOf, i + 1, next)
  }

  /** Reference definition of the kept files: the positions, in input order,
      of exactly the files whose media type is allowed. */
  function AcceptedIndices(files: seq<File>): (idx: seq<nat>)
    ensures |idx| <= |files|
    ensures forall k :: 0 <= k < |idx| ==> idx[k] < |files| && IsAllowed(files[idx[k]])
    ensures forall j, k :: 0 <= j < k < |idx| ==> idx[j] < idx[k]
    ensures forall i :: 0 <= i < |files| && IsAllowed(files[i]) ==> i in idx
  {
    if files == [] then []
    else
      var front := files[..|files| - 1];
      var p := AcceptedIndices(front);
      assert forall i :: 0 <= i < |front| ==> front[i] == files[i];
      if IsAllowed(files[|files| - 1]) then p + [|files| - 1] else p
  }

  /** `pathOf` applied to the files at the given positions. */
  function PathsAt(files: seq<File>, pathOf: (nat, File) -> string, idx: seq<nat>): (r: seq<string>)
    requires forall k :: 0 <= k < |idx| ==> idx[k] < |files|
    ensures |r| == |idx|
  {
    seq(|idx|, k requires 0 <= k < |idx| => pathOf(idx[k], files[idx[k]]))
  }

  /** The request handler. Validation order: no files, then a missing or empty
      product id or colour name; after that any file-system failure is a 500. */
  function Post(files: seq<File>, productId: Option<string>, colorName: Option<string>,
                clock: nat -> nat, ioFails: bool): (r: Response)
    ensures files == [] ==> r == BadRequest(NoFilesError)
    ensures files != [] && (!Truthy(productId) || !Truthy(colorName)) ==> r == BadRequest(MissingFieldsError)
    ensures r.Uploaded? <==> files != [] && Truthy(productId) && Truthy(colorName) && !ioFails
    ensures r.ServerError? <==> files != [] && Truthy(productId) && Truthy(colorName) && ioFails
    ensures r.ServerError? ==> r.error == UploadFailedError
    ensures r.Uploaded? ==> |r.paths| <= |files| && r.message == Decimal.ToDecimal(|r.paths|) + SuccessSuffix
  {
    if |files| == 0 then BadRequest(NoFilesError)
    else if !Truthy(productId) || !Truthy(colorName) then BadRequest(MissingFieldsError)
    else if ioFails then ServerError(UploadFailedError)
    else
      var segment := CleanColorName(colorName.value);
      var paths := StoreFrom(files, (i: nat, f: File) => PathOf(productId.value, segment, clock, i, f), 0, []);
      Uploaded(paths, Decimal.ToDecimal(|paths|) + SuccessSuffix)
  }

  // ---------------------------------------------------------------------------
  // Properties of the returned paths.
  // ---------------------------------------------------------------------------

  /** Extending the input by one position extends the kept positions by that
      position exactly when its file is allowed. */
  lemma AcceptedIndicesStep(files: seq<File>, i: nat)
    requires i < |files|
    ensures AcceptedIndices(files[..i + 1])
         == AcceptedIndices(files[..i]) + (if IsAllowed(files[i]) then [i] else [])
  {
    assert files[..i + 1][..i] == files[..i];
  }

  lemma PathsAtSnoc(files: seq<File>, pathOf: (nat, File) -> string, idx: seq<nat>, i: nat)
    requires i < |files|
    requires forall k :: 0 <= k < |idx| ==> idx[k] < |files|
    ensures PathsAt(files, pathOf, idx + [i]) == PathsAt(files, pathOf, idx) + [pathOf(i, files[i])]
  {
  }

  lemma {:induction false} StoreFromMatchesReference(files: seq<File>, pathOf: (nat, File) -> string, i: nat)
    requires i <= |files|
    ensures forall k :: 0 <= k < |AcceptedIndices(files[..i])| ==> AcceptedIndices(files[..i])[k] < i
    ensures StoreFrom(files, pathOf, i, PathsAt(files, pathOf, AcceptedIndices(files[..i])))
         == PathsAt(files, pathOf, AcceptedIndices(files))
    decreases |files| - i
  {
    var pre := AcceptedIndices(files[..i]);
    assert forall k :: 0 <= k < |pre| ==> pre[k] < |files[..i]|;
    var stored := PathsAt(files, pathOf, pre);
    if i < |files| {
      StoreFromMatchesReference(files, pathOf, i + 1);
      AcceptedIndicesStep(files, i);
      var post := AcceptedIndices(files[..i + 1]);
      if IsAllowed(files[i]) {
        PathsAtSnoc(files, pathOf, pre, i);
        calc {
          StoreFrom(files, pathOf, i, stored);
          StoreFrom(files, pathOf, i + 1, stored + [pathOf(i, files[i])]);
          { assert post == pre + [i]; }
          StoreFrom(files, pathOf, i + 1, PathsAt(files, pathOf, post));
        }
      } else {
        assert post == pre;
        assert StoreFrom(files, pathOf, i, stored) == StoreFrom(files, pathOf, i + 1, PathsAt(files, pathOf, post));
      }
    } else {
      assert files[..i] == files;
    }
  }

  /** The returned paths correspond one-to-one, in input order, to the files
      whose type is allowed, and each is built from that file's own position,
      clock reading and sanitised name. */
  lemma UploadedPathsMatchAcceptedFiles(files: seq<File>, productId: string, colorName: string, clock: nat -> nat)
    requires files != [] && productId != "" && colorName != ""
    ensures var r := Post(files, Some(productId), Some(colorName), clock, false);
            var idx := AcceptedIndices(files);
            && r.Uploaded?
            && |r.paths| == |idx|
            && forall k :: 0 <= k < |idx| ==>
                 r.paths[k] == StoredPath(productId, CleanColorName(colorName),
                                          FileName(clock(idx[k]), idx[k], files[idx[k]].name))
  {
    var segment := CleanColorName(colorName);
    var pathOf := (i: nat, f: File) => PathOf(productId, segment, clock, i, f);
    StoreFromMatchesReference(files, pathOf, 0);
    assert files[..0] == [];
    assert files[..|files|] == files;
  }

  predicate NoDash(s: string)
  {
    forall i :: 0 <= i < |s| ==> s[i] != '-'
  }

  /** A dash-free head is recovered from `head-tail`. */
  lemma SplitAtFirstDash(a: string, x: string, b: string, y: string)
    requires NoDash(a) && NoDash(b)
    requires DashJoin(a, x) == DashJoin(b, y)
    ensures a == b && x == y
  {
    var w := DashJoin(a, x);
    assert w[|a|] == '-';
    assert DashJoin(b, y)[|b|] == '-';
    assert |a| == |b|;
    assert a == w[..|a|];
    assert b == DashJoin(b, y)[..|b|];
    assert x == w[|a| + 1..];
    assert y == DashJoin(b, y)[|b| + 1..];
  }

  lemma DecimalHasNoDash(n: nat)
    ensures NoDash(Decimal.ToDecimal(n))
  {
  }

  /** Because the timestamp and the index are digit-only and each is followed
      by '-', a file name determines the timestamp and index it was built from. */
  lemma FileNameDeterminesIndex(t1: nat, i1: nat, n1: string, t2: nat, i2: nat, n2: string)
    requires FileName(t1, i1, n1) == FileName(t2, i2, n2)
    ensures i1 == i2 && t1 == t2
  {
    DecimalHasNoDash(t1); DecimalHasNoDash(t2); DecimalHasNoDash(i1); DecimalHasNoDash(i2);
    var tail1 := DashJoin(Decimal.ToDecimal(i1), SafeFileName(n1));
    var tail2 := DashJoin(Decimal.ToDecimal(i2), SafeFileName(n2));
    SplitAtFirstDash(Decimal.ToDecimal(t1), tail1, Decimal.ToDecimal(t2), tail2);
    SplitAtFirstDash(Decimal.ToDecimal(i1), SafeFileName(n1), Decimal.ToDecimal(i2), SafeFileName(n2));
    Decimal.ToDecimalInjective(i1, i2);
    Decimal.ToDecimalInjective(t1, t2);
  }

  lemma SamePrefixSameRest(p: string, a: string, b: string)
    requires p + a == p + b
    ensures a == b
  {
    assert a == (p + a)[|p|..];
    assert b == (p + b)[|p|..];
  }

  /** Within one request every returned path is different, whatever the clock
      readings and file names are. */
  lemma UploadedPathsDistinct(files: seq<File>, productId: string, colorName: string, clock: nat -> nat)
    requires files != [] && productId != "" && colorName != ""
    ensures var r := Post(files, Some(productId), Some(colorName), clock, false);
            forall j, k :: 0 <= j < k < |r.paths| ==> r.paths[j] != r.paths[k]
  {
    var r := Post(files, Some(productId), Some(colorName), clock, false);
    var idx := AcceptedIndices(files);
    var segment := CleanColorName(colorName);
    UploadedPathsMatchAcceptedFiles(files, productId, colorName, clock);
    forall j, k | 0 <= j < k < |r.paths|
      ensures r.paths[j] != r.paths[k]
    {
      var folder := Folder(productId, segment);
      var fj := FileName(clock(idx[j]), idx[j], files[idx[j]].name);
      var fk := FileName(clock(idx[k]), idx[k], files[idx[k]].name);
      if r.paths[j] == r.paths[k] {
        SamePrefixSameRest(folder, fj, fk);
        FileNameDeterminesIndex(clock(idx[j]), idx[j], files[idx[j]].name,
                                clock(idx[k]), idx[k], files[idx[k]].name);
      }
    }
  }

  /** The longest run of digits at the start of a string. */
  function LeadingDigits(s: string): (d: string)
    ensures Decimal.AllDigits(d)
  {
    if s != [] && Decimal.IsDigit(s[0]) then [s[0]] + LeadingDigits(s[1..]) else []
  }

  lemma {:induction false} LeadingDigitsOfConcat(d: string, rest: string)
    requires Decimal.AllDigits(d)
    requires rest != [] && !Decimal.IsDigit(rest[0])
    ensures LeadingDigits(d + rest) == d
    decreases |d|
  {
    if d != [] {
      assert (d + rest)[1..] == d[1..] + rest;
      LeadingDigitsOfConcat(d[1..], rest);
    } else {
      assert d + rest == rest;
    }
  }

  /** The number at the head of the success message is the number of returned paths. */
  lemma SuccessMessageCountsPaths(files: seq<File>, productId: Option<string>, colorName: Option<string>, clock: nat -> nat)
    requires Post(files, productId, colorName, clock, false).Uploaded?
    ensures var r := Post(files, productId, colorName, clock, false);
            Decimal.ParseDecimal(LeadingDigits(r.message)) == |r.paths|
  {
    var r := Post(files, productId, colorName, clock, false);
    LeadingDigitsOfConcat(Decimal.ToDecimal(|r.paths|), SuccessSuffix);
    Decimal.ParseToDecimal(|r.paths|);
  }

  lemma {:induction false} NoAllowedFileNoIndices(files: seq<File>)
    requires forall i :: 0 <= i < |files| ==> !IsAllowed(files[i])
    ensures AcceptedIndices(files) == []
    decreases |files|
  {
    if files != [] {
      NoAllowedFileNoIndices(files[..|files| - 1]);
    }
  }

  /** Files of a disallowed type are skipped, not refused: a request in which
      no file has an allowed type still succeeds, with no paths. */
  lemma NoAllowedFileGivesNoPaths(files: seq<File>, productId: string, colorName: string, clock: nat -> nat)
    requires files != [] && productId != "" && colorName != ""
    requires forall i :: 0 <= i < |files| ==> !IsAllowed(files[i])
    ensures Post(files, Some(productId), Some(colorName), clock, false) == Uploaded([], "0" + SuccessSuffix)
  {
    UploadedPathsMatchAcceptedFiles(files, productId, colorName, clock);
    NoAllowedFileNoIndices(files);
  }
}
