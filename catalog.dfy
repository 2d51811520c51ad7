/**
 * The wallpaper catalogue: the `<image>` elements of the image metadata
 * document and `getWallpaper`, which picks one image for a weather code.
 */
module Catalog {
  import opened Wrappers
  import opened Text

  /**
   * One `<image>` element. `codes` is its `codes` attribute; `title`, `author`
   * and `file` are the texts of its child elements, `None` when the child is absent.
   */
  datatype ImageEntry = ImageEntry(
    codes: Option<string>,
    title: Option<string>,
    author: Option<string>,
    file: Option<string>)

  datatype CatalogError =
    /** The image at `index` has no `codes` attribute and no `<file>` child, so the
        diagnostic that names its file raises instead of skipping it. */
    | Unreportable(index: nat)
    /** Neither the requested code nor the error code matches any image: the
        fallback call recurses on the error code without end. */
    | Exhausted(code: string)

  /** The `codes` attribute with every space removed, split at the commas. */
  function CodeList(attribute: string): seq<string> {
    Split(RemoveChar(attribute, ' '), ',')
  }

  /**
   * No code in the list contains a space or a comma, and joining the codes with
   * commas gives back the attribute without its spaces.
   */
  lemma CodeListShape(attribute: string)
    ensures |CodeList(attribute)| >= 1
    ensures forall k :: 0 <= k < |CodeList(attribute)| ==>
              ' ' !in CodeList(attribute)[k] && ',' !in CodeList(attribute)[k]
    ensures Join(CodeList(attribute), ',') == RemoveChar(attribute, ' ')
  {
    JoinSplit(RemoveChar(attribute, ' '), ',');
  }

  /** The image is listed for `code`: it has a `codes` attribute naming it. */
  predicate Listed(image: ImageEntry, code: string) {
    image.codes.Some? && code in CodeList(image.codes.value)
  }

  /** The image's missing `codes` cannot even be reported. */
  predicate Broken(image: ImageEntry) {
    image.codes.None? && image.file.None?
  }

  /** The images listed for `code`, in document order. */
  function Matches(images: seq<ImageEntry>, code: string): (r: seq<ImageEntry>)
    ensures |r| <= |images|
  {
    if images == [] then []
    else
      var init := Matches(images[..|images| - 1], code);
      var last := images[|images| - 1];
      if Listed(last, code) then init + [last] else init
  }

  /** The matches are exactly the images listed for the code. */
  lemma {:induction false} MatchesListed(images: seq<ImageEntry>, code: string)
    ensures forall e :: e in Matches(images, code) ==> e in images && Listed(e, code)
    ensures forall e :: e in images && Listed(e, code) ==> e in Matches(images, code)
  {
    if images != [] {
      var init := images[..|images| - 1];
      MatchesListed(init, code);
      assert images == init + [images[|images| - 1]];
    }
  }

  /** The first image whose missing `codes` cannot be reported, if any. */
  function FirstBroken(images: seq<ImageEntry>): (r: Option<nat>)
    ensures r.Some? ==> r.value < |images| && Broken(images[r.value])
    ensures r.Some? ==> forall j :: 0 <= j < r.value ==> !Broken(images[j])
    ensures r.None? ==> forall j :: 0 <= j < |images| ==> !Broken(images[j])
  {
    if images == [] then None
    else if Broken(images[0]) then Some(0)
    else match FirstBroken(images[1..])
      case None => None
      case Some(i) => Some(i + 1)
  }

  /**
   * The scan of `getWallpaper`: the images listed for `code`, or the error
   * raised at the first image whose missing `codes` cannot be reported.
   */
  method CollectMatches(images: seq<ImageEntry>, code: string)
    returns (r: Result<seq<ImageEntry>, CatalogError>)
    ensures FirstBroken(images).None? ==> r == Ok(Matches(images, code))
    ensures FirstBroken(images).Some? ==> r == Err(Unreportable(FirstBroken(images).value))
  {
    var wallpaper: seq<ImageEntry> := [];
    for i := 0 to |images|
      invariant wallpaper == Matches(images[..i], code)
      invariant forall j :: 0 <= j < i ==> !Broken(images[j])
    {
      var image := images[i];
      MatchesExtend(images, i, code);
      if image.codes.None? {
        if image.file.None? {
          FirstBrokenAt(images, i);
          return Err(Unreportable(i));
        }
        continue;
      }
      if code in CodeList(image.codes.value) {
        wallpaper := wallpaper + [image];
      }
    }
    assert images[..|images|] == images;
    FirstBrokenNone(images);
    r := Ok(wallpaper);
  }

  /** One more image scanned adds it to the matches exactly when it is listed for the code. */
  lemma MatchesExtend(images: seq<ImageEntry>, i: nat, code: string)
    requires i < |images|
    ensures Matches(images[..i + 1], code)
            == if Listed(images[i], code) then Matches(images[..i], code) + [images[i]] else Matches(images[..i], code)
  {
    assert images[..i + 1][..i] == images[..i];
  }

  lemma {:induction false} FirstBrokenAt(images: seq<ImageEntry>, i: nat)
    requires i < |images| && Broken(images[i])
    requires forall j :: 0 <= j < i ==> !Broken(images[j])
    ensures FirstBroken(images) == Some(i)
  {
    if i > 0 {
      FirstBrokenAt(images[1..], i - 1);
    }
  }

  lemma {:induction false} FirstBrokenNone(images: seq<ImageEntry>)
    requires forall j :: 0 <= j < |images| ==> !Broken(images[j])
    ensures FirstBroken(images) == None
  {
    if images != [] {
      FirstBrokenNone(images[1..]);
    }
  }

  /**
   * What `getWallpaper(code)` returns. `pick` stands for the random shuffle:
   * the image it moves to the front is `matches[pick % |matches|]`. With no
   * match the call falls back to the error code; with no match for that
   * either it recurses forever, reported here as `Exhausted`.
   */
  function Selection(images: seq<ImageEntry>, code: string, errorCode: string, pick: nat)
    : (r: Result<ImageEntry, CatalogError>)
    ensures FirstBroken(images).Some? ==> r == Err(Unreportable(FirstBroken(images).value))
    ensures FirstBroken(images).None? && Matches(images, code) != [] ==>
              r.Ok? && Listed(r.value, code) && r.value in images
    ensures FirstBroken(images).None? && Matches(images, code) == [] && Matches(images, errorCode) != [] ==>
              r.Ok? && Listed(r.value, errorCode) && r.value in images
    ensures FirstBroken(images).None? && Matches(images, code) == [] && Matches(images, errorCode) == [] ==>
              r == Err(Exhausted(errorCode))
    ensures r.Ok? ==> r.value.codes.Some?
  {
    MatchesListed(images, code);
    MatchesListed(images, errorCode);
    match FirstBroken(images)
    case Some(i) => Err(Unreportable(i))
    case None =>
      var found := Matches(images, code);
      if found != [] then Ok(found[pick % |found|])
      else
        var fallback := Matches(images, errorCode);
        if fallback != [] then Ok(fallback[pick % |fallback|])
        else Err(Exhausted(errorCode))
  }

  lemma ModSmall(i: nat, n: nat)
    requires i < n
    ensures i % n == i
  {
  }

  /** Every image listed for the code is the one chosen for some outcome of the shuffle. */
  lemma SelectionReachesEveryMatch(images: seq<ImageEntry>, code: string, errorCode: string, image: ImageEntry)
    requires FirstBroken(images).None?
    requires image in images && Listed(image, code)
    ensures exists pick: nat :: Selection(images, code, errorCode, pick) == Ok(image)
  {
    var found := Matches(images, code);
    MatchesListed(images, code);
    assert image in found;
    var i :| 0 <= i < |found| && found[i] == image;
    ModSmall(i, |found|);
    assert Selection(images, code, errorCode, i) == Ok(image);
  }

  /**
   * `getWallpaper(code)`: a scan for `code`, then, if nothing matched, the
   * recursive call on the error code. When `code` already is the error code
   * that call would be this very call again, which never returns.
   */
  method GetWallpaper(images: seq<ImageEntry>, code: string, errorCode: string, pick: nat)
    returns (r: Result<ImageEntry, CatalogError>)
    ensures r == Selection(images, code, errorCode, pick)
    decreases if code == errorCode then 0 else 1
  {
    var wallpaper :- CollectMatches(images, code);
    if |wallpaper| > 0 {
      return Ok(wallpaper[pick % |wallpaper|]);
    }
    if code == errorCode {
      return Err(Exhausted(errorCode));
    }
    r := GetWallpaper(images, errorCode, errorCode, pick);
  }
}
