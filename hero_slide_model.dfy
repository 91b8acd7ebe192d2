/**
 * The hero slide model's accessors: the public URL of the slide's image and
 * whether its file is on the public disk.
 */
module HeroSlideModel {
  import opened Wrappers
  import opened Php
  import opened Records
  import opened Uploads

  /** Paths under this prefix are static files served by the front end. */
  const StaticPrefix: string := "/images/"

  /**
   * `image_url`: null without a truthy path, a static path as it is, and
   * otherwise the public disk's URL for the path (`url`).
   */
  function ImageUrl(s: HeroSlide, url: string -> string): (r: Option<string>)
    ensures r.None? <==> SlotPath(s.image).None?
    ensures r.Some? && StartsWith(s.image.value.path, StaticPrefix) ==> r.value == s.image.value.path
    ensures r.Some? && !StartsWith(s.image.value.path, StaticPrefix) ==> r.value == url(s.image.value.path)
  {
    match SlotPath(s.image)
    case None => None
    case Some(p) => if StartsWith(p, StaticPrefix) then Some(p) else Some(url(p))
  }

  /** `imageExists()`: the path is truthy and the public disk holds it. */
  predicate ImageExists(s: HeroSlide, disk: set<string>)
  {
    SlotPath(s.image).Some? && SlotPath(s.image).value in disk
  }

  /** A slide without an image, or with an empty or "0" path, has no URL and no file. */
  lemma NoPathNoImage(s: HeroSlide, url: string -> string, disk: set<string>)
    requires s.image.None? || s.image.value.path == "" || s.image.value.path == "0"
    ensures ImageUrl(s, url).None? && !ImageExists(s, disk)
  {
  }

  /** How the URL depends on the path: static paths are never passed to `url`. */
  lemma UrlOfPath(s: HeroSlide, url: string -> string, p: string, name: string)
    requires s.image == Some(Attachment(p, name)) && p != "" && p != "0"
    ensures StartsWith(p, StaticPrefix) ==> ImageUrl(s, url) == Some(p)
    ensures !StartsWith(p, StaticPrefix) ==> ImageUrl(s, url) == Some(url(p))
  {
  }
}
