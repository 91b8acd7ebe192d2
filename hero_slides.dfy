/**
 * The administrator's hero slides: the list order, validation of the create
 * and edit forms, the sanitised multilingual texts, the stored image with the
 * remove-or-replace step of an edit, and deletion with the stored image.
 */
module AdminHeroSlides {
  import opened Wrappers
  import opened Php
  import opened Sorting
  import opened Records
  import opened Http
  import opened Validation
  import opened Uploads
  import opened HeroSlideModel

  /** The locales whose title and subtitle entries are sanitised. */
  const Locales: set<string> := {"fr", "ar", "en"}

  // Index

  /** `orderBy('order')->orderBy('created_at', 'desc')`. */
  function ListOrder(s: HeroSlide): Key
  {
    Key(s.order, -s.createdAt)
  }

  /** `index`: every slide, ordered by position and then newest first. */
  function Index(rows: seq<HeroSlide>): seq<HeroSlide>
  {
    SortBy(rows, ListOrder)
  }

  /** The list holds every slide once, by ascending position and, for equal positions, newest first. */
  lemma IndexOrdered(rows: seq<HeroSlide>)
    ensures multiset(Index(rows)) == multiset(rows)
    ensures forall i, j :: 0 <= i < j < |Index(rows)| ==>
              Index(rows)[i].order < Index(rows)[j].order
              || (Index(rows)[i].order == Index(rows)[j].order && Index(rows)[i].createdAt >= Index(rows)[j].createdAt)
  {
    SortBySortedPermutation(rows, ListOrder);
  }

  // The stored image

  /** `storeAs('hero_slides', 'hero_' . time() . '_' . token . '.' . extension)`. */
  function StoredPath(time: nat, token: string, clientName: string): string
  {
    "hero_slides/hero_" + NatToString(time) + "_" + token + "." + Extension(clientName)
  }

  /**
   * A stored image lies under "hero_slides/hero_", is not a static path,
   * and keeps the client's extension.
   */
  lemma StoredPathShape(time: nat, token: string, clientName: string)
    ensures StartsWith(StoredPath(time, token, clientName), "hero_slides/hero_")
    ensures !StartsWith(StoredPath(time, token, clientName), StaticPrefix)
    ensures Extension(StoredPath(time, token, clientName)) == Extension(clientName)
  {
    var p := StoredPath(time, token, clientName);
    var t := "hero_slides/hero_" + NatToString(time) + "_" + token;
    LastDotOfAppended(t, Extension(clientName));
    assert p[..17] == "hero_slides/hero_";
    assert p[0] != StaticPrefix[0];
    assert p[|t| + 1..] == Extension(clientName);
  }

  /** Uploads stored at different seconds never share a path, whatever their tokens. */
  lemma StoredPathsDistinct(t1: nat, t2: nat, tok1: string, tok2: string, n1: string, n2: string)
    requires t1 != t2
    ensures StoredPath(t1, tok1, n1) != StoredPath(t2, tok2, n2)
  {
    var a, b := NatToString(t1), NatToString(t2);
    NatToStringInjective(t1, t2);
    var p1, p2 := StoredPath(t1, tok1, n1), StoredPath(t2, tok2, n2);
    assert p1[17..17 + |a|] == a && p1[17 + |a|] == '_';
    assert p2[17..17 + |b|] == b && p2[17 + |b|] == '_';
    if |a| == |b| {
      var i :| 0 <= i < |a| && a[i] != b[i];
      assert p1[17 + i] != p2[17 + i];
    } else if |a| < |b| {
      assert p1[17 + |a|] != p2[17 + |a|];
    } else {
      assert p1[17 + |b|] != p2[17 + |b|];
    }
  }

  // Create

  /** Each listed locale that is set holds at most `n` characters. */
  predicate LocalesMax(t: Text, locales: set<string>, n: nat)
  {
    forall l :: l in t && l in locales ==> |t[l]| <= n
  }

  datatype StoreRequest = StoreRequest(
    title: Field<Text>, subtitle: Field<Text>, order: Field<int>, isActive: Field<bool>,
    gradient: Field<string>, image: Field<UploadedFile>)

  /**
   * `title.fr` and the image are required; titles are at most 255 and
   * subtitles at most 500 characters; `order` is at least 0; the image is a
   * jpeg/jpg/png of at most 10 MB whose content is an image.
   */
  predicate StoreValid(q: StoreRequest)
  {
    NameWithFrench(q.title) && LocalesMax(q.title.value, Locales, 255)
    && (q.subtitle.Has() ==> q.subtitle.Given? && LocalesMax(q.subtitle.value, Locales, 500))
    && (q.order.Has() ==> q.order.Given? && q.order.value >= 0)
    && (q.isActive.Has() ==> q.isActive.Given?)
    && NullableMax(q.gradient, 100)
    && RequiredFile(q.image, ImageTypes, MaxKilobytes)
    && ContentIsImage(q.image.value) && q.image.value.size <= MaxBytes
  }

  /** The slide `store` creates at time `now`, its image stored with the random `token`. */
  function NewSlide(id: Id, q: StoreRequest, now: nat, token: string, strip: string -> string): (s: HeroSlide)
    requires StoreValid(q)
    ensures s.id == id && s.createdAt == now
    ensures s.title.Keys == q.title.value.Keys && s.title["fr"] == strip(Trim(q.title.value["fr"]))
    ensures s.title == StripLocales(q.title.value, Locales, strip)
    ensures s.subtitle == Some(StripLocales(q.subtitle.OrElse(map[]), Locales, strip))
    ensures s.image == Some(Attachment(StoredPath(now, token, q.image.value.clientName),
                                       DisplayFilename(q.image.value.clientName)))
    ensures s.order >= 0 && s.order == q.order.OrElse(0)
    ensures s.isActive == q.isActive.OrElse(true) && s.gradient == q.gradient.AsOption()
  {
    var f := q.image.value;
    HeroSlide(id, StripLocales(q.title.value, Locales, strip), Some(StripLocales(q.subtitle.OrElse(map[]), Locales, strip)),
              Some(Attachment(StoredPath(now, token, f.clientName), DisplayFilename(f.clientName))),
              q.order.OrElse(0), q.isActive.OrElse(true), q.gradient.AsOption(), now)
  }

  /** A created slide's image is on the disk it was stored to and is served through the disk's URL. */
  lemma NewSlideImage(id: Id, q: StoreRequest, now: nat, token: string, strip: string -> string,
                      disk: set<string>, url: string -> string)
    requires StoreValid(q)
    ensures var s := NewSlide(id, q, now, token, strip);
            ImageExists(s, disk + {StoredPath(now, token, q.image.value.clientName)})
            && ImageUrl(s, url) == Some(url(StoredPath(now, token, q.image.value.clientName)))
  {
    var s := NewSlide(id, q, now, token, strip);
    var p := StoredPath(now, token, q.image.value.clientName);
    StoredPathShape(now, token, q.image.value.clientName);
    assert p != "" && p != "0" by {
      assert p[0] == 'h';
    }
    UrlOfPath(s, url, p, DisplayFilename(q.image.value.clientName));
  }

  /** `store`: validate, store the image, create the slide. */
  method Store(db: Database, q: StoreRequest, now: nat, token: string, strip: string -> string)
    returns (r: Response, id: Id)
    modifies db`heroSlides, db`publicDisk
    ensures !StoreValid(q) ==>
              r == ValidationError && db.heroSlides == old(db.heroSlides) && db.publicDisk == old(db.publicDisk)
    ensures StoreValid(q) ==>
              r == Created && id !in old(db.heroSlides)
              && db.heroSlides == old(db.heroSlides)[id := NewSlide(id, q, now, token, strip)]
              && db.publicDisk == old(db.publicDisk) + {StoredPath(now, token, q.image.value.clientName)}
  {
    id := 1;
    if !StoreValid(q) {
      return ValidationError, id;
    }
    db.publicDisk := db.publicDisk + {StoredPath(now, token, q.image.value.clientName)};
    id := NextId(db.heroSlides.Keys);
    db.heroSlides := db.heroSlides[id := NewSlide(id, q, now, token, strip)];
    r := Created;
  }

  // Edit

  datatype UpdateRequest = UpdateRequest(
    title: Field<Text>, subtitle: Field<Text>, order: Field<int>, isActive: Field<bool>,
    gradient: Field<string>, image: Field<UploadedFile>, removeImage: Field<bool>)

  /**
   * Every key is optional; a title sent has titles of at most 255
   * characters, subtitles are not limited, and an image sent is a
   * jpeg/jpg/png of at most 10240 kilobytes whose content is an image.
   */
  predicate UpdateValid(q: UpdateRequest)
  {
    (q.title.Has() ==> q.title.Given? && LocalesMax(q.title.value, Locales, 255))
    && (q.subtitle.Has() ==> q.subtitle.Given?)
    && (q.order.Has() ==> q.order.Given? && q.order.value >= 0)
    && (q.isActive.Has() ==> q.isActive.Given?)
    && NullableMax(q.gradient, 100)
    && (q.image.Given? ==> FileRule(q.image.value, ImageTypes, MaxKilobytes) && ContentIsImage(q.image.value))
    && (q.removeImage.Has() ==> q.removeImage.Given?)
  }

  /** The image step of `update`: removal when `remove_image` is true, else a new upload if one is sent. */
  function ImageStep(s: HeroSlide, q: UpdateRequest, now: nat, token: string): SlotStep
  {
    match q.image
    case Given(f) => UpdateSlot(s.image, q.removeImage == Given(true), Some(f), StoredPath(now, token, f.clientName))
    case _ => UpdateSlot(s.image, q.removeImage == Given(true), None, "")
  }

  /** The slide after `update`: each column sent is replaced, the rest are kept. */
  function ApplyUpdate(s: HeroSlide, q: UpdateRequest, now: nat, token: string, strip: string -> string): (t: HeroSlide)
    ensures t.id == s.id && t.createdAt == s.createdAt
    ensures q.title.Given? ==> t.title == StripLocales(q.title.value, Locales, strip)
    ensures !q.title.Given? ==> t.title == s.title
    ensures q.subtitle.Given? ==> t.subtitle == Some(StripLocales(q.subtitle.value, Locales, strip))
    ensures !q.subtitle.Given? ==> t.subtitle == s.subtitle
    ensures t.order == q.order.OrElse(s.order) && t.isActive == q.isActive.OrElse(s.isActive)
    ensures t.gradient == q.gradient.Overwrite(s.gradient)
    ensures t.image == ImageStep(s, q, now, token).next
  {
    s.(title := if q.title.Given? then StripLocales(q.title.value, Locales, strip) else s.title,
       subtitle := if q.subtitle.Given? then Some(StripLocales(q.subtitle.value, Locales, strip)) else s.subtitle,
       order := q.order.OrElse(s.order), isActive := q.isActive.OrElse(s.isActive),
       gradient := q.gradient.Overwrite(s.gradient), image := ImageStep(s, q, now, token).next)
  }

  /**
   * `remove_image` wins over a new image: the slide loses its image, the old
   * file is deleted and nothing is stored.
   */
  lemma RemoveImageWins(s: HeroSlide, q: UpdateRequest, now: nat, token: string, strip: string -> string)
    requires q.removeImage == Given(true)
    ensures ApplyUpdate(s, q, now, token, strip).image.None?
    ensures ImageStep(s, q, now, token) == SlotStep(None, SlotPath(s.image), None)
    ensures ImageStep(s, q, now, token) == ImageStep(s, q.(image := Absent), now, token)
  {
  }

  /** A new image without removal replaces the old one, whose file is deleted. */
  lemma NewImageReplaces(s: HeroSlide, q: UpdateRequest, now: nat, token: string, strip: string -> string)
    requires q.removeImage != Given(true) && q.image.Given?
    ensures var p := StoredPath(now, token, q.image.value.clientName);
            ApplyUpdate(s, q, now, token, strip).image == Some(Attachment(p, DisplayFilename(q.image.value.clientName)))
            && ImageStep(s, q, now, token) == SlotStep(Some(Attachment(p, DisplayFilename(q.image.value.clientName))),
                                                       SlotPath(s.image), Some(p))
  {
  }

  /** An update that sends nothing leaves the slide as it is. */
  lemma EmptyUpdateKeepsSlide(s: HeroSlide, now: nat, token: string, strip: string -> string)
    ensures ApplyUpdate(s, UpdateRequest(Absent, Absent, Absent, Absent, Absent, Absent, Absent), now, token, strip) == s
    ensures ImageStep(s, UpdateRequest(Absent, Absent, Absent, Absent, Absent, Absent, Absent), now, token)
            == SlotStep(s.image, None, None)
  {
  }

  /**
   * After an update whose old file was on the disk, the slide's image is on
   * the disk, and a replaced or removed file is gone unless the new one
   * landed on the same path.
   */
  lemma UpdateKeepsImageStored(s: HeroSlide, q: UpdateRequest, now: nat, token: string, strip: string -> string,
                               disk: set<string>)
    requires SlotPath(s.image).Some? ==> SlotPath(s.image).value in disk
    ensures var t := ApplyUpdate(s, q, now, token, strip);
            var d := DiskAfter(disk, ImageStep(s, q, now, token));
            SlotPath(t.image).Some? ==> ImageExists(t, d)
  {
    match q.image
    case Given(f) =>
      SlotKeepsDiskInStep(disk, s.image, q.removeImage == Given(true), Some(f), StoredPath(now, token, f.clientName));
    case _ =>
      SlotKeepsDiskInStep(disk, s.image, q.removeImage == Given(true), None, "");
  }

  /** `update`: find the slide, validate, then write the columns and the image step. */
  method Update(db: Database, id: Id, q: UpdateRequest, now: nat, token: string, strip: string -> string)
    returns (r: Response)
    modifies db`heroSlides, db`publicDisk
    ensures id !in old(db.heroSlides) ==>
              r == ModelNotFound && db.heroSlides == old(db.heroSlides) && db.publicDisk == old(db.publicDisk)
    ensures id in old(db.heroSlides) && !UpdateValid(q) ==>
              r == ValidationError && db.heroSlides == old(db.heroSlides) && db.publicDisk == old(db.publicDisk)
    ensures id in old(db.heroSlides) && UpdateValid(q) ==>
              r == Ok
              && db.heroSlides == old(db.heroSlides)[id := ApplyUpdate(old(db.heroSlides[id]), q, now, token, strip)]
              && db.publicDisk == DiskAfter(old(db.publicDisk), ImageStep(old(db.heroSlides[id]), q, now, token))
  {
    if id !in db.heroSlides {
      return ModelNotFound;
    }
    if !UpdateValid(q) {
      return ValidationError;
    }
    var s := db.heroSlides[id];
    db.publicDisk := DiskAfter(db.publicDisk, ImageStep(s, q, now, token));
    db.heroSlides := db.heroSlides[id := ApplyUpdate(s, q, now, token, strip)];
    r := Ok;
  }

  // Delete

  /** `destroy`: delete the image file when the path is truthy, then the slide. */
  method Destroy(db: Database, id: Id) returns (r: Response)
    modifies db`heroSlides, db`publicDisk
    ensures id !in old(db.heroSlides) ==>
              r == ModelNotFound && db.heroSlides == old(db.heroSlides) && db.publicDisk == old(db.publicDisk)
    ensures id in old(db.heroSlides) ==>
              r == Ok && db.heroSlides == old(db.heroSlides) - {id}
              && db.publicDisk == Drop(old(db.publicDisk), SlotPath(old(db.heroSlides[id]).image))
  {
    if id !in db.heroSlides {
      return ModelNotFound;
    }
    db.publicDisk := Drop(db.publicDisk, SlotPath(db.heroSlides[id].image));
    db.heroSlides := db.heroSlides - {id};
    r := Ok;
  }
}
