/**
 * The administrator's filières (fields of study): their list order, the slug
 * derived from the French name, and the image kept as a "/storage/" URL with
 * its stored file, on create, on edit and through the dedicated image upload.
 */
module AdminFilieres {
  import opened Wrappers
  import opened Php
  import opened Sorting
  import opened Records
  import opened Http
  import opened Validation
  import opened Uploads

  // Index

  /** `orderBy('order')`: positions ascending, a null position first. */
  function ListOrder(f: Filiere): Key
  {
    if f.order.None? then Key(0, 0) else Key(1, f.order.value)
  }

  /** `index`: every filière by position. */
  function Index(rows: seq<Filiere>): seq<Filiere>
  {
    SortBy(rows, ListOrder)
  }

  /** The list holds every filière once, those without a position first, then by ascending position. */
  lemma IndexOrdered(rows: seq<Filiere>)
    ensures multiset(Index(rows)) == multiset(rows)
    ensures forall i, j :: 0 <= i < j < |Index(rows)| && Index(rows)[i].order.Some? ==>
              Index(rows)[j].order.Some? && Index(rows)[i].order.value <= Index(rows)[j].order.value
  {
    SortBySortedPermutation(rows, ListOrder);
  }

  // Stored images and their URLs

  /** The public URL prefix of the public disk. */
  const UrlPrefix: string := "/storage/"

  /** `storeAs('filieres', stem . '-' . time() . '.' . extension)`. */
  function StoredPath(stem: string, time: nat, clientName: string): string
  {
    "filieres/" + stem + "-" + NatToString(time) + "." + Extension(clientName)
  }

  /** The `image_url` recorded for a stored file. */
  function UrlOf(path: string): string
  {
    UrlPrefix + path
  }

  /**
   * The stored file an image URL is taken to name: `str_replace('/storage/', '', url)`,
   * and nothing when PHP finds the URL falsy.
   */
  function OldPath(url: Option<string>): (r: Option<string>)
    ensures r.Some? <==> url.Some? && Truthy(Str(url.value))
    ensures r.Some? ==> r.value == RemoveAll(url.value, UrlPrefix)
  {
    if url.Some? && Truthy(Str(url.value)) then Some(RemoveAll(url.value, UrlPrefix)) else None
  }

  predicate NoSlash(s: string)
  {
    forall k :: 0 <= k < |s| ==> s[k] != '/'
  }

  /** A stored path never contains "/storage/" when its stem and extension have no '/'. */
  lemma StoredPathNoPrefix(stem: string, time: nat, clientName: string)
    requires NoSlash(stem) && NoSlash(Extension(clientName))
    ensures !Contains(StoredPath(stem, time, clientName), UrlPrefix)
  {
    var p := StoredPath(stem, time, clientName);
    var digits := NatToString(time);
    var rest := stem + "-" + digits + "." + Extension(clientName);
    assert p == "filieres/" + rest;
    assert NoSlash(digits) by {
      forall k | 0 <= k < |digits|
        ensures digits[k] != '/'
      {
        assert IsDigit(digits[k]);
      }
    }
    assert NoSlash(rest);
    forall i: nat
      ensures !OccursAt(p, UrlPrefix, i)
    {
      if i + |UrlPrefix| <= |p| {
        if i == 8 {
          assert p[i..i + |UrlPrefix|][8] == rest[7];
        } else if i < 8 {
          assert p[i..i + |UrlPrefix|][0] == "filieres/"[i];
        } else {
          assert p[i..i + |UrlPrefix|][0] == rest[i - 9];
        }
      }
    }
    NotContains(p, UrlPrefix);
  }

  /** The URL of a stored file leads back to that file, so a later edit deletes the right one. */
  lemma UrlRoundTrip(stem: string, time: nat, clientName: string)
    requires NoSlash(stem) && NoSlash(Extension(clientName))
    ensures OldPath(Some(UrlOf(StoredPath(stem, time, clientName)))) == Some(StoredPath(stem, time, clientName))
  {
    var p := StoredPath(stem, time, clientName);
    StoredPathNoPrefix(stem, time, clientName);
    RemoveAllPrefix(UrlPrefix, p);
    assert UrlOf(p)[0] == '/';
  }

  /** Every slug names at most one filière (the unique index on `slug`). */
  predicate SlugsUnique(filieres: map<Id, Filiere>)
  {
    forall a, b :: a in filieres && b in filieres && filieres[a].slug == filieres[b].slug ==> a == b
  }

  /** A filière other than `except` already has slug `s`. */
  predicate SlugTaken(filieres: map<Id, Filiere>, s: string, except: Option<Id>)
  {
    exists k :: k in filieres && filieres[k].slug == s && except != Some(k)
  }

  /** Writing a slug no other filière has keeps slugs unique. */
  lemma WriteKeepsSlugsUnique(filieres: map<Id, Filiere>, id: Id, f: Filiere)
    requires SlugsUnique(filieres) && !SlugTaken(filieres, f.slug, Some(id))
    ensures SlugsUnique(filieres[id := f])
  {
  }

  /** An image sent must be a jpeg/jpg/png of at most 10 MB whose content is an image. */
  predicate ImageValid(f: Field<UploadedFile>)
  {
    f.Given? ==> FileRule(f.value, ImageTypes, MaxKilobytes) && ContentIsImage(f.value) && f.value.size <= MaxBytes
  }

  // Create

  datatype StoreRequest = StoreRequest(
    name: Field<Text>, description: Field<Text>, image: Field<UploadedFile>, imageUrl: Field<string>, order: Field<int>)

  /** `name.fr` is required; an image must pass the image rules. */
  predicate StoreValid(q: StoreRequest)
  {
    NameWithFrench(q.name) && ImageValid(q.image)
  }

  /** The path `store` stores an uploaded image under: named after the French name's slug. */
  function StorePath(q: StoreRequest, now: nat, slug: string -> string): string
    requires StoreValid(q) && q.image.Given?
  {
    StoredPath(slug(q.name.value["fr"]), now, q.image.value.clientName)
  }

  /** The filière `store` creates. */
  function NewFiliere(id: Id, q: StoreRequest, now: nat, slug: string -> string): (f: Filiere)
    requires StoreValid(q)
    ensures f.id == id && f.name == q.name.value && f.slug == slug(q.name.value["fr"])
    ensures f.description == q.description.AsOption() && f.isActive
    ensures q.image.Given? ==> f.imageUrl == Some(UrlOf(StorePath(q, now, slug)))
    ensures !q.image.Given? ==> f.imageUrl == q.imageUrl.AsOption()
    ensures !q.order.Has() ==> f.order == Some(0)
    ensures q.order.Has() ==> f.order == q.order.AsOption()
  {
    var url := if q.image.Given? then Some(UrlOf(StorePath(q, now, slug))) else q.imageUrl.AsOption();
    Filiere(id, q.name.value, slug(q.name.value["fr"]), q.description.AsOption(), url, q.order.Overwrite(Some(0)), true)
  }

  /**
   * `store`: validate, store the image, create the filière. A slug already
   * in use makes the insert fail after the image is stored.
   */
  method Store(db: Database, q: StoreRequest, now: nat, slug: string -> string) returns (r: Response, id: Id)
    modifies db`filieres, db`publicDisk
    ensures !StoreValid(q) ==>
              r == ValidationError && db.filieres == old(db.filieres) && db.publicDisk == old(db.publicDisk)
    ensures StoreValid(q) ==>
              db.publicDisk == Put(old(db.publicDisk), if q.image.Given? then Some(StorePath(q, now, slug)) else None)
    ensures StoreValid(q) && SlugTaken(old(db.filieres), slug(q.name.value["fr"]), None) ==>
              r == ServerError && db.filieres == old(db.filieres)
    ensures StoreValid(q) && !SlugTaken(old(db.filieres), slug(q.name.value["fr"]), None) ==>
              r == Created && id !in old(db.filieres)
              && db.filieres == old(db.filieres)[id := NewFiliere(id, q, now, slug)]
    ensures SlugsUnique(old(db.filieres)) ==> SlugsUnique(db.filieres)
  {
    id := 1;
    if !StoreValid(q) {
      return ValidationError, id;
    }
    if q.image.Given? {
      db.publicDisk := db.publicDisk + {StorePath(q, now, slug)};
    }
    if SlugTaken(db.filieres, slug(q.name.value["fr"]), None) {
      return ServerError, id;
    }
    id := InsertFiliere(db, q, now, slug);
    r := Created;
  }

  /** The insert of `store`: the new filière under a fresh key; a free slug keeps slugs unique. */
  method InsertFiliere(db: Database, q: StoreRequest, now: nat, slug: string -> string) returns (id: Id)
    requires StoreValid(q) && !SlugTaken(db.filieres, slug(q.name.value["fr"]), None)
    modifies db`filieres
    ensures id !in old(db.filieres) && db.filieres == old(db.filieres)[id := NewFiliere(id, q, now, slug)]
    ensures SlugsUnique(old(db.filieres)) ==> SlugsUnique(db.filieres)
  {
    id := NextId(db.filieres.Keys);
    var f := NewFiliere(id, q, now, slug);
    if SlugsUnique(db.filieres) {
      WriteKeepsSlugsUnique(db.filieres, id, f);
    }
    db.filieres := db.filieres[id := f];
  }

  // Edit

  datatype UpdateRequest = UpdateRequest(
    name: Field<Text>, description: Field<Text>, image: Field<UploadedFile>, imageUrl: Field<string>,
    order: Field<int>, isActive: Field<bool>, removeImage: Field<bool>)

  /** A name sent is an array, and a non-empty one needs its `fr` entry; an image must pass the image rules; the flags are booleans. */
  predicate UpdateValid(q: UpdateRequest)
  {
    (q.name.Has() ==> q.name.Given?)
    && (q.name.Given? && q.name.value != map[] ==> NameWithFrench(q.name))
    && ImageValid(q.image)
    && (q.isActive.Has() ==> q.isActive.Given?)
    && (q.removeImage.Has() ==> q.removeImage.Given?)
  }

  /** What an edit does to the image: exactly one of these. */
  datatype ImageAction = Upload(file: UploadedFile) | Remove | SetUrl(url: Option<string>) | KeepImage

  /** The `hasFile` / `remove_image` / `image_url` chain, in that order. */
  function ActionOf(q: UpdateRequest): ImageAction
  {
    if q.image.Given? then Upload(q.image.value)
    else if q.removeImage == Given(true) then Remove
    else if q.imageUrl.Has() then SetUrl(q.imageUrl.AsOption())
    else KeepImage
  }

  /** An uploaded file wins over `remove_image` and `image_url`. */
  lemma UploadWins(q: UpdateRequest, removeImage: Field<bool>, imageUrl: Field<string>)
    requires q.image.Given?
    ensures ActionOf(q) == ActionOf(q.(removeImage := removeImage, imageUrl := imageUrl)) == Upload(q.image.value)
  {
  }

  /** Without a file, `remove_image` wins over `image_url`. */
  lemma RemoveBeatsUrl(q: UpdateRequest, imageUrl: Field<string>)
    requires !q.image.Given? && q.removeImage == Given(true)
    ensures ActionOf(q) == ActionOf(q.(imageUrl := imageUrl)) == Remove
  {
  }

  /** The French name the slug is taken from: the new one, else the current one, else "". */
  function FrenchOf(sent: Text, current: Text): string
  {
    if "fr" in sent then sent["fr"] else if "fr" in current then current["fr"] else ""
  }

  /** The slug an edit writes: only with a name sent, from a French name PHP finds truthy. */
  function NewSlug(x: Filiere, q: UpdateRequest, slug: string -> string): (r: Option<string>)
    ensures r.Some? <==> q.name.Given? && Truthy(Str(FrenchOf(q.name.value, x.name)))
    ensures r.Some? ==> r.value == slug(FrenchOf(q.name.value, x.name))
  {
    if q.name.Given? && Truthy(Str(FrenchOf(q.name.value, x.name))) then Some(slug(FrenchOf(q.name.value, x.name))) else None
  }

  /** The name part of a file stored by an edit: the slug of the new slug, the sent name or the current slug. */
  function FileStem(x: Filiere, q: UpdateRequest, slug: string -> string): string
  {
    var source := if NewSlug(x, q, slug).Some? then NewSlug(x, q, slug).value
                  else if q.name.Given? then slug(if "fr" in q.name.value then q.name.value["fr"] else "")
                  else x.slug;
    slug(source)
  }

  /** The filière after an edit: each column sent is replaced, the rest are kept. */
  function ApplyUpdate(x: Filiere, q: UpdateRequest, now: nat, slug: string -> string): (y: Filiere)
    ensures y.id == x.id
    ensures y.name == (if q.name.Given? then q.name.value else x.name)
    ensures y.slug == NewSlug(x, q, slug).GetOr(x.slug)
    ensures y.description == (if q.description.Given? then Some(q.description.value) else x.description)
    ensures y.order == (if q.order.Has() then q.order.AsOption() else x.order)
    ensures y.isActive == q.isActive.OrElse(x.isActive)
    ensures ActionOf(q).Upload? ==> y.imageUrl == Some(UrlOf(StoredPath(FileStem(x, q, slug), now, q.image.value.clientName)))
    ensures ActionOf(q).Remove? ==> y.imageUrl == None
    ensures ActionOf(q).SetUrl? ==> y.imageUrl == q.imageUrl.AsOption()
    ensures ActionOf(q).KeepImage? ==> y.imageUrl == x.imageUrl
  {
    var url := match ActionOf(q)
      case Upload(f) => Some(UrlOf(StoredPath(FileStem(x, q, slug), now, f.clientName)))
      case Remove => None
      case SetUrl(u) => u
      case KeepImage => x.imageUrl;
    x.(name := if q.name.Given? then q.name.value else x.name,
       slug := NewSlug(x, q, slug).GetOr(x.slug),
       description := if q.description.Given? then Some(q.description.value) else x.description,
       order := if q.order.Has() then q.order.AsOption() else x.order,
       isActive := q.isActive.OrElse(x.isActive), imageUrl := url)
  }

  /** The disk after an edit: an upload deletes the old file and stores the new one, a removal deletes. */
  function DiskAfterUpdate(disk: set<string>, x: Filiere, q: UpdateRequest, now: nat, slug: string -> string): set<string>
  {
    match ActionOf(q)
    case Upload(f) => Put(Drop(disk, OldPath(x.imageUrl)), Some(StoredPath(FileStem(x, q, slug), now, f.clientName)))
    case Remove => Drop(disk, OldPath(x.imageUrl))
    case _ => disk
  }

  /**
   * A name sent with a truthy French entry gives the slug of that entry; a
   * name without one falls back to the current French name; with no name
   * the slug is kept.
   */
  lemma UpdateSlug(x: Filiere, q: UpdateRequest, now: nat, slug: string -> string)
    ensures q.name.Given? && "fr" in q.name.value && Truthy(Str(q.name.value["fr"])) ==>
              ApplyUpdate(x, q, now, slug).slug == slug(q.name.value["fr"])
    ensures q.name.Given? && "fr" !in q.name.value && "fr" in x.name && Truthy(Str(x.name["fr"])) ==>
              ApplyUpdate(x, q, now, slug).slug == slug(x.name["fr"])
    ensures !q.name.Given? ==> ApplyUpdate(x, q, now, slug).slug == x.slug
  {
  }

  /** An empty name array passes validation, is saved as it is, and the slug is re-derived from the current French name. */
  lemma EmptyNameKeepsFrenchSlug(x: Filiere, q: UpdateRequest, now: nat, slug: string -> string)
    requires q.name == Given(map[]) && "fr" in x.name && Truthy(Str(x.name["fr"]))
    ensures UpdateValid(q) <==> ImageValid(q.image) && (q.isActive.Has() ==> q.isActive.Given?) && (q.removeImage.Has() ==> q.removeImage.Given?)
    ensures ApplyUpdate(x, q, now, slug).name == map[]
    ensures ApplyUpdate(x, q, now, slug).slug == slug(x.name["fr"])
  {
  }

  /**
   * After an upload the file is on the disk, and its URL names it, so the
   * next edit or image upload deletes exactly this file.
   */
  lemma UploadIsFound(disk: set<string>, x: Filiere, q: UpdateRequest, now: nat, slug: string -> string)
    requires q.image.Given? && NoSlash(FileStem(x, q, slug)) && NoSlash(Extension(q.image.value.clientName))
    ensures var p := StoredPath(FileStem(x, q, slug), now, q.image.value.clientName);
            p in DiskAfterUpdate(disk, x, q, now, slug) && OldPath(ApplyUpdate(x, q, now, slug).imageUrl) == Some(p)
  {
    UrlRoundTrip(FileStem(x, q, slug), now, q.image.value.clientName);
  }

  /** A null description does not clear it: only an array replaces it. */
  lemma NullDescriptionKept(x: Filiere, q: UpdateRequest, now: nat, slug: string -> string)
    requires q.description.Null?
    ensures ApplyUpdate(x, q, now, slug).description == x.description
  {
  }

  /**
   * `update`: find, validate, apply the image action to the disk, then
   * write the row; a slug another filière has makes the write fail after
   * the disk was changed.
   */
  method Update(db: Database, id: Id, q: UpdateRequest, now: nat, slug: string -> string) returns (r: Response)
    modifies db`filieres, db`publicDisk
    ensures id !in old(db.filieres) ==>
              r == ModelNotFound && db.filieres == old(db.filieres) && db.publicDisk == old(db.publicDisk)
    ensures id in old(db.filieres) && !UpdateValid(q) ==>
              r == ValidationError && db.filieres == old(db.filieres) && db.publicDisk == old(db.publicDisk)
    ensures id in old(db.filieres) && UpdateValid(q) ==>
              var x := old(db.filieres[id]);
              var y := ApplyUpdate(x, q, now, slug);
              db.publicDisk == DiskAfterUpdate(old(db.publicDisk), x, q, now, slug)
              && (SlugTaken(old(db.filieres), y.slug, Some(id)) ==> r == ServerError && db.filieres == old(db.filieres))
              && (!SlugTaken(old(db.filieres), y.slug, Some(id)) ==> r == Ok && db.filieres == old(db.filieres)[id := y])
    ensures SlugsUnique(old(db.filieres)) ==> SlugsUnique(db.filieres)
  {
    if id !in db.filieres {
      return ModelNotFound;
    }
    if !UpdateValid(q) {
      return ValidationError;
    }
    var x := db.filieres[id];
    db.publicDisk := DiskAfterUpdate(db.publicDisk, x, q, now, slug);
    var y := ApplyUpdate(x, q, now, slug);
    if SlugTaken(db.filieres, y.slug, Some(id)) {
      return ServerError;
    }
    if SlugsUnique(db.filieres) {
      WriteKeepsSlugsUnique(db.filieres, id, y);
    }
    db.filieres := db.filieres[id := y];
    r := Ok;
  }

  /** The error `updateImage` reports for any exception, a missing filière included. */
  const ImageServerError: Response := Failure(500, "SERVER_ERROR")

  /**
   * `updateImage`: a missing filière is caught as an exception (500); no
   * file, or one failing the rules, is a 422 that changes nothing; otherwise
   * the old file is replaced and only `image_url` changes.
   */
  method UpdateImage(db: Database, id: Id, image: Field<UploadedFile>, now: nat, slug: string -> string)
    returns (r: Response)
    modifies db`filieres, db`publicDisk
    ensures id !in old(db.filieres) ==>
              r == ImageServerError && db.filieres == old(db.filieres) && db.publicDisk == old(db.publicDisk)
    ensures id in old(db.filieres) && !(image.Given? && FileRule(image.value, ImageTypes, MaxKilobytes)) ==>
              r == ValidationError && db.filieres == old(db.filieres) && db.publicDisk == old(db.publicDisk)
    ensures id in old(db.filieres) && image.Given? && FileRule(image.value, ImageTypes, MaxKilobytes) ==>
              var x := old(db.filieres[id]);
              var p := StoredPath(slug(x.slug), now, image.value.clientName);
              r == Ok && db.filieres == old(db.filieres)[id := x.(imageUrl := Some(UrlOf(p)))]
              && db.publicDisk == Put(Drop(old(db.publicDisk), OldPath(x.imageUrl)), Some(p))
    ensures SlugsUnique(old(db.filieres)) ==> SlugsUnique(db.filieres)
  {
    if id !in db.filieres {
      return ImageServerError;
    }
    if !image.Given? {
      return ValidationError;
    }
    if !FileRule(image.value, ImageTypes, MaxKilobytes) {
      return ValidationError;
    }
    var x := db.filieres[id];
    var p := StoredPath(slug(x.slug), now, image.value.clientName);
    db.publicDisk := Put(Drop(db.publicDisk, OldPath(x.imageUrl)), Some(p));
    db.filieres := db.filieres[id := x.(imageUrl := Some(UrlOf(p)))];
    r := Ok;
  }

  // Delete

  /** `destroy`: the row is deleted; its stored image stays on the disk. */
  method Destroy(db: Database, id: Id) returns (r: Response)
    modifies db`filieres
    ensures id !in old(db.filieres) ==> r == ModelNotFound && db.filieres == old(db.filieres)
    ensures id in old(db.filieres) ==> r == Ok && db.filieres == old(db.filieres) - {id}
    ensures SlugsUnique(old(db.filieres)) ==> SlugsUnique(db.filieres)
  {
    if id !in db.filieres {
      return ModelNotFound;
    }
    db.filieres := db.filieres - {id};
    r := Ok;
  }
}
