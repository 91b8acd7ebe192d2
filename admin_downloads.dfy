/**
 * The administrator's downloads: the main image and file slots of a
 * download, its ordered image gallery, and deletion with every stored file.
 */
module AdminDownloads {
  import opened Wrappers
  import opened Php
  import opened Sorting
  import opened Records
  import opened Http
  import opened Validation
  import opened AdminAnnouncements
  import opened Uploads

  // The gallery

  /** The paths listed in a sequence. */
  function PathsOf(s: seq<string>): set<string>
  {
    set p | p in s
  }

  /** The gallery row created for an upload stored at `path` with position `order`. */
  function GalleryRow(id: Id, downloadId: Id, f: UploadedFile, name: string, path: string, order: int): DownloadImage
  {
    DownloadImage(id, downloadId, path, name, f.mimeType, f.size, order)
  }

  /** The display names of a list of uploads. */
  function DisplayNames(uploads: seq<UploadedFile>): (r: seq<string>)
    ensures |r| == |uploads|
  {
    seq(|uploads|, k requires 0 <= k < |uploads| => DisplayFilename(uploads[k].clientName))
  }

  /** The keys of the gallery rows of download `d`. */
  function GalleryOf(images: map<Id, DownloadImage>, d: Id): (r: set<Id>)
    ensures forall k :: k in r <==> k in images && images[k].downloadId == d
  {
    set k | k in images && images[k].downloadId == d
  }

  /** No two gallery rows of the same download share a position. */
  predicate OrdersDistinct(images: map<Id, DownloadImage>)
  {
    forall a, b :: a in images && b in images && a != b && images[a].downloadId == images[b].downloadId
      ==> images[a].order != images[b].order
  }

  /** Every gallery row belongs to an existing download. */
  predicate ImagesBelong(downloads: map<Id, Download>, images: map<Id, DownloadImage>)
  {
    forall k :: k in images ==> images[k].downloadId in downloads
  }

  /** Every gallery row of `d` sits before position `first`. */
  predicate Below(images: map<Id, DownloadImage>, d: Id, first: int)
  {
    forall k :: k in images && images[k].downloadId == d ==> images[k].order < first
  }

  /**
   * `max('order') ?? -1` plus one: the position after the gallery's last,
   * or 0 for an empty gallery.
   */
  method NextOrder(images: map<Id, DownloadImage>, d: Id) returns (order: int)
    ensures Below(images, d, order)
    ensures GalleryOf(images, d) == {} ==> order == 0
    ensures GalleryOf(images, d) != {} ==> exists k :: k in GalleryOf(images, d) && images[k].order == order - 1
  {
    var rest := images.Keys;
    var max: Option<int> := None;
    while rest != {}
      invariant rest <= images.Keys
      invariant max.None? <==> forall k :: k in images.Keys - rest ==> images[k].downloadId != d
      invariant max.Some? ==> forall k :: k in images.Keys - rest && images[k].downloadId == d ==> images[k].order <= max.value
      invariant max.Some? ==> exists k :: k in images.Keys - rest && images[k].downloadId == d && images[k].order == max.value
      decreases |rest|
    {
      var k :| k in rest;
      if images[k].downloadId == d && (max.None? || images[k].order > max.value) {
        max := Some(images[k].order);
      }
      VisitOne(images.Keys, rest, k);
      rest := rest - {k};
    }
    assert images.Keys - rest == images.Keys;
    order := if max.None? then 0 else max.value + 1;
  }

  /** Adding a row of `d` above every position of `d` keeps positions distinct and moves the bound. */
  lemma AddAbove(images: map<Id, DownloadImage>, id: Id, row: DownloadImage, d: Id, first: int)
    requires id !in images && row.downloadId == d && row.order >= first
    requires OrdersDistinct(images) && Below(images, d, first)
    ensures OrdersDistinct(images[id := row]) && Below(images[id := row], d, row.order + 1)
  {
  }

  /**
   * The gallery after appending one row per upload, the k-th under key
   * `ids[k]` with display name `names[k]` at position `first + k`.
   */
  function Appended(images: map<Id, DownloadImage>, d: Id, first: int, uploads: seq<UploadedFile>,
                    names: seq<string>, paths: seq<string>, ids: seq<Id>): map<Id, DownloadImage>
    requires |uploads| == |names| == |paths| == |ids|
    decreases |ids|
  {
    if ids == [] then images
    else
      var n := |ids| - 1;
      Appended(images, d, first, uploads[..n], names[..n], paths[..n], ids[..n])
        [ids[n] := GalleryRow(ids[n], d, uploads[n], names[n], paths[n], first + n)]
  }

  /** With fresh, distinct keys, appending keeps every old row and adds exactly the listed ones. */
  lemma {:induction false} AppendedRows(images: map<Id, DownloadImage>, d: Id, first: int, uploads: seq<UploadedFile>,
                                        names: seq<string>, paths: seq<string>, ids: seq<Id>)
    requires |uploads| == |names| == |paths| == |ids|
    requires forall k :: 0 <= k < |ids| ==> ids[k] !in images
    requires forall j, k :: 0 <= j < k < |ids| ==> ids[j] < ids[k]
    ensures var r := Appended(images, d, first, uploads, names, paths, ids);
            (forall k :: k in r <==> k in images || k in ids)
            && (forall k :: k in images ==> r[k] == images[k])
            && (forall k :: 0 <= k < |ids| ==>
                  r[ids[k]] == GalleryRow(ids[k], d, uploads[k], names[k], paths[k], first + k))
    decreases |ids|
  {
    if ids != [] {
      var n := |ids| - 1;
      var u, nm, p, i := uploads[..n], names[..n], paths[..n], ids[..n];
      AppendedRows(images, d, first, u, nm, p, i);
      var prev := Appended(images, d, first, u, nm, p, i);
      var r := Appended(images, d, first, uploads, names, paths, ids);
      assert r == prev[ids[n] := GalleryRow(ids[n], d, uploads[n], names[n], paths[n], first + n)];
      forall k | 0 <= k < |ids|
        ensures r[ids[k]] == GalleryRow(ids[k], d, uploads[k], names[k], paths[k], first + k)
      {
        if k < n {
          assert ids[k] == i[k] && ids[k] < ids[n];
          assert uploads[k] == u[k] && names[k] == nm[k] && paths[k] == p[k];
        }
      }
      assert forall k :: k in ids <==> k in i || k == ids[n];
    }
  }

  /** Appending one more upload adds its row under its key at the next position. */
  lemma AppendedSnoc(images: map<Id, DownloadImage>, d: Id, first: int, uploads: seq<UploadedFile>,
                     names: seq<string>, paths: seq<string>, ids: seq<Id>,
                     f: UploadedFile, name: string, path: string, id: Id)
    requires |uploads| == |names| == |paths| == |ids|
    ensures Appended(images, d, first, uploads + [f], names + [name], paths + [path], ids + [id])
            == Appended(images, d, first, uploads, names, paths, ids)[id := GalleryRow(id, d, f, name, path, first + |ids|)]
  {
    assert (uploads + [f])[..|ids|] == uploads && (names + [name])[..|ids|] == names;
    assert (paths + [path])[..|ids|] == paths && (ids + [id])[..|ids|] == ids;
  }

  /**
   * The rows a gallery upload adds: the k-th upload is stored under its
   * fresh key with its display name, its path and position `first + k`,
   * and every earlier row is kept.
   */
  lemma GalleryPositions(images: map<Id, DownloadImage>, d: Id, first: int, uploads: seq<UploadedFile>,
                         paths: seq<string>, ids: seq<Id>)
    requires |uploads| == |paths| == |ids|
    requires forall k :: 0 <= k < |ids| ==> ids[k] !in images
    requires forall j, k :: 0 <= j < k < |ids| ==> ids[j] < ids[k]
    ensures var r := Appended(images, d, first, uploads, DisplayNames(uploads), paths, ids);
            (forall k :: k in images ==> k in r && r[k] == images[k])
            && (forall k :: 0 <= k < |ids| ==>
                  ids[k] in r && r[ids[k]].downloadId == d && r[ids[k]].order == first + k
                  && r[ids[k]].imagePath == paths[k]
                  && r[ids[k]].imageFilename == DisplayFilename(uploads[k].clientName))
  {
    AppendedRows(images, d, first, uploads, DisplayNames(uploads), paths, ids);
  }

  /**
   * `ids` are increasing keys that were not in `images0` and are now in
   * `images`, which keeps every key of `images0`.
   */
  predicate FreshKeys(images0: map<Id, DownloadImage>, images: map<Id, DownloadImage>, ids: seq<Id>)
  {
    (forall j, k :: 0 <= j < k < |ids| ==> ids[j] < ids[k])
    && (forall k :: 0 <= k < |ids| ==> ids[k] !in images0 && ids[k] in images)
    && images0.Keys <= images.Keys
  }

  /** A key above every key in use extends the fresh keys. */
  lemma FreshKeysStep(images0: map<Id, DownloadImage>, images: map<Id, DownloadImage>, ids: seq<Id>,
                      id: Id, row: DownloadImage)
    requires FreshKeys(images0, images, ids)
    requires id !in images && forall k :: k in images ==> k < id
    ensures FreshKeys(images0, images[id := row], ids + [id])
  {
  }

  /** A prefix one element longer. */
  lemma SliceSnoc<T>(s: seq<T>, n: nat)
    requires n < |s|
    ensures s[..n + 1] == s[..n] + [s[n]]
  {
  }

  /** The files of `ps` and one more. */
  lemma PathsOfSnoc(ps: seq<string>, p: string)
    ensures PathsOf(ps + [p]) == PathsOf(ps) + {p}
  {
  }

  /**
   * The gallery loop: each upload in turn is stored and gets a fresh row
   * with its display name and the next position, starting at `first`.
   */
  method AddGallery(db: Database, d: Id, first: int, uploads: seq<UploadedFile>, names: seq<string>, paths: seq<string>)
    returns (ids: seq<Id>)
    requires |names| == |paths| == |uploads|
    modifies db`downloadImages, db`publicDisk
    ensures |ids| == |uploads|
    ensures forall j, k :: 0 <= j < k < |ids| ==> ids[j] < ids[k]
    ensures forall k :: 0 <= k < |ids| ==> ids[k] !in old(db.downloadImages)
    ensures db.downloadImages == Appended(old(db.downloadImages), d, first, uploads, names, paths, ids)
    ensures db.publicDisk == old(db.publicDisk) + PathsOf(paths)
  {
    var images, disk := db.downloadImages, db.publicDisk;
    ghost var images0, disk0 := images, disk;
    ids := [];
    var n := 0;
    while n < |uploads|
      invariant 0 <= n <= |uploads| && |ids| == n
      invariant FreshKeys(images0, images, ids)
      invariant images == Appended(images0, d, first, uploads[..n], names[..n], paths[..n], ids)
      invariant disk == disk0 + PathsOf(paths[..n])
    {
      var id := NextId(images.Keys);
      var row := GalleryRow(id, d, uploads[n], names[n], paths[n], first + n);
      AppendedSnoc(images0, d, first, uploads[..n], names[..n], paths[..n], ids, uploads[n], names[n], paths[n], id);
      FreshKeysStep(images0, images, ids, id, row);
      PathsOfSnoc(paths[..n], paths[n]);
      SliceSnoc(uploads, n);
      SliceSnoc(names, n);
      SliceSnoc(paths, n);
      disk := disk + {paths[n]};
      images := images[id := row];
      ids := ids + [id];
      n := n + 1;
    }
    assert uploads[..n] == uploads && names[..n] == names && paths[..n] == paths;
    db.downloadImages, db.publicDisk := images, disk;
  }

  /** Rows appended to an existing download keep every row attached to a download. */
  lemma AppendedBelong(downloads: map<Id, Download>, before: map<Id, DownloadImage>, after: map<Id, DownloadImage>,
                       d: Id, ids: seq<Id>)
    requires ImagesBelong(downloads, before) && d in downloads
    requires forall k :: k in after <==> k in before || k in ids
    requires forall k :: k in before ==> after[k] == before[k]
    requires forall k :: 0 <= k < |ids| ==> after[ids[k]].downloadId == d
    ensures ImagesBelong(downloads, after)
  {
    forall a | a in after
      ensures after[a].downloadId in downloads
    {
      if a !in before {
        var i :| 0 <= i < |ids| && ids[i] == a;
      }
    }
  }

  /** Rows appended at positions `first`, `first + 1`, ... above a gallery keep positions distinct. */
  lemma AppendedOrdersDistinct(before: map<Id, DownloadImage>, after: map<Id, DownloadImage>, d: Id, first: int, ids: seq<Id>)
    requires OrdersDistinct(before) && Below(before, d, first)
    requires forall k :: k in after <==> k in before || k in ids
    requires forall k :: k in before ==> after[k] == before[k]
    requires forall k :: 0 <= k < |ids| ==> ids[k] !in before && ids[k] in after
    requires forall j, k :: 0 <= j < k < |ids| ==> ids[j] < ids[k]
    requires forall k :: 0 <= k < |ids| ==> after[ids[k]].downloadId == d && after[ids[k]].order == first + k
    ensures OrdersDistinct(after) && Below(after, d, first + |ids|)
  {
    forall a, b | a in after && b in after && a != b && after[a].downloadId == after[b].downloadId
      ensures after[a].order != after[b].order
    {
      if a !in before {
        var i :| 0 <= i < |ids| && ids[i] == a;
        if b !in before {
          var j :| 0 <= j < |ids| && ids[j] == b;
          assert i != j;
        }
      } else if b !in before {
        var j :| 0 <= j < |ids| && ids[j] == b;
      }
    }
    forall a | a in after && after[a].downloadId == d
      ensures after[a].order < first + |ids|
    {
      if a !in before {
        var i :| 0 <= i < |ids| && ids[i] == a;
      }
    }
  }

  /**
   * Appending with fresh, increasing keys keeps every row attached to a
   * download and, above the gallery's last position, keeps positions distinct.
   */
  lemma AppendedKeepsInvariants(downloads: map<Id, Download>, images: map<Id, DownloadImage>, d: Id, first: int,
                                uploads: seq<UploadedFile>, names: seq<string>, paths: seq<string>, ids: seq<Id>)
    requires |uploads| == |names| == |paths| == |ids|
    requires forall k :: 0 <= k < |ids| ==> ids[k] !in images
    requires forall j, k :: 0 <= j < k < |ids| ==> ids[j] < ids[k]
    ensures var r := Appended(images, d, first, uploads, names, paths, ids);
            ImagesBelong(downloads, images) && d in downloads ==> ImagesBelong(downloads, r)
    ensures var r := Appended(images, d, first, uploads, names, paths, ids);
            OrdersDistinct(images) && Below(images, d, first) ==> OrdersDistinct(r) && Below(r, d, first + |ids|)
  {
    var r := Appended(images, d, first, uploads, names, paths, ids);
    AppendedRows(images, d, first, uploads, names, paths, ids);
    if ImagesBelong(downloads, images) && d in downloads {
      AppendedBelong(downloads, images, r, d, ids);
    }
    if OrdersDistinct(images) && Below(images, d, first) {
      AppendedOrdersDistinct(images, r, d, first, ids);
    }
  }

  /** The gallery rows left after deleting the listed rows of download `d`. */
  function KeepImages(images: map<Id, DownloadImage>, d: Id, ids: set<Id>): (r: map<Id, DownloadImage>)
    ensures forall k :: k in r <==> k in images && !(k in ids && images[k].downloadId == d)
    ensures forall k :: k in r ==> r[k] == images[k]
  {
    map k | k in images && !(k in ids && images[k].downloadId == d) :: images[k]
  }

  /** The stored files of the deleted rows. */
  function DroppedPaths(images: map<Id, DownloadImage>, d: Id, ids: set<Id>): (r: set<string>)
    ensures forall k :: k in images && k in ids && images[k].downloadId == d ==> images[k].imagePath in r
  {
    set k | k in images && k in ids && images[k].downloadId == d :: images[k].imagePath
  }

  /** Deleting rows leaves the galleries of other downloads exactly as they were and keeps both invariants. */
  lemma KeepImagesScoped(downloads: map<Id, Download>, images: map<Id, DownloadImage>, d: Id, ids: set<Id>, e: Id)
    requires e != d
    ensures GalleryOf(KeepImages(images, d, ids), e) == GalleryOf(images, e)
    ensures GalleryOf(KeepImages(images, d, ids), d) == GalleryOf(images, d) - ids
    ensures OrdersDistinct(images) ==> OrdersDistinct(KeepImages(images, d, ids))
    ensures ImagesBelong(downloads, images) ==> ImagesBelong(downloads, KeepImages(images, d, ids))
  {
  }

  /** One step of the deletion loop. */
  lemma KeepOneMore(images: map<Id, DownloadImage>, d: Id, done: set<Id>, k: Id)
    ensures KeepImages(images, d, done + {k}) ==
            if k in images && images[k].downloadId == d then KeepImages(images, d, done) - {k}
            else KeepImages(images, d, done)
    ensures DroppedPaths(images, d, done + {k}) ==
            if k in images && images[k].downloadId == d then DroppedPaths(images, d, done) + {images[k].imagePath}
            else DroppedPaths(images, d, done)
  {
  }

  /**
   * Delete the listed gallery rows that belong to `d`, each with its
   * stored file; a listed row of another download is left alone.
   */
  method DeleteImages(db: Database, d: Id, ids: set<Id>)
    modifies db`downloadImages, db`publicDisk
    ensures db.downloadImages == KeepImages(old(db.downloadImages), d, ids)
    ensures db.publicDisk == old(db.publicDisk) - DroppedPaths(old(db.downloadImages), d, ids)
  {
    ghost var images := db.downloadImages;
    var rest := ids;
    while rest != {}
      invariant rest <= ids
      invariant db.downloadImages == KeepImages(images, d, ids - rest)
      invariant db.publicDisk == old(db.publicDisk) - DroppedPaths(images, d, ids - rest)
      decreases |rest|
    {
      var k :| k in rest;
      KeepOneMore(images, d, ids - rest, k);
      VisitOne(ids, rest, k);
      if k in db.downloadImages && db.downloadImages[k].downloadId == d {
        db.publicDisk := db.publicDisk - {db.downloadImages[k].imagePath};
        db.downloadImages := db.downloadImages - {k};
      } else {
        assert !(k in images && images[k].downloadId == d);
      }
      rest := rest - {k};
    }
    assert ids - rest == ids;
  }

  // Store

  datatype StoreRequest = StoreRequest(
    title: Field<Text>, content: Field<Text>, isPublished: Field<bool>, targetAudience: Field<string>,
    image: Field<UploadedFile>, file: Field<UploadedFile>, images: seq<UploadedFile>)

  /** `title.fr` required, both titles at most 255 characters. */
  predicate TitleValid(t: Field<Text>)
  {
    NameWithFrench(t) && |t.value["fr"]| <= 255 && ("ar" in t.value ==> |t.value["ar"]| <= 255)
  }

  /** Images are jpeg/jpg/png, every upload is at most 10240 kilobytes. */
  predicate StoreValid(q: StoreRequest)
  {
    TitleValid(q.title) && (q.isPublished.Has() ==> q.isPublished.Given?)
    && SometimesIn(q.targetAudience, Audiences)
    && OptionalFile(q.image, ImageTypes, MaxKilobytes)
    && (q.file.Given? ==> q.file.value.size <= MaxKilobytes * 1024)
    && forall k :: 0 <= k < |q.images| ==> FileRule(q.images[k], ImageTypes, MaxKilobytes)
  }

  /** The locales whose title `store` and `update` sanitise. */
  const TitleLocales: set<string> := {"fr", "ar"}

  /** The slot a store fills from an optional upload. */
  function NewSlot(upload: Field<UploadedFile>, path: string): (a: Option<Attachment>)
    ensures a.Some? <==> upload.Given?
    ensures a.Some? ==> a.value == Attachment(path, DisplayFilename(upload.value.clientName))
  {
    if upload.Given? then Some(Attachment(path, DisplayFilename(upload.value.clientName))) else None
  }

  function NewDownload(id: Id, q: StoreRequest, author: Id, now: int, strip: string -> string,
                       imagePath: string, filePath: string): (x: Download)
    requires StoreValid(q)
    ensures x.id == id && x.authorId == author && x.title == StripLocales(q.title.value, TitleLocales, strip)
    ensures x.content == q.content.OrElse(map[])
    ensures Publication(x.isPublished, x.publishedAt) == PublishOnStore(q.isPublished, now)
    ensures x.targetAudience == q.targetAudience.OrElse("all") && x.targetAudience in Audiences
    ensures x.image == NewSlot(q.image, imagePath) && x.file == NewSlot(q.file, filePath)
  {
    var p := PublishOnStore(q.isPublished, now);
    Download(id, StripLocales(q.title.value, TitleLocales, strip), q.content.OrElse(map[]), author, p.isPublished, p.publishedAt,
             q.targetAudience.OrElse("all"), NewSlot(q.image, imagePath), NewSlot(q.file, filePath))
  }

  /** A new download starts with an empty gallery when every row belongs to an existing download. */
  lemma FreshDownloadHasNoGallery(downloads: map<Id, Download>, images: map<Id, DownloadImage>, id: Id)
    requires ImagesBelong(downloads, images) && id !in downloads
    ensures Below(images, id, 0)
  {
  }

  /**
   * `store`: validate, store the main image and file, create the download,
   * then store the gallery at positions 0, 1, ...
   */
  method Store(db: Database, q: StoreRequest, author: Id, now: int, strip: string -> string,
               imagePath: string, filePath: string, galleryPaths: seq<string>)
    returns (r: Response, id: Id, gallery: seq<Id>)
    requires |galleryPaths| == |q.images|
    modifies db`downloads, db`downloadImages, db`publicDisk
    ensures !StoreValid(q) ==>
              r == ValidationError && gallery == [] && db.downloads == old(db.downloads)
              && db.downloadImages == old(db.downloadImages) && db.publicDisk == old(db.publicDisk)
    ensures StoreValid(q) ==>
              r == Created && id !in old(db.downloads)
              && db.downloads == old(db.downloads)[id := NewDownload(id, q, author, now, strip, imagePath, filePath)]
    ensures StoreValid(q) ==>
              db.publicDisk == Put(Put(old(db.publicDisk), if q.image.Given? then Some(imagePath) else None),
                                   if q.file.Given? then Some(filePath) else None)
                               + PathsOf(galleryPaths)
    ensures StoreValid(q) ==>
              |gallery| == |q.images|
              && (forall j, k :: 0 <= j < k < |gallery| ==> gallery[j] < gallery[k])
              && (forall k :: 0 <= k < |gallery| ==> gallery[k] !in old(db.downloadImages))
              && db.downloadImages
                 == Appended(old(db.downloadImages), id, 0, q.images, DisplayNames(q.images), galleryPaths, gallery)
    ensures ImagesBelong(old(db.downloads), old(db.downloadImages)) && OrdersDistinct(old(db.downloadImages))
            ==> ImagesBelong(db.downloads, db.downloadImages) && OrdersDistinct(db.downloadImages)
  {
    id, gallery := 1, [];
    if !StoreValid(q) {
      return ValidationError, id, gallery;
    }
    db.publicDisk := Put(Put(db.publicDisk, if q.image.Given? then Some(imagePath) else None),
                         if q.file.Given? then Some(filePath) else None);
    id := NextId(db.downloads.Keys);
    ghost var before := db.downloadImages;
    if ImagesBelong(db.downloads, db.downloadImages) {
      FreshDownloadHasNoGallery(db.downloads, db.downloadImages, id);
    }
    db.downloads := db.downloads[id := NewDownload(id, q, author, now, strip, imagePath, filePath)];
    gallery := AddGallery(db, id, 0, q.images, DisplayNames(q.images), galleryPaths);
    AppendedKeepsInvariants(db.downloads, before, id, 0, q.images, DisplayNames(q.images), galleryPaths, gallery);
    r := Created;
  }

  // Update

  /**
   * An update request: no key is validated, so only the shapes that the
   * columns can hold are modelled (an absent key is `None`).
   */
  datatype UpdateRequest = UpdateRequest(
    title: Option<Text>, content: Option<Text>, targetAudience: Option<string>,
    removeImage: Option<Value>, image: Option<UploadedFile>,
    removeFile: Option<Value>, file: Option<UploadedFile>,
    isPublished: Option<bool>, removeImages: Option<seq<Id>>, images: seq<UploadedFile>)

  /** A key that is either absent or sent with a value. */
  function Sent<T>(o: Option<T>): (f: Field<T>)
    ensures f.Has() <==> o.Some? && (f.Has() ==> f.Given? && f.value == o.value)
  {
    if o.Some? then Given(o.value) else Absent
  }

  function ImageStep(x: Download, q: UpdateRequest, imagePath: string): SlotStep
  {
    UpdateSlot(x.image, Requested(q.removeImage), q.image, imagePath)
  }

  function FileStep(x: Download, q: UpdateRequest, filePath: string): SlotStep
  {
    UpdateSlot(x.file, Requested(q.removeFile), q.file, filePath)
  }

  /** The download after `update`: author and id never change. */
  function ApplyUpdate(x: Download, q: UpdateRequest, now: int, strip: string -> string,
                       imagePath: string, filePath: string): (y: Download)
    ensures y.id == x.id && y.authorId == x.authorId
    ensures y.title == (if q.title.Some? then StripLocales(q.title.value, TitleLocales, strip) else x.title)
    ensures y.content == q.content.GetOr(x.content) && y.targetAudience == q.targetAudience.GetOr(x.targetAudience)
    ensures y.image == ImageStep(x, q, imagePath).next && y.file == FileStep(x, q, filePath).next
    ensures Publication(y.isPublished, y.publishedAt)
            == PublishOnUpdate(Sent(q.isPublished), Publication(x.isPublished, x.publishedAt), now)
  {
    var p := PublishOnUpdate(Sent(q.isPublished), Publication(x.isPublished, x.publishedAt), now);
    x.(title := if q.title.Some? then StripLocales(q.title.value, TitleLocales, strip) else x.title,
       content := q.content.GetOr(x.content), targetAudience := q.targetAudience.GetOr(x.targetAudience),
       image := ImageStep(x, q, imagePath).next, file := FileStep(x, q, filePath).next,
       isPublished := p.isPublished, publishedAt := p.publishedAt)
  }

  /** The rows `remove_images` names. */
  function RemoveSet(q: UpdateRequest): set<Id>
  {
    if q.removeImages.Some? then set i | i in q.removeImages.value else {}
  }

  /** New gallery uploads: positions continue after the last remaining one. */
  method AppendImages(db: Database, d: Id, uploads: seq<UploadedFile>, paths: seq<string>)
    returns (ids: seq<Id>, first: int)
    requires |paths| == |uploads|
    modifies db`downloadImages, db`publicDisk
    ensures Below(old(db.downloadImages), d, first)
    ensures GalleryOf(old(db.downloadImages), d) == {} ==> first == 0
    ensures |ids| == |uploads|
    ensures forall j, k :: 0 <= j < k < |ids| ==> ids[j] < ids[k]
    ensures forall k :: 0 <= k < |ids| ==> ids[k] !in old(db.downloadImages)
    ensures db.downloadImages == Appended(old(db.downloadImages), d, first, uploads, DisplayNames(uploads), paths, ids)
    ensures db.publicDisk == old(db.publicDisk) + PathsOf(paths)
    ensures OrdersDistinct(old(db.downloadImages)) ==> OrdersDistinct(db.downloadImages)
  {
    first := NextOrder(db.downloadImages, d);
    ghost var before := db.downloadImages;
    ids := AddGallery(db, d, first, uploads, DisplayNames(uploads), paths);
    AppendedKeepsInvariants(map[], before, d, first, uploads, DisplayNames(uploads), paths, ids);
  }

  /**
   * `update`: the columns, the two slots, then the gallery deletions, then
   * the new gallery uploads.
   */
  method Update(db: Database, id: Id, q: UpdateRequest, now: int, strip: string -> string,
                imagePath: string, filePath: string, galleryPaths: seq<string>)
    returns (r: Response, gallery: seq<Id>, first: int)
    requires |galleryPaths| == |q.images|
    modifies db`downloads, db`downloadImages, db`publicDisk
    ensures id !in old(db.downloads) ==>
              r == ModelNotFound && db.downloads == old(db.downloads)
              && db.downloadImages == old(db.downloadImages) && db.publicDisk == old(db.publicDisk)
    ensures id in old(db.downloads) ==>
              r == Ok
              && db.downloads == old(db.downloads)[id := ApplyUpdate(old(db.downloads[id]), q, now, strip, imagePath, filePath)]
    ensures id in old(db.downloads) ==>
              var kept := KeepImages(old(db.downloadImages), id, RemoveSet(q));
              Below(kept, id, first) && (GalleryOf(kept, id) == {} ==> first == 0)
              && |gallery| == |q.images|
              && (forall j, k :: 0 <= j < k < |gallery| ==> gallery[j] < gallery[k])
              && (forall k :: 0 <= k < |gallery| ==> gallery[k] !in kept)
              && db.downloadImages == Appended(kept, id, first, q.images, DisplayNames(q.images), galleryPaths, gallery)
    ensures id in old(db.downloads) ==>
              var x := old(db.downloads[id]);
              db.publicDisk == DiskAfter(DiskAfter(old(db.publicDisk), ImageStep(x, q, imagePath)), FileStep(x, q, filePath))
                               - DroppedPaths(old(db.downloadImages), id, RemoveSet(q))
                               + PathsOf(galleryPaths)
    ensures ImagesBelong(old(db.downloads), old(db.downloadImages)) && OrdersDistinct(old(db.downloadImages))
            ==> ImagesBelong(db.downloads, db.downloadImages) && OrdersDistinct(db.downloadImages)
  {
    gallery, first := [], 0;
    if id !in db.downloads {
      return ModelNotFound, gallery, first;
    }
    var x := db.downloads[id];
    db.publicDisk := DiskAfter(db.publicDisk, ImageStep(x, q, imagePath));
    db.publicDisk := DiskAfter(db.publicDisk, FileStep(x, q, filePath));
    db.downloads := db.downloads[id := ApplyUpdate(x, q, now, strip, imagePath, filePath)];
    ghost var images := db.downloadImages;
    DeleteImages(db, id, RemoveSet(q));
    KeepImagesScoped(db.downloads, images, id, RemoveSet(q), id + 1);
    ghost var kept := db.downloadImages;
    gallery, first := AppendImages(db, id, q.images, galleryPaths);
    AppendedKeepsInvariants(db.downloads, kept, id, first, q.images, DisplayNames(q.images), galleryPaths, gallery);
    r := Ok;
  }

  // Destroy

  /** After `destroy`, no gallery row refers to the download and every other gallery is intact. */
  lemma DestroyLeavesNoGallery(images: map<Id, DownloadImage>, d: Id, e: Id)
    requires e != d
    ensures GalleryOf(KeepImages(images, d, GalleryOf(images, d)), d) == {}
    ensures GalleryOf(KeepImages(images, d, GalleryOf(images, d)), e) == GalleryOf(images, e)
    ensures DroppedPaths(images, d, GalleryOf(images, d)) == set k | k in GalleryOf(images, d) :: images[k].imagePath
  {
  }

  /** `destroy`: the main image, the file, every gallery image with its file, then the record. */
  method Destroy(db: Database, id: Id) returns (r: Response)
    modifies db`downloads, db`downloadImages, db`publicDisk
    ensures id !in old(db.downloads) ==>
              r == ModelNotFound && db.downloads == old(db.downloads)
              && db.downloadImages == old(db.downloadImages) && db.publicDisk == old(db.publicDisk)
    ensures id in old(db.downloads) ==>
              r == Ok && db.downloads == old(db.downloads) - {id}
              && db.downloadImages == KeepImages(old(db.downloadImages), id, GalleryOf(old(db.downloadImages), id))
              && db.publicDisk == Drop(Drop(old(db.publicDisk), SlotPath(old(db.downloads[id]).image)),
                                       SlotPath(old(db.downloads[id]).file))
                                  - DroppedPaths(old(db.downloadImages), id, GalleryOf(old(db.downloadImages), id))
    ensures ImagesBelong(old(db.downloads), old(db.downloadImages)) ==> ImagesBelong(db.downloads, db.downloadImages)
  {
    if id !in db.downloads {
      return ModelNotFound;
    }
    var x := db.downloads[id];
    db.publicDisk := Drop(db.publicDisk, SlotPath(x.image));
    db.publicDisk := Drop(db.publicDisk, SlotPath(x.file));
    DeleteImages(db, id, GalleryOf(db.downloadImages, id));
    db.downloads := db.downloads - {id};
    r := Ok;
  }
}
