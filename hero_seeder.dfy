/**
 * The seeder that installs eleven hero slides with static images: the
 * gradient each slide gets, the slide data, and the upsert keyed on the
 * image path after stale slides are deleted.
 */
module HeroSeeder {
  import opened Wrappers
  import opened Php
  import opened Records
  import opened Uploads
  import opened HeroSlideModel

  /** The number of seeded slides. */
  const SlideCount: nat := 11

  const Gradients: seq<string> := [
    "from-blue-600 to-cyan-500",
    "from-emerald-600 to-teal-500",
    "from-purple-600 to-pink-500",
    "from-orange-600 to-red-500",
    "from-indigo-600 to-purple-500",
    "from-green-600 to-emerald-500",
    "from-rose-600 to-pink-500",
    "from-cyan-600 to-blue-500",
    "from-yellow-600 to-orange-500",
    "from-violet-600 to-purple-500",
    "from-teal-600 to-cyan-500"]

  /**
   * `getGradientForIndex`: the gradient at `(index - 1) % 11` with PHP's
   * truncating `%`; a negative position names no gradient (`None`).
   */
  function GradientFor(index: int): (r: Option<string>)
    ensures index >= 1 ==> r == Some(Gradients[(index - 1) % |Gradients|])
    ensures index < 1 ==> (r.Some? <==> (1 - index) % |Gradients| == 0)
  {
    var k := Rem(index - 1, |Gradients|);
    if k < 0 then None else Some(Gradients[k])
  }

  /** Slide i of 1 to 11 gets the i-th gradient. */
  lemma GradientInOrder(i: int)
    requires 1 <= i <= SlideCount
    ensures GradientFor(i) == Some(Gradients[i - 1])
  {
    assert (i - 1) % |Gradients| == i - 1;
  }

  /** The slides 1 to 11 get different gradients: the letters after "from-" differ. */
  lemma GradientsDistinct(i: int, j: int)
    requires 1 <= i <= SlideCount && 1 <= j <= SlideCount && i != j
    ensures GradientFor(i) != GradientFor(j)
  {
    GradientInOrder(i);
    GradientInOrder(j);
    assert Gradients[i - 1][5] != Gradients[j - 1][5];
  }

  /** The gradients repeat every eleven slides. */
  lemma GradientsCycle(index: int)
    requires index >= 1
    ensures GradientFor(index + |Gradients|) == GradientFor(index)
  {
    assert (index + |Gradients| - 1) % |Gradients| == (index - 1) % |Gradients|;
  }

  const Title: Text := map[
    "fr" := "Formation Supérieure Paramédicale d'Excellence",
    "ar" := "تدريب طبي مساعد متميز",
    "en" := "Excellence in Paramedical Higher Education"]

  const Subtitle: Text := map[
    "fr" := "Préparez votre avenir professionnel dans le secteur paramédical avec nos formations de qualité",
    "ar" := "جهز مستقبلك المهني في القطاع الطبي المساعد مع تدريبنا عالي الجودة",
    "en" := "Prepare your professional future in the paramedical sector with our quality training"]

  /** The static image of slide `i`. */
  function StaticPath(i: nat): string
  {
    "/images/hero/hero-" + NatToString(i) + ".jpg"
  }

  /** Slides with different numbers have different static images. */
  lemma StaticPathInjective(i: nat, j: nat)
    ensures StaticPath(i) == StaticPath(j) ==> i == j
  {
    var p, q := StaticPath(i), StaticPath(j);
    if p == q {
      assert p[18..|p| - 4] == NatToString(i);
      assert q[18..|q| - 4] == NatToString(j);
      NatToStringInjective(i, j);
    }
  }

  /** The data of slide `i` under key `id`, created at `createdAt`. */
  function SeedSlide(id: Id, i: nat, createdAt: int): (s: HeroSlide)
    ensures s.id == id && s.createdAt == createdAt && s.title == Title && s.subtitle == Some(Subtitle)
    ensures s.image == Some(Attachment(StaticPath(i), "hero-" + NatToString(i) + ".jpg"))
    ensures s.order == i - 1 && s.isActive
    ensures i >= 1 ==> s.gradient == Some(Gradients[(i - 1) % |Gradients|])
  {
    HeroSlide(id, Title, Some(Subtitle), Some(Attachment(StaticPath(i), "hero-" + NatToString(i) + ".jpg")),
              i - 1, true, GradientFor(i), createdAt)
  }

  /** A seeded slide is served from its static path, never through the disk's URL. */
  lemma SeedSlideUrl(id: Id, i: nat, createdAt: int, url: string -> string)
    ensures ImageUrl(SeedSlide(id, i, createdAt), url) == Some(StaticPath(i))
  {
    var p := StaticPath(i);
    assert p[..|StaticPrefix|] == StaticPrefix;
    assert p[0] == '/';
  }

  /** A slide the seeder deletes first: inactive and without an image. */
  predicate Stale(s: HeroSlide)
  {
    !s.isActive && s.image.None?
  }

  /** `where('is_active', false)->whereNull('image_path')->delete()`. */
  function Purge(slides: map<Id, HeroSlide>): (r: map<Id, HeroSlide>)
    ensures forall k :: k in r <==> k in slides && !Stale(slides[k])
    ensures forall k :: k in r ==> r[k] == slides[k]
  {
    map k | k in slides && !Stale(slides[k]) :: slides[k]
  }

  predicate HasPath(s: HeroSlide, p: string)
  {
    s.image.Some? && s.image.value.path == p
  }

  /** At most one slide has image path `p`. */
  predicate OnePerPath(slides: map<Id, HeroSlide>, p: string)
  {
    forall a, b :: a in slides && b in slides && HasPath(slides[a], p) && HasPath(slides[b], p) ==> a == b
  }

  /** At most one slide per static image. */
  predicate StaticPathsUnique(slides: map<Id, HeroSlide>)
  {
    forall i :: 1 <= i <= SlideCount ==> OnePerPath(slides, StaticPath(i))
  }

  /** The lookup of `updateOrCreate`: some slide with image path `p`, if there is one. */
  method FindByPath(slides: map<Id, HeroSlide>, p: string) returns (found: Option<Id>)
    ensures found.Some? ==> found.value in slides && HasPath(slides[found.value], p)
    ensures found.None? ==> forall k :: k in slides ==> !HasPath(slides[k], p)
  {
    var rest := slides.Keys;
    found := None;
    while rest != {}
      invariant rest <= slides.Keys
      invariant forall k :: k in slides.Keys - rest ==> !HasPath(slides[k], p)
      decreases |rest|
    {
      var k :| k in rest;
      if HasPath(slides[k], p) {
        return Some(k);
      }
      VisitOne(slides.Keys, rest, k);
      rest := rest - {k};
    }
    assert slides.Keys - rest == slides.Keys;
  }

  /**
   * `updateOrCreate(['image_path' => StaticPath(i)], data)`: the slide found
   * by the lookup is rewritten with slide i's data, keeping its key and
   * creation time; without one a slide is created at time `now`.
   */
  method Upsert(slides: map<Id, HeroSlide>, i: nat, now: int) returns (r: map<Id, HeroSlide>, id: Id, createdAt: int)
    ensures r == slides[id := SeedSlide(id, i, createdAt)]
    ensures id in slides ==> HasPath(slides[id], StaticPath(i)) && createdAt == slides[id].createdAt
    ensures id !in slides ==> (forall k :: k in slides ==> !HasPath(slides[k], StaticPath(i))) && createdAt == now
  {
    var found := FindByPath(slides, StaticPath(i));
    if found.Some? {
      id := found.value;
      createdAt := slides[id].createdAt;
    } else {
      id := NextId(slides.Keys);
      createdAt := now;
    }
    r := slides[id := SeedSlide(id, i, createdAt)];
  }

  /** An upsert of a static image keeps at most one slide per static image. */
  lemma UpsertKeepsUnique(slides: map<Id, HeroSlide>, i: nat, id: Id, createdAt: int)
    requires 1 <= i <= SlideCount && StaticPathsUnique(slides)
    requires id in slides ==> HasPath(slides[id], StaticPath(i))
    requires id !in slides ==> forall k :: k in slides ==> !HasPath(slides[k], StaticPath(i))
    ensures StaticPathsUnique(slides[id := SeedSlide(id, i, createdAt)])
  {
    var r := slides[id := SeedSlide(id, i, createdAt)];
    forall j | 1 <= j <= SlideCount
      ensures OnePerPath(r, StaticPath(j))
    {
      StaticPathInjective(j, i);
      assert OnePerPath(slides, StaticPath(j));
    }
  }

  /** Slide j + 1 is stored under `ids[j]`. */
  predicate Placed(slides: map<Id, HeroSlide>, ids: seq<Id>)
  {
    forall j :: 0 <= j < |ids| ==> ids[j] in slides && slides[ids[j]] == SeedSlide(ids[j], j + 1, slides[ids[j]].createdAt)
  }

  /** Every purged row is still there, and each row is either seeded (its key in `ids`) or kept as it was. */
  predicate KeptRows(slides: map<Id, HeroSlide>, purged: map<Id, HeroSlide>, ids: seq<Id>)
  {
    (forall k :: k in purged ==> k in slides)
    && (forall k :: k in slides ==> k in ids || (k in purged && slides[k] == purged[k]))
  }

  predicate NoStale(slides: map<Id, HeroSlide>)
  {
    forall k :: k in slides ==> !Stale(slides[k])
  }

  /** An upsert of slide |ids| + 1 keeps the earlier slides in place. */
  lemma {:induction false} UpsertPlaced(slides: map<Id, HeroSlide>, ids: seq<Id>, id: Id, createdAt: int)
    requires Placed(slides, ids)
    requires id in slides ==> HasPath(slides[id], StaticPath(|ids| + 1))
    requires id !in slides ==> forall k :: k in slides ==> !HasPath(slides[k], StaticPath(|ids| + 1))
    ensures Placed(slides[id := SeedSlide(id, |ids| + 1, createdAt)], ids + [id])
  {
    forall j | 0 <= j < |ids|
      ensures ids[j] != id
    {
      StaticPathInjective(j + 1, |ids| + 1);
    }
  }

  /** An upsert under `id` keeps every other row and adds no stale one. */
  lemma UpsertKeeps(slides: map<Id, HeroSlide>, purged: map<Id, HeroSlide>, ids: seq<Id>, id: Id, s: HeroSlide)
    requires KeptRows(slides, purged, ids) && NoStale(slides) && !Stale(s)
    ensures KeptRows(slides[id := s], purged, ids + [id]) && NoStale(slides[id := s])
  {
    forall k | k in slides[id := s]
      ensures k in ids + [id] || (k in purged && slides[id := s][k] == purged[k])
    {
      if k != id {
        assert k in ids ==> k in ids + [id];
      }
    }
  }

  /**
   * The state of `run` after seeding slides 1 to |ids| over the purged
   * table: each placed, every other row kept, none stale, and (when the
   * table had one slide per static image) still one per static image.
   */
  predicate SeededSoFar(slides: map<Id, HeroSlide>, purged: map<Id, HeroSlide>, ids: seq<Id>, unique: bool)
  {
    |ids| <= SlideCount && Placed(slides, ids) && KeptRows(slides, purged, ids) && NoStale(slides)
    && (unique ==> StaticPathsUnique(slides))
  }

  /** Upserting slide |ids| + 1 is one more step of `run`. */
  lemma SeedStep(slides: map<Id, HeroSlide>, purged: map<Id, HeroSlide>, ids: seq<Id>, unique: bool, id: Id, createdAt: int)
    requires SeededSoFar(slides, purged, ids, unique) && |ids| < SlideCount
    requires id in slides ==> HasPath(slides[id], StaticPath(|ids| + 1))
    requires id !in slides ==> forall k :: k in slides ==> !HasPath(slides[k], StaticPath(|ids| + 1))
    ensures SeededSoFar(slides[id := SeedSlide(id, |ids| + 1, createdAt)], purged, ids + [id], unique)
  {
    UpsertPlaced(slides, ids, id, createdAt);
    UpsertKeeps(slides, purged, ids, id, SeedSlide(id, |ids| + 1, createdAt));
    if unique {
      UpsertKeepsUnique(slides, |ids| + 1, id, createdAt);
    }
  }

  /**
   * `run`: delete the stale slides, then for i = 1..11 update the slide
   * holding the static image of slide i, or create it at time `now`.
   * `ids[j]` is the key of slide j + 1.
   */
  method Run(db: Database, now: int) returns (ids: seq<Id>)
    modifies db`heroSlides
    ensures |ids| == SlideCount
    ensures forall j :: 0 <= j < SlideCount ==>
              ids[j] in db.heroSlides && db.heroSlides[ids[j]] == SeedSlide(ids[j], j + 1, db.heroSlides[ids[j]].createdAt)
    ensures forall k :: k in Purge(old(db.heroSlides)) ==> k in db.heroSlides
    ensures forall k :: k in db.heroSlides ==>
              k in ids || (k in Purge(old(db.heroSlides)) && db.heroSlides[k] == Purge(old(db.heroSlides))[k])
    ensures forall k :: k in db.heroSlides ==> !Stale(db.heroSlides[k])
    ensures StaticPathsUnique(old(db.heroSlides)) ==> StaticPathsUnique(db.heroSlides)
  {
    ghost var unique := StaticPathsUnique(db.heroSlides);
    var slides := Purge(db.heroSlides);
    ghost var purged := slides;
    ids := [];
    while |ids| < SlideCount
      invariant SeededSoFar(slides, purged, ids, unique)
      decreases SlideCount - |ids|
    {
      var next, id, c := Upsert(slides, |ids| + 1, now);
      SeedStep(slides, purged, ids, unique, id, c);
      slides, ids := next, ids + [id];
    }
    db.heroSlides := slides;
  }
}
