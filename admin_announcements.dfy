/**
 * The administrator's announcements, and the rule that keeps
 * `published_at` in step with `is_published`.
 */
module AdminAnnouncements {
  import opened Wrappers
  import opened Records
  import opened Http
  import opened Validation

  /** A record's publication columns: the flag and its timestamp. */
  datatype Publication = Publication(isPublished: bool, publishedAt: Option<int>)

  /** A publication is consistent when it carries a timestamp exactly while published. */
  predicate Consistent(p: Publication)
  {
    p.isPublished <==> p.publishedAt.Some?
  }

  /** On create: the flag defaults to false, and a published record is stamped `now`. */
  function PublishOnStore(flag: Field<bool>, now: int): (p: Publication)
    ensures p.isPublished == flag.OrElse(false)
    ensures p.publishedAt == if p.isPublished then Some(now) else None
    ensures Consistent(p)
  {
    var on := flag.OrElse(false);
    Publication(on, if on then Some(now) else None)
  }

  /**
   * On update: absent, both columns stay; true keeps an existing timestamp
   * or stamps `now`; false clears it.
   */
  function PublishOnUpdate(flag: Field<bool>, current: Publication, now: int): (p: Publication)
    requires flag.Has() ==> flag.Given?
    ensures !flag.Has() ==> p == current
    ensures flag == Given(true) ==> p.isPublished && p.publishedAt == Some(current.publishedAt.GetOr(now))
    ensures flag == Given(false) ==> p == Publication(false, None)
  {
    if !flag.Has() then current
    else if flag.value then Publication(true, Some(current.publishedAt.GetOr(now)))
    else Publication(false, None)
  }

  /** Updates keep a consistent publication consistent; republishing keeps the first timestamp. */
  lemma PublishOnUpdateKeepsConsistent(flag: Field<bool>, current: Publication, now: int)
    requires flag.Has() ==> flag.Given?
    requires Consistent(current)
    ensures Consistent(PublishOnUpdate(flag, current, now))
    ensures current.isPublished && flag == Given(true) ==> PublishOnUpdate(flag, current, now) == current
  {
  }

  const Audiences: set<string> := {"all", "students", "specific_specialite"}

  datatype StoreRequest = StoreRequest(
    title: Field<Text>, content: Field<Text>, isPublished: Field<bool>, targetAudience: Field<string>)

  /** `title.fr` and `content.fr` required, `is_published` boolean, `target_audience` one of three. */
  predicate StoreValid(q: StoreRequest)
  {
    NameWithFrench(q.title) && NameWithFrench(q.content)
    && (q.isPublished.Has() ==> q.isPublished.Given?) && SometimesIn(q.targetAudience, Audiences)
  }

  function NewAnnouncement(id: Id, q: StoreRequest, author: Id, now: int): (a: Announcement)
    requires StoreValid(q)
    ensures a.authorId == author && a.title == q.title.value && a.content == q.content.value
    ensures Publication(a.isPublished, a.publishedAt) == PublishOnStore(q.isPublished, now)
    ensures a.targetAudience == q.targetAudience.OrElse("all") && a.targetAudience in Audiences
  {
    var p := PublishOnStore(q.isPublished, now);
    Announcement(id, q.title.value, q.content.value, author, p.isPublished, p.publishedAt, q.targetAudience.OrElse("all"))
  }

  method Store(db: Database, q: StoreRequest, author: Id, now: int) returns (r: Response, id: Id)
    modifies db`announcements
    ensures !StoreValid(q) ==> r == ValidationError && db.announcements == old(db.announcements)
    ensures StoreValid(q) ==>
              r == Created && id !in old(db.announcements)
              && db.announcements == old(db.announcements)[id := NewAnnouncement(id, q, author, now)]
  {
    id := 1;
    if !StoreValid(q) {
      return ValidationError, id;
    }
    id := NextId(db.announcements.Keys);
    db.announcements := db.announcements[id := NewAnnouncement(id, q, author, now)];
    r := Created;
  }

  datatype UpdateRequest = UpdateRequest(
    title: Field<Text>, content: Field<Text>, isPublished: Field<bool>, targetAudience: Field<string>)

  predicate UpdateValid(q: UpdateRequest)
  {
    (q.title.Has() ==> q.title.Given?) && (q.content.Has() ==> q.content.Given?)
    && (q.isPublished.Has() ==> q.isPublished.Given?) && SometimesIn(q.targetAudience, Audiences)
  }

  /** The announcement after `update`: the author never changes. */
  function ApplyUpdate(a: Announcement, q: UpdateRequest, now: int): (b: Announcement)
    requires UpdateValid(q)
    ensures b.id == a.id && b.authorId == a.authorId
    ensures b.title == q.title.OrElse(a.title) && b.content == q.content.OrElse(a.content)
    ensures b.targetAudience == q.targetAudience.OrElse(a.targetAudience)
    ensures Publication(b.isPublished, b.publishedAt) ==
            PublishOnUpdate(q.isPublished, Publication(a.isPublished, a.publishedAt), now)
  {
    var p := PublishOnUpdate(q.isPublished, Publication(a.isPublished, a.publishedAt), now);
    a.(title := q.title.OrElse(a.title), content := q.content.OrElse(a.content),
       targetAudience := q.targetAudience.OrElse(a.targetAudience),
       isPublished := p.isPublished, publishedAt := p.publishedAt)
  }

  method Update(db: Database, id: Id, q: UpdateRequest, now: int) returns (r: Response)
    modifies db`announcements
    ensures id !in old(db.announcements) ==> r == ModelNotFound && db.announcements == old(db.announcements)
    ensures id in old(db.announcements) && !UpdateValid(q) ==> r == ValidationError && db.announcements == old(db.announcements)
    ensures id in old(db.announcements) && UpdateValid(q) ==>
              r == Ok && db.announcements == old(db.announcements)[id := ApplyUpdate(old(db.announcements[id]), q, now)]
  {
    if id !in db.announcements {
      return ModelNotFound;
    }
    if !UpdateValid(q) {
      return ValidationError;
    }
    db.announcements := db.announcements[id := ApplyUpdate(db.announcements[id], q, now)];
    return Ok;
  }

  method Destroy(db: Database, id: Id) returns (r: Response)
    modifies db`announcements
    ensures id !in old(db.announcements) ==> r == ModelNotFound && db.announcements == old(db.announcements)
    ensures id in old(db.announcements) ==> r == Ok && db.announcements == old(db.announcements) - {id}
  {
    if id !in db.announcements {
      return ModelNotFound;
    }
    db.announcements := db.announcements - {id};
    return Ok;
  }
}
