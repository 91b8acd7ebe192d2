/** The seeder that gives every speciality its numbered academic years. */
module YearSeeder {
  import opened Wrappers
  import opened Php
  import opened Records
  import SpecialityDuration

  const FrenchYearNames: seq<string> :=
    ["Première Année", "Deuxième Année", "Troisième Année", "Quatrième Année", "Cinquième Année"]
  const ArabicYearNames: seq<string> :=
    ["السنة الأولى", "السنة الثانية", "السنة الثالثة", "السنة الرابعة", "السنة الخامسة"]

  /** `getYearName`: the fixed fr/ar names of years 1..5, otherwise "Année N". */
  function YearName(n: int, locale: string): (r: string)
    ensures locale == "fr" && 1 <= n <= 5 ==> r == FrenchYearNames[n - 1]
    ensures locale == "ar" && 1 <= n <= 5 ==> r == ArabicYearNames[n - 1]
    ensures !(1 <= n <= 5 && (locale == "fr" || locale == "ar")) ==> r == "Année " + IntToString(n)
  {
    if locale == "fr" && 1 <= n <= 5 then FrenchYearNames[n - 1]
    else if locale == "ar" && 1 <= n <= 5 then ArabicYearNames[n - 1]
    else "Année " + IntToString(n)
  }

  /** Within one locale, the five named years have five different names. */
  lemma YearNamesDistinct(a: int, b: int, locale: string)
    requires 1 <= a <= 5 && 1 <= b <= 5 && (locale == "fr" || locale == "ar") && a != b
    ensures YearName(a, locale) != YearName(b, locale)
  {
  }

  /** A multilingual value's text in one locale; a missing locale reads as "". */
  function InLocale(t: Text, locale: string): string
  {
    if locale in t then t[locale] else ""
  }

  /** The number of years seeded for a speciality: its duration, 3 when unknown. */
  function SeedDuration(s: Speciality): (d: int)
    ensures d >= 0
    ensures SpecialityDuration.DurationInYears(s.duration).None? ==> d == 3
    ensures SpecialityDuration.DurationInYears(s.duration).Some? ==> d == SpecialityDuration.DurationInYears(s.duration).value
  {
    SpecialityDuration.DurationInYears(s.duration).GetOr(3)
  }

  /** The row the seeder creates for year `n` of speciality `sid`. */
  function SeededYear(id: Id, sid: Id, s: Speciality, n: int): Year
  {
    Year(id, sid, n,
         map["fr" := YearName(n, "fr"), "ar" := YearName(n, "ar")],
         Some(map["fr" := "Année " + IntToString(n) + " de " + InLocale(s.name, "fr"),
                  "ar" := "السنة " + IntToString(n) + " من " + InLocale(s.name, "ar")]),
         n, true)
  }

  /** Every speciality already has all the years the seeder would create. */
  predicate Covered(specs: map<Id, Speciality>, years: map<Id, Year>)
  {
    forall sid, n :: sid in specs && 1 <= n <= SeedDuration(specs[sid]) ==> HasYear(years, sid, n)
  }

  /** Rows are only ever added, never changed or removed. */
  predicate Extends(before: map<Id, Year>, after: map<Id, Year>)
  {
    forall k :: k in before ==> k in after && after[k] == before[k]
  }

  /** Every row not in `before` is a seeded year of a known speciality. */
  predicate AddedAreSeeded(specs: map<Id, Speciality>, before: map<Id, Year>, after: map<Id, Year>)
  {
    forall k :: k in after && k !in before ==>
      var y := after[k];
      y.specialityId in specs && 1 <= y.yearNumber <= SeedDuration(specs[y.specialityId])
      && y == SeededYear(k, y.specialityId, specs[y.specialityId], y.yearNumber)
  }

  lemma ExtendsKeepsHasYear(before: map<Id, Year>, after: map<Id, Year>, sid: Id, n: int)
    requires Extends(before, after) && HasYear(before, sid, n)
    ensures HasYear(after, sid, n)
  {
    var k :| k in before && before[k].specialityId == sid && before[k].yearNumber == n;
    assert k in after && after[k] == before[k];
  }

  /** `Year::firstOrCreate` keyed on (speciality_id, year_number). */
  method FirstOrCreateYear(db: Database, sid: Id, s: Speciality, n: int)
    modifies db`years
    ensures HasYear(old(db.years), sid, n) ==> db.years == old(db.years)
    ensures !HasYear(old(db.years), sid, n) ==>
              exists k :: k !in old(db.years) && db.years == old(db.years)[k := SeededYear(k, sid, s, n)]
    ensures HasYear(db.years, sid, n) && Extends(old(db.years), db.years)
    ensures YearsUnique(old(db.years)) ==> YearsUnique(db.years)
  {
    if HasYear(db.years, sid, n) {
      return;
    }
    var k := NextId(db.years.Keys);
    db.years := db.years[k := SeededYear(k, sid, s, n)];
    assert db.years[k].specialityId == sid && db.years[k].yearNumber == n;
  }

  /**
   * A step of the seeder over specialities `specs`: rows are only added, each
   * a seeded year; nothing is added when every year was already there; the
   * unique index on (speciality, year number) is kept.
   */
  predicate Grows(specs: map<Id, Speciality>, before: map<Id, Year>, after: map<Id, Year>)
  {
    && Extends(before, after) && AddedAreSeeded(specs, before, after)
    && (Covered(specs, before) ==> after == before)
    && (YearsUnique(before) ==> YearsUnique(after))
  }

  /** Two steps in a row are one step. */
  lemma GrowsTransitive(specs: map<Id, Speciality>, a: map<Id, Year>, b: map<Id, Year>, c: map<Id, Year>)
    requires Grows(specs, a, b) && Grows(specs, b, c)
    ensures Grows(specs, a, c)
  {
  }

  /** Speciality `sid` has years 1 to its duration. */
  predicate HasAllYears(years: map<Id, Year>, sid: Id, s: Speciality)
  {
    forall n :: 1 <= n <= SeedDuration(s) ==> HasYear(years, sid, n)
  }

  /** The specialities `done` have all their years. */
  predicate Done(specs: map<Id, Speciality>, done: set<Id>, years: map<Id, Year>)
  {
    forall sid :: sid in done && sid in specs ==> HasAllYears(years, sid, specs[sid])
  }

  lemma ExtendsKeepsDone(specs: map<Id, Speciality>, done: set<Id>, before: map<Id, Year>, after: map<Id, Year>)
    requires Extends(before, after) && Done(specs, done, before)
    ensures Done(specs, done, after)
  {
    forall sid, n | sid in done && sid in specs && 1 <= n <= SeedDuration(specs[sid])
      ensures HasYear(after, sid, n)
    {
      ExtendsKeepsHasYear(before, after, sid, n);
    }
  }

  /** Covering speciality `sid` as well extends the covered part of `all` by `sid`. */
  lemma DoneOneMore(specs: map<Id, Speciality>, all: set<Id>, rest: set<Id>, sid: Id, years: map<Id, Year>)
    requires sid in specs && Done(specs, all - rest, years) && HasAllYears(years, sid, specs[sid])
    ensures Done(specs, all - (rest - {sid}), years)
  {
  }

  /** Every speciality of `specs` done is the database covered. */
  lemma AllDone(specs: map<Id, Speciality>, years: map<Id, Year>)
    requires Done(specs, specs.Keys, years)
    ensures Covered(specs, years)
  {
    forall sid, n | sid in specs && 1 <= n <= SeedDuration(specs[sid])
      ensures HasYear(years, sid, n)
    {
      assert HasAllYears(years, sid, specs[sid]);
    }
  }

  /** A `firstOrCreate` of year `n` of a speciality, within its duration, is a step of the seeder. */
  lemma FirstOrCreateGrows(specs: map<Id, Speciality>, sid: Id, n: int, before: map<Id, Year>, after: map<Id, Year>)
    requires sid in specs && 1 <= n <= SeedDuration(specs[sid])
    requires HasYear(before, sid, n) ==> after == before
    requires !HasYear(before, sid, n) ==> exists k :: k !in before && after == before[k := SeededYear(k, sid, specs[sid], n)]
    requires YearsUnique(before) ==> YearsUnique(after)
    ensures Grows(specs, before, after)
  {
    if !HasYear(before, sid, n) {
      var k :| k !in before && after == before[k := SeededYear(k, sid, specs[sid], n)];
      assert after[k] == SeededYear(k, sid, specs[sid], n);
    }
  }

  /** The inner loop of `run`: years 1 to d of speciality `sid`. */
  method SeedSpeciality(db: Database, specs: map<Id, Speciality>, sid: Id)
    requires sid in specs
    modifies db`years
    ensures Grows(specs, old(db.years), db.years)
    ensures HasAllYears(db.years, sid, specs[sid])
  {
    var s := specs[sid];
    var d := SeedDuration(s);
    var n := 1;
    while n <= d
      invariant 1 <= n <= d + 1
      invariant Grows(specs, old(db.years), db.years)
      invariant forall m :: 1 <= m < n ==> HasYear(db.years, sid, m)
      decreases d - n
    {
      ghost var before := db.years;
      FirstOrCreateYear(db, sid, s, n);
      FirstOrCreateGrows(specs, sid, n, before, db.years);
      GrowsTransitive(specs, old(db.years), before, db.years);
      forall m | 1 <= m < n
        ensures HasYear(db.years, sid, m)
      {
        ExtendsKeepsHasYear(before, db.years, sid, m);
      }
      n := n + 1;
    }
  }

  /**
   * `run`: for every speciality, years 1..d where d is its duration (3 when
   * unknown), each created only when its (speciality, number) pair is missing.
   * Existing rows are kept, so running it on a covered database adds nothing.
   */
  method SeedYears(db: Database)
    modifies db`years
    ensures Grows(db.specialities, old(db.years), db.years)
    ensures Covered(db.specialities, db.years)
  {
    var specs := db.specialities;
    var all := specs.Keys;
    var rest := all;
    while rest != {}
      invariant rest <= all && all == specs.Keys && specs == db.specialities
      invariant Grows(specs, old(db.years), db.years)
      invariant Done(specs, all - rest, db.years)
      decreases |rest|
    {
      var sid :| sid in rest;
      ghost var before := db.years;
      SeedSpeciality(db, specs, sid);
      ExtendsKeepsDone(specs, all - rest, before, db.years);
      DoneOneMore(specs, all, rest, sid, db.years);
      GrowsTransitive(specs, old(db.years), before, db.years);
      VisitOne(all, rest, sid);
      rest := rest - {sid};
    }
    assert all - rest == all;
    AllDone(specs, db.years);
  }
}
