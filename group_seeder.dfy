/**
 * The seeder that gives every year of every speciality the groups G1 and
 * G2, each with capacity 30, through `firstOrCreate` on the group key.
 */
module GroupSeeder {
  import opened Wrappers
  import opened Php
  import opened Records
  import opened AdminGroups

  /** The name of the k-th default group. */
  function GroupName(k: nat): (r: string)
    ensures |r| >= 2 && r[0] == 'G' && r[1..] == NatToString(k)
  {
    "G" + NatToString(k)
  }

  lemma GroupNamesDistinct()
    ensures GroupName(1) != GroupName(2)
  {
    assert GroupName(1)[1..] == "1";
  }

  /** The code the seeder writes as the source has it: the year's number where the controllers use the year's id. */
  function SeederCodeAsWritten(speciality: Id, yearNumber: int, name: string): string
  {
    "SPEC" + IntToString(speciality) + "-Y" + IntToString(yearNumber) + "-" + name
  }

  /**
   * A seeded group of year 7 (number 1) of speciality 1 takes the code that
   * `store` derives for the free key (1, year 1, "G1"), so that insert
   * breaks the unique index on `code`.
   */
  lemma SeederCodeBlocksStore()
    ensures var groups := map[1 := Group(1, 1, 7, "G1", SeederCodeAsWritten(1, 1, "G1"), Some(30), true)];
            !HasGroup(groups, 1, 1, "G1") && CodeTaken(groups, GroupCode(1, 1, "G1")) && !CodesFollowKeys(groups)
  {
    var groups := map[1 := Group(1, 1, 7, "G1", SeederCodeAsWritten(1, 1, "G1"), Some(30), true)];
    assert NatToString(1) == "1";
    assert NatToString(7) == "7";
    assert groups[1].code == GroupCode(1, 1, "G1");
    assert GroupCode(1, 7, "G1") != GroupCode(1, 1, "G1") by {
      GroupCodeInjective(1, 7, "G1", 1, 1, "G1");
    }
  }

  /** A row the seeder inserts: a default name, the code of its key, capacity 30, active. */
  predicate SeededRow(g: Group)
  {
    && (g.name == GroupName(1) || g.name == GroupName(2))
    && g.code == GroupCode(g.specialityId, g.yearId, g.name)
    && g.capacity == Some(30) && g.isActive
  }

  /** `after` keeps every row of `before` as it was. */
  predicate Extends(before: map<Id, Group>, after: map<Id, Group>)
  {
    forall g :: g in before ==> g in after && after[g] == before[g]
  }

  predicate AddedAreSeeded(before: map<Id, Group>, after: map<Id, Group>)
  {
    forall g :: g in after && g !in before ==> SeededRow(after[g])
  }

  /**
   * A step of the seeder: rows are only added, each a seeded row, and the
   * unique indexes and the codes-follow-keys invariant are kept.
   */
  predicate Grows(before: map<Id, Group>, after: map<Id, Group>)
  {
    && Extends(before, after) && AddedAreSeeded(before, after)
    && (GroupsUnique(before) ==> GroupsUnique(after))
    && (CodesUnique(before) ==> CodesUnique(after))
    && (CodesFollowKeys(before) ==> CodesFollowKeys(after))
  }

  /** Two steps in a row are one step. */
  lemma GrowsTransitive(a: map<Id, Group>, b: map<Id, Group>, c: map<Id, Group>)
    requires Grows(a, b) && Grows(b, c)
    ensures Grows(a, c)
  {
  }

  /** The years of speciality `s` (`$speciality->years`). */
  function YearsOf(years: map<Id, Year>, s: Id): (r: set<Id>)
    ensures forall y :: y in r <==> y in years && years[y].specialityId == s
  {
    set y | y in years && years[y].specialityId == s
  }

  /** The years in `ys` of speciality `s` have both default groups. */
  predicate YearsCovered(groups: map<Id, Group>, s: Id, ys: set<Id>)
  {
    forall y: Id, k: nat :: y in ys && 1 <= k <= 2 ==> HasGroup(groups, s, y, GroupName(k))
  }

  /** Every year of a speciality in `specs` has both default groups. */
  predicate Covered(groups: map<Id, Group>, specs: set<Id>, years: map<Id, Year>)
  {
    forall y: Id, k: nat :: y in years && years[y].specialityId in specs && 1 <= k <= 2 ==>
      HasGroup(groups, years[y].specialityId, y, GroupName(k))
  }

  lemma ExtendsKeepsHasGroup(a: map<Id, Group>, b: map<Id, Group>, s: Id, y: Id, name: string)
    requires Extends(a, b) && HasGroup(a, s, y, name)
    ensures HasGroup(b, s, y, name)
  {
    var g :| g in a && a[g].specialityId == s && a[g].yearId == y && a[g].name == name;
    assert g in b && b[g] == a[g];
  }

  lemma ExtendsKeepsYearsCovered(a: map<Id, Group>, b: map<Id, Group>, s: Id, ys: set<Id>)
    requires Extends(a, b) && YearsCovered(a, s, ys)
    ensures YearsCovered(b, s, ys)
  {
    forall y: Id, k: nat | y in ys && 1 <= k <= 2
      ensures HasGroup(b, s, y, GroupName(k))
    {
      ExtendsKeepsHasGroup(a, b, s, y, GroupName(k));
    }
  }

  lemma ExtendsKeepsCovered(a: map<Id, Group>, b: map<Id, Group>, specs: set<Id>, years: map<Id, Year>)
    requires Extends(a, b) && Covered(a, specs, years)
    ensures Covered(b, specs, years)
  {
    forall y: Id, k: nat | y in years && years[y].specialityId in specs && 1 <= k <= 2
      ensures HasGroup(b, years[y].specialityId, y, GroupName(k))
    {
      ExtendsKeepsHasGroup(a, b, years[y].specialityId, y, GroupName(k));
    }
  }

  /**
   * `firstOrCreate` of one default group: nothing happens when the key is
   * taken; otherwise the row is inserted, unless its code is taken, when the
   * insert throws (`ok` is false) and the table is left as it was.
   */
  method FirstOrCreateGroup(db: Database, s: Id, y: Id, name: string) returns (ok: bool)
    requires name == GroupName(1) || name == GroupName(2)
    modifies db`groups
    ensures Grows(old(db.groups), db.groups)
    ensures ok <==> HasGroup(old(db.groups), s, y, name) || !CodeTaken(old(db.groups), GroupCode(s, y, name))
    ensures ok ==> HasGroup(db.groups, s, y, name)
    ensures !ok ==> db.groups == old(db.groups)
    ensures HasGroup(old(db.groups), s, y, name) ==> db.groups == old(db.groups)
    ensures ok && !HasGroup(old(db.groups), s, y, name) ==>
              exists id :: id !in old(db.groups) && db.groups == old(db.groups)[id := Group(id, s, y, name, GroupCode(s, y, name), Some(30), true)]
    ensures CodesFollowKeys(old(db.groups)) ==> ok
  {
    if HasGroup(db.groups, s, y, name) {
      return true;
    }
    var code := GroupCode(s, y, name);
    if CodesFollowKeys(db.groups) {
      FreeKeyHasFreeCode(db.groups, s, y, name);
    }
    if CodeTaken(db.groups, code) {
      return false;
    }
    var id := NextId(db.groups.Keys);
    var g := Group(id, s, y, name, code, Some(30), true);
    InsertFreshGroup(db.groups, id, g);
    db.groups := db.groups[id := g];
    assert db.groups[id] == g;
    return true;
  }

  /** The inner loop of `run`: G1 then G2 for year `y` of speciality `s`. */
  method SeedYear(db: Database, s: Id, y: Id) returns (ok: bool)
    modifies db`groups
    ensures Grows(old(db.groups), db.groups)
    ensures CodesFollowKeys(old(db.groups)) ==>
              ok && HasGroup(db.groups, s, y, GroupName(1)) && HasGroup(db.groups, s, y, GroupName(2))
    ensures HasGroup(old(db.groups), s, y, GroupName(1)) && HasGroup(old(db.groups), s, y, GroupName(2)) ==>
              ok && db.groups == old(db.groups)
  {
    var k := 1;
    while k <= 2
      invariant 1 <= k <= 3
      invariant Grows(old(db.groups), db.groups)
      invariant HasGroup(old(db.groups), s, y, GroupName(1)) && HasGroup(old(db.groups), s, y, GroupName(2)) ==>
                  db.groups == old(db.groups)
      invariant CodesFollowKeys(old(db.groups)) ==>
                  (k > 1 ==> HasGroup(db.groups, s, y, GroupName(1)))
                  && (k > 2 ==> HasGroup(db.groups, s, y, GroupName(2)))
    {
      ghost var prev := db.groups;
      assert k == 1 || k == 2;
      ok := FirstOrCreateGroup(db, s, y, GroupName(k));
      if !ok {
        return;
      }
      GrowsTransitive(old(db.groups), prev, db.groups);
      if k > 1 && HasGroup(prev, s, y, GroupName(1)) {
        ExtendsKeepsHasGroup(prev, db.groups, s, y, GroupName(1));
      }
      k := k + 1;
    }
    ok := true;
  }

  /** The middle loop of `run`: every year of speciality `s`. */
  method SeedSpeciality(db: Database, s: Id) returns (ok: bool)
    modifies db`groups
    ensures Grows(old(db.groups), db.groups)
    ensures CodesFollowKeys(old(db.groups)) ==> ok && YearsCovered(db.groups, s, YearsOf(db.years, s))
    ensures YearsCovered(old(db.groups), s, YearsOf(db.years, s)) ==> ok && db.groups == old(db.groups)
  {
    var all := YearsOf(db.years, s);
    var years := all;
    ghost var seeded := YearsCovered(db.groups, s, all);
    while years != {}
      invariant years <= all
      invariant Grows(old(db.groups), db.groups)
      invariant seeded ==> db.groups == old(db.groups)
      invariant CodesFollowKeys(old(db.groups)) ==> YearsCovered(db.groups, s, all - years)
      decreases |years|
    {
      var y :| y in years;
      ghost var prev := db.groups;
      if seeded {
        CoveredYear(db.groups, s, all, y);
      }
      ok := SeedYear(db, s, y);
      if !ok {
        return;
      }
      if CodesFollowKeys(old(db.groups)) {
        ExtendsKeepsYearsCovered(prev, db.groups, s, all - years);
        CoverYear(db.groups, s, all, years, y);
      }
      GrowsTransitive(old(db.groups), prev, db.groups);
      VisitOne(all, years, y);
      years := years - {y};
    }
    assert all - years == all;
    ok := true;
  }

  /**
   * `run`: visits each speciality and each of its years and creates G1 and
   * G2 where missing. Already-present groups are kept as they are; `ok` is
   * false when an insert was rejected by the unique index on `code`, which
   * ends the run.
   */
  method SeedGroups(db: Database) returns (ok: bool)
    modifies db`groups
    ensures Grows(old(db.groups), db.groups)
    ensures CodesFollowKeys(old(db.groups)) ==> ok && Covered(db.groups, db.specialities.Keys, db.years)
    ensures Covered(old(db.groups), db.specialities.Keys, db.years) ==> ok && db.groups == old(db.groups)
  {
    var all, years := db.specialities.Keys, db.years;
    var specs := all;
    ghost var seeded := Covered(db.groups, all, years);
    while specs != {}
      invariant specs <= all && all == db.specialities.Keys && years == db.years
      invariant Grows(old(db.groups), db.groups)
      invariant seeded ==> db.groups == old(db.groups)
      invariant CodesFollowKeys(old(db.groups)) ==> Covered(db.groups, all - specs, years)
      decreases |specs|
    {
      var s :| s in specs;
      ghost var prev := db.groups;
      if seeded {
        CoveredSpeciality(db.groups, all, s, years);
      }
      ok := SeedSpeciality(db, s);
      if !ok {
        return;
      }
      if CodesFollowKeys(old(db.groups)) {
        ExtendsKeepsCovered(prev, db.groups, all - specs, years);
        CoverSpeciality(db.groups, all, specs, s, years);
      }
      GrowsTransitive(old(db.groups), prev, db.groups);
      VisitOne(all, specs, s);
      specs := specs - {s};
    }
    assert all - specs == all;
    ok := true;
  }

  /** A covered year has both default groups. */
  lemma CoveredYear(groups: map<Id, Group>, s: Id, ys: set<Id>, y: Id)
    requires YearsCovered(groups, s, ys) && y in ys
    ensures HasGroup(groups, s, y, GroupName(1)) && HasGroup(groups, s, y, GroupName(2))
  {
    assert 1 <= 1 <= 2 && 1 <= 2 <= 2;
  }

  /** A covered speciality has every one of its years covered. */
  lemma CoveredSpeciality(groups: map<Id, Group>, specs: set<Id>, s: Id, years: map<Id, Year>)
    requires Covered(groups, specs, years) && s in specs
    ensures YearsCovered(groups, s, YearsOf(years, s))
  {
    forall y: Id, k: nat | y in YearsOf(years, s) && 1 <= k <= 2
      ensures HasGroup(groups, s, y, GroupName(k))
    {
      assert years[y].specialityId == s;
    }
  }

  /** Covering year `y` as well extends the covered part of `all` by `y`. */
  lemma CoverYear(groups: map<Id, Group>, s: Id, all: set<Id>, rest: set<Id>, y: Id)
    requires YearsCovered(groups, s, all - rest)
    requires HasGroup(groups, s, y, GroupName(1)) && HasGroup(groups, s, y, GroupName(2))
    ensures YearsCovered(groups, s, all - (rest - {y}))
  {
    forall y': Id, k: nat | y' in all - (rest - {y}) && 1 <= k <= 2
      ensures HasGroup(groups, s, y', GroupName(k))
    {
      if y' == y {
        assert k == 1 || k == 2;
      } else {
        assert y' in all - rest;
      }
    }
  }

  /** Covering speciality `s` as well extends the covered part of `all` by `s`. */
  lemma CoverSpeciality(groups: map<Id, Group>, all: set<Id>, rest: set<Id>, s: Id, years: map<Id, Year>)
    requires Covered(groups, all - rest, years)
    requires YearsCovered(groups, s, YearsOf(years, s))
    ensures Covered(groups, all - (rest - {s}), years)
  {
    forall y: Id, k: nat | y in years && years[y].specialityId in all - (rest - {s}) && 1 <= k <= 2
      ensures HasGroup(groups, years[y].specialityId, y, GroupName(k))
    {
      if years[y].specialityId == s {
        assert y in YearsOf(years, s);
        assert HasGroup(groups, s, y, GroupName(k));
      } else {
        assert years[y].specialityId in all - rest;
      }
    }
  }
}
