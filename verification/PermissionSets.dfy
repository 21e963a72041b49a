/** Permission maps as sets of permissions (common/memory_perms.h): the operations on permissions are
    those of sets, at every address. */
module PermissionSets {
  import opened Memory
  import opened MappedMemory

  datatype Perm = Read | Write | Exec | IsMapped

  function AsSet(p: Perms): set<Perm> {
    (if p.r then {Read} else {}) + (if p.w then {Write} else {}) + (if p.x then {Exec} else {}) +
    (if p.mapped then {IsMapped} else {})
  }

  function At(m: map<nat, Perms>, a: nat): set<Perm> {
    if a in m then AsSet(m[a]) else {}
  }

  function In(x: MemoryMapping, a: nat): set<Perm> {
    if x.Has(a) then AsSet(x.perms) else {}
  }

  lemma AsSetHas(p: Perms)
    ensures (Read in AsSet(p) <==> p.r) && (Write in AsSet(p) <==> p.w)
    ensures (Exec in AsSet(p) <==> p.x) && (IsMapped in AsSet(p) <==> p.mapped)
  {
  }

  lemma SameSets(one: set<Perm>, two: set<Perm>)
    requires (Read in one <==> Read in two) && (Write in one <==> Write in two)
    requires (Exec in one <==> Exec in two) && (IsMapped in one <==> IsMapped in two)
    ensures one == two
  {
    forall k: Perm ensures k in one <==> k in two {
      match k
      case Read =>
      case Write =>
      case Exec =>
      case IsMapped =>
    }
  }

  // Permissions are combined as sets, and differ if their sets do.
  lemma SetLaws(p: Perms, q: Perms)
    ensures AsSet(p.Plus(q)) == AsSet(p) + AsSet(q)
    ensures AsSet(p.Minus(q)) == AsSet(p) - AsSet(q)
    ensures AsSet(p.Meet(q)) == AsSet(p) * AsSet(q)
    ensures p.IsEmpty() <==> AsSet(p) == {}
    ensures p.HasSomeOf(q) <==> AsSet(p) * AsSet(q) != {}
    ensures AsSet(p) == AsSet(q) ==> p == q
  {
    AsSetHas(p);
    AsSetHas(q);
    AsSetHas(p.Plus(q));
    AsSetHas(p.Minus(q));
    AsSetHas(p.Meet(q));
    SameSets(AsSet(p.Plus(q)), AsSet(p) + AsSet(q));
    SameSets(AsSet(p.Minus(q)), AsSet(p) - AsSet(q));
    SameSets(AsSet(p.Meet(q)), AsSet(p) * AsSet(q));
    if p.IsEmpty() {
      SameSets(AsSet(p), {});
    }
    if p.Meet(q).IsEmpty() {
      SameSets(AsSet(p.Meet(q)), {});
    }
  }

  // Adding a mapping adds its permissions at its addresses.
  lemma Added(m: map<nat, Perms>, x: MemoryMapping, a: nat)
    ensures At(Painted(m, x), a) == At(m, a) + In(x, a)
    ensures a in Painted(m, x) <==> a in m || x.Has(a)
  {
    if a in m {
      SetLaws(m[a], x.perms);
    }
  }

  // Setting one replaces those that its addresses had.
  lemma Replaced(m: map<nat, Perms>, x: MemoryMapping, a: nat)
    ensures At(Repainted(m, x), a) == if x.Has(a) then AsSet(x.perms) else At(m, a)
    ensures a in Repainted(m, x) <==> a in m || x.Has(a)
  {
  }

  // Removing permissions at some addresses drops those left with none.
  lemma Removed(m: map<nat, Perms>, keys: set<nat>, perms: Perms, a: nat)
    ensures At(WeakenedIn(m, keys, perms), a) == if a in keys then At(m, a) - AsSet(perms) else At(m, a)
    ensures a in WeakenedIn(m, keys, perms) <==> a in m && (a in keys ==> At(m, a) - AsSet(perms) != {})
  {
    if a in m {
      SetLaws(m[a], perms);
      SetLaws(m[a].Minus(perms), perms);
    }
  }

  lemma RemovedIn(m: map<nat, Perms>, start: nat, limit: nat, perms: Perms)
    requires start <= limit
    ensures Weakened(m, start, limit, perms) == WeakenedIn(m, Range(start, limit), perms)
  {
  }

  lemma Joins(m: map<nat, Perms>, d: map<nat, Perms>, a: nat)
    ensures At(Joined(m, d), a) == At(m, a) + At(d, a)
    ensures a in Joined(m, d) <==> a in m || a in d
  {
    if a in m && a in d {
      SetLaws(m[a], d[a]);
    }
  }

  // The difference has what is missing in the map, which together is all that the mapping has.  An address
  // with more permissions than those of the mapping is in it as well.
  lemma Difference(x: MemoryMapping, m: map<nat, Perms>, a: nat)
    ensures At(DifferenceOf(x, m), a) == In(x, a) - At(m, a)
    ensures At(m, a) + At(DifferenceOf(x, m), a) == At(m, a) + In(x, a)
    ensures a in DifferenceOf(x, m) <==> x.Has(a) && (a !in m || At(m, a) != AsSet(x.perms))
  {
    if a in m {
      SetLaws(x.perms, m[a]);
    }
  }

  lemma Intersection(x: map<nat, Perms>, y: map<nat, Perms>, a: nat)
    ensures At(IntersectionOf(x, y), a) == At(x, a) * At(y, a)
    ensures a in IntersectionOf(x, y) <==> At(x, a) * At(y, a) != {}
  {
    if a in x && a in y {
      SetLaws(x[a], y[a]);
    }
  }

  ghost predicate AllHave(m: map<nat, Perms>, lo: nat, hi: nat, k: Perm) {
    forall a: nat :: lo <= a < hi ==> k in At(m, a)
  }

  // A range has the permissions in common that each of its addresses has.
  lemma {:induction false} Common(m: map<nat, Perms>, start: nat, limit: nat, k: Perm)
    ensures k in AsSet(CommonPerms(m, start, limit)) <==> AllHave(m, start, limit, k)
    decreases limit - start
  {
    if start < limit {
      Common(m, start + 1, limit, k);
      var first := if start in m then m[start] else NONE;
      SetLaws(first, CommonPerms(m, start + 1, limit));
      assert AsSet(first) == At(m, start);
    } else {
      AsSetHas(ALL_PLUS_MAPPED);
    }
  }
}
