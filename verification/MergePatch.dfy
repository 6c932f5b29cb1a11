/** JSON Merge Patch (section 2 of RFC 7396) and the diff that a client computes to produce one. */
module MergePatch {

  /** Member names. The ones this model speaks of are constructors, so that they are plainly distinct. */
  datatype Name =
    | StatusKey | DiagnosticsKey | PhaseKey | NotifiedAtKey | LastLogLinesKey | OomContextKey | OtherKey(name: string)

  /** A JSON value. Merge patches treat arrays as atoms, so array items are opaque; an RFC 3339
      timestamp is held as the instant it denotes. */
  datatype Json =
    | Null
    | Scalar(text: string)
    | Instant(at: int)
    | Array(items: seq<string>)
    | Object(members: map<Name, Json>)

  /** The members of an object, or none for any other value (an absent value is passed as Null). */
  function Members(j: Json): (m: map<Name, Json>)
  {
    if j.Object? then j.members else map[]
  }

  function Member(j: Json, k: Name): (v: Json)
  {
    if k in Members(j) then Members(j)[k] else Null
  }

  /** The MergePatch procedure of RFC 7396. */
  function Merge(target: Json, patch: Json): (r: Json)
    decreases patch
  {
    if !patch.Object? then patch
    else
      Object(map k | k in Members(target).Keys + patch.members.Keys && !(k in patch.members && patch.members[k].Null?)
             :: if k in patch.members then Merge(Member(target, k), patch.members[k]) else Members(target)[k])
  }

  /** No object member anywhere in j is null: what encoding a Go struct with omitempty produces. */
  predicate NoNulls(j: Json)
  {
    match j
    case Null => false
    case Object(m) => forall k | k in m :: NoNulls(m[k])
    case _ => true
  }

  /** CreateMergePatch: removed members become null, equal ones are omitted, objects are descended into. */
  function Diff(a: Json, b: Json): (p: Json)
    requires a.Object? && b.Object?
    ensures p.Object?
    decreases a
  {
    Object(map k | k in a.members.Keys + b.members.Keys
                   && !(k in a.members && k in b.members && a.members[k] == b.members[k])
           :: if k !in b.members then Null
              else if k in a.members && a.members[k].Object? && b.members[k].Object?
              then Diff(a.members[k], b.members[k])
              else b.members[k])
  }

  /** Merging a null-free value into something that is not an object gives that value. */
  lemma {:induction false} MergeIntoAtom(target: Json, j: Json)
    requires NoNulls(j) && !target.Object?
    ensures Merge(target, j) == j
    decreases j
  {
    if j.Object? {
      forall k | k in j.members ensures Merge(Member(target, k), j.members[k]) == j.members[k] {
        MergeIntoAtom(Null, j.members[k]);
      }
      assert Merge(target, j).members == j.members;
    }
  }

  /** Round trip: patching a with the diff from a to b gives b, for every null-free b. */
  lemma {:induction false} MergeDiff(a: Json, b: Json)
    requires a.Object? && b.Object? && NoNulls(b)
    ensures Merge(a, Diff(a, b)) == b
    decreases a
  {
    var p := Diff(a, b);
    var r := Merge(a, p);
    forall k | k in b.members
      ensures k in r.members && r.members[k] == b.members[k]
    {
      if k in p.members {
        assert r.members[k] == Merge(Member(a, k), p.members[k]);
        if k in a.members && a.members[k].Object? && b.members[k].Object? {
          MergeDiff(a.members[k], b.members[k]);
        } else if b.members[k].Object? {
          MergeIntoAtom(Member(a, k), b.members[k]);
        }
      }
    }
    assert r.members.Keys == b.members.Keys;
    assert r.members == b.members;
  }

  /** A diff is empty exactly when there is nothing to change, so omitting empty nested diffs loses nothing. */
  lemma DiffEmptyIff(a: Json, b: Json)
    requires a.Object? && b.Object?
    ensures Diff(a, b).members == map[] <==> a == b
  {
    if Diff(a, b).members == map[] {
      forall k | k in a.members.Keys + b.members.Keys
        ensures k in a.members && k in b.members && a.members[k] == b.members[k]
      {
        assert k !in Diff(a, b).members;
      }
      assert a.members == b.members;
    }
  }

  lemma DiffOneMember(base: map<Name, Json>, k: Name, x: Json, y: Json)
    requires x.Object? && y.Object? && x != y
    ensures Diff(Object(base[k := x]), Object(base[k := y])) == Object(map[k := Diff(x, y)])
  {
    var d := Diff(Object(base[k := x]), Object(base[k := y])).members;
    assert d.Keys == {k};
    assert d == map[k := Diff(x, y)];
  }

  lemma MergeOneMember(base: map<Name, Json>, k: Name, x: Json, p: Json)
    requires p.Object?
    ensures Merge(Object(base[k := x]), Object(map[k := p])) == Object(base[k := Merge(x, p)])
  {
    var d := Merge(Object(base[k := x]), Object(map[k := p])).members;
    assert d.Keys == base.Keys + {k};
    assert d == base[k := Merge(x, p)];
  }

  /** The members of v that u lacks or holds with another value. */
  function Changed(u: map<Name, Json>, v: map<Name, Json>): (m: map<Name, Json>)
  {
    map k | k in v && !(k in u && u[k] == v[k]) :: v[k]
  }

  /** When nothing is removed and no object is patched in part, the diff is the changed members as they stand. */
  lemma DiffWhole(u: map<Name, Json>, v: map<Name, Json>)
    requires u.Keys <= v.Keys
    requires forall k | k in u && u[k] != v[k] && u[k].Object? && v[k].Object? :: Diff(u[k], v[k]) == v[k]
    ensures Diff(Object(u), Object(v)) == Object(Changed(u, v))
  {
    assert Diff(Object(u), Object(v)).members == Changed(u, v);
  }

  /** When every member of the patch replaces what it meets, merging is map update. */
  lemma MergeWhole(base: map<Name, Json>, p: map<Name, Json>)
    requires forall k | k in p :: !p[k].Null? && Merge(Member(Object(base), k), p[k]) == p[k]
    ensures Merge(Object(base), Object(p)) == Object(base + p)
  {
    assert Merge(Object(base), Object(p)).members == base + p;
  }

  lemma MergeAtoms(base: map<Name, Json>, p: map<Name, Json>)
    requires forall k | k in p :: !p[k].Null? && !p[k].Object?
    ensures Merge(Object(base), Object(p)) == Object(base + p)
  {
    forall k | k in p ensures Merge(Member(Object(base), k), p[k]) == p[k] {}
    MergeWhole(base, p);
  }
}
