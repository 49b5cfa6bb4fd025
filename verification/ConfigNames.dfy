/** What the presence check says about members by name. It compares the source text of property names
    (scripts/gen-config-catalog.ts:414), so its answers are about names only where the two cannot differ. */
module ConfigNames {
  import opened Wrappers
  import opened ConfigTypes
  import opened ConfigKeyof

  // ----- Names that are written as they read -----

  /** For each of `names`, the property is called so exactly when it is written so. */
  predicate NameFaithful(name: Name, names: set<string>) {
    forall s | s in names :: name.text == s <==> name.Written() == s
  }

  /** Every property of the type is, and every indexed access is by one of the names. */
  predicate TypeFaithful(t: Type, names: set<string>) {
    match t
    case Literal(members) => MembersFaithful(members, names)
    case Parens(inner) => TypeFaithful(inner, names)
    case Operator(inner) => TypeFaithful(inner, names)
    case KeyOf(inner) => TypeFaithful(inner, names)
    case Intersection(parts) => AllFaithful(parts, names)
    case Union(parts) => AllFaithful(parts, names)
    case ArrayOf(element) => TypeFaithful(element, names)
    case IndexedBy(target, key) => key in names && TypeFaithful(target, names)
    case Reference(_, _, args) => AllFaithful(args, names)
    case Other => true
  }

  predicate AllFaithful(ts: seq<Type>, names: set<string>) {
    forall i | 0 <= i < |ts| :: TypeFaithful(ts[i], names)
  }

  predicate MembersFaithful(members: seq<Signature>, names: set<string>) {
    forall i | 0 <= i < |members| :: SignatureFaithful(members[i], names)
  }

  predicate SignatureFaithful(p: Signature, names: set<string>) {
    p.Property? ==> NameFaithful(p.name, names) && (p.annotation.Some? ==> TypeFaithful(p.annotation.value, names))
  }

  predicate DeclFaithful(d: Decl, names: set<string>) {
    match d
    case Alias(aliased) => TypeFaithful(aliased, names)
    case Interface(members, _) => MembersFaithful(members, names)
  }

  ghost predicate WorldFaithful(w: World, names: set<string>) {
    forall id | id in w.decls :: DeclFaithful(w.decls[id], names)
  }

  ghost predicate StepsNamed(steps: seq<Step>, names: set<string>) {
    forall i | 0 <= i < |steps| && steps[i].Member? :: steps[i].name in names
  }

  lemma {:induction false} FindsAlike(members: seq<Signature>, names: set<string>, s: string)
    requires MembersFaithful(members, names) && s in names
    ensures FindProperty(BySource, members, s) == FindProperty(ByName, members, s)
    ensures FindProperty(BySource, members, s).Some? ==>
              SignatureFaithful(FindProperty(BySource, members, s).value, names)
  {
    if members != [] {
      assert SignatureFaithful(members[0], names);
      FindsAlike(members[1..], names, s);
    }
  }

  // ----- Derivations by what is written are derivations by name -----

  lemma {:induction false} DeclAlike(w: World, id: DeclId, steps: seq<Step>, names: set<string>, n: nat)
    requires WorldFaithful(w, names) && StepsNamed(steps, names)
    ensures DeclHas(AsWritten, w, id, steps, n) <==> DeclHas(AsNamed, w, id, steps, n)
    ensures DeclLacks(AsWritten, w, id, steps, n) <==> DeclLacks(AsNamed, w, id, steps, n)
    decreases n, 0
  {
    if steps != [] && n > 0 && id in w.decls {
      assert DeclFaithful(w.decls[id], names);
      match w.decls[id]
      case Alias(aliased) => TypeAlike(w, id.file, aliased, steps, names, n - 1);
      case Interface(members, bases) =>
        if steps[0].Member? {
          FindsAlike(members, names, steps[0].name);
          match FindProperty(BySource, members, steps[0].name)
          case Some(p) => PropertyAlike(w, id.file, p, steps, names, n - 1);
          case None =>
            forall i | 0 <= i < |bases|
              ensures BaseHas(AsWritten, w, id.file, bases[i], steps, n - 1) <==>
                        BaseHas(AsNamed, w, id.file, bases[i], steps, n - 1)
              ensures BaseLacks(AsWritten, w, id.file, bases[i], steps, n - 1) <==>
                        BaseLacks(AsNamed, w, id.file, bases[i], steps, n - 1)
            {
              if bases[i].Named? && w.Resolves(id.file, bases[i].name) {
                DeclAlike(w, w.resolve[(id.file, bases[i].name)], steps, names, n - 1);
              }
            }
        }
    }
  }

  lemma {:induction false} PropertyAlike(w: World, file: string, p: Signature, steps: seq<Step>, names: set<string>,
                                         n: nat)
    requires WorldFaithful(w, names) && SignatureFaithful(p, names) && steps != [] && StepsNamed(steps, names)
    ensures PropertyHas(AsWritten, w, file, p, steps, n) <==> PropertyHas(AsNamed, w, file, p, steps, n)
    ensures PropertyLacks(AsWritten, w, file, p, steps, n) <==> PropertyLacks(AsNamed, w, file, p, steps, n)
    decreases n, 1
  {
    if |steps| > 1 && p.Property? && p.annotation.Some? {
      TypeAlike(w, file, p.annotation.value, steps[1..], names, n);
    }
  }

  lemma {:induction false} TypeAlike(w: World, file: string, t: Type, steps: seq<Step>, names: set<string>, n: nat)
    requires WorldFaithful(w, names) && TypeFaithful(t, names) && StepsNamed(steps, names)
    ensures TypeHas(AsWritten, w, file, t, steps, n) <==> TypeHas(AsNamed, w, file, t, steps, n)
    ensures TypeLacks(AsWritten, w, file, t, steps, n) <==> TypeLacks(AsNamed, w, file, t, steps, n)
    decreases n, 0
  {
    if steps != [] && n > 0 {
      match t
      case Literal(members) =>
        if steps[0].Member? {
          FindsAlike(members, names, steps[0].name);
          if FindProperty(BySource, members, steps[0].name).Some? {
            PropertyAlike(w, file, FindProperty(BySource, members, steps[0].name).value, steps, names, n - 1);
          }
        }
      case Parens(inner) => TypeAlike(w, file, inner, steps, names, n - 1);
      case Operator(inner) => TypeAlike(w, file, inner, steps, names, n - 1);
      case KeyOf(_) =>
      case Intersection(parts) => PartsAlike(w, file, parts, steps, names, n - 1);
      case Union(parts) => PartsAlike(w, file, parts, steps, names, n - 1);
      case ArrayOf(element) => TypeAlike(w, file, element, steps[1..], names, n - 1);
      case IndexedBy(target, key) => TypeAlike(w, file, target, [Member(key)] + steps, names, n - 1);
      case Reference(name, qualified, args) =>
        if IsPassthrough(name) && args != [] {
          TypeAlike(w, file, args[0], steps, names, n - 1);
        } else if IsArrayName(name) && args != [] {
          TypeAlike(w, file, args[0], steps[1..], names, n - 1);
        } else if !qualified && w.Resolves(file, name) {
          DeclAlike(w, w.resolve[(file, name)], steps, names, n - 1);
        }
      case Other =>
    }
  }

  lemma PartsAlike(w: World, file: string, parts: seq<Type>, steps: seq<Step>, names: set<string>, n: nat)
    requires WorldFaithful(w, names) && AllFaithful(parts, names) && StepsNamed(steps, names)
    ensures forall i | 0 <= i < |parts| :: TypeHas(AsWritten, w, file, parts[i], steps, n) <==>
              TypeHas(AsNamed, w, file, parts[i], steps, n)
    ensures forall i | 0 <= i < |parts| :: TypeLacks(AsWritten, w, file, parts[i], steps, n) <==>
              TypeLacks(AsNamed, w, file, parts[i], steps, n)
    decreases n, 1
  {
    forall i | 0 <= i < |parts|
      ensures TypeHas(AsWritten, w, file, parts[i], steps, n) <==> TypeHas(AsNamed, w, file, parts[i], steps, n)
      ensures TypeLacks(AsWritten, w, file, parts[i], steps, n) <==> TypeLacks(AsNamed, w, file, parts[i], steps, n)
    {
      TypeAlike(w, file, parts[i], steps, names, n);
    }
  }

  // ----- What the answers say about names -----

  /** Where no property is written like a name of the path without being called so, or the reverse, `Missing`
      holds of the members the types declare by name, and so does `Found` where the path passes no `keyof`. */
  lemma NamedSound(mode: Mode, w: World, file: string, t: Type, steps: seq<Step>, names: set<string>, seen: Seen,
                   fuel: nat)
    requires mode != Memberless && LookupType(mode, w, file, t, steps, seen, fuel).Done?
    requires WorldFaithful(w, names) && TypeFaithful(t, names) && StepsNamed(steps, names)
    ensures LookupType(mode, w, file, t, steps, seen, fuel).answer == Found && TypeClear(w, file, t, steps, fuel) ==>
              TypeHas(AsNamed, w, file, t, steps, fuel)
    ensures LookupType(mode, w, file, t, steps, seen, fuel).answer == Missing ==>
              TypeLacks(AsNamed, w, file, t, steps, fuel)
  {
    hide *;
    TypeSound(mode, w, file, t, steps, seen, fuel);
    TypeAlike(w, file, t, steps, names, fuel);
  }

  ghost predicate SomeReads(naming: Naming, members: seq<Signature>, s: string) {
    exists i :: 0 <= i < |members| && members[i].Property? && members[i].name.Read(naming) == s
  }

  lemma {:induction false} FindsIfAny(naming: Naming, members: seq<Signature>, s: string)
    ensures FindProperty(naming, members, s).Some? <==> SomeReads(naming, members, s)
  {
    if members != [] {
      FindsIfAny(naming, members[1..], s);
      if SomeReads(naming, members[1..], s) {
        var i :| 0 <= i < |members[1..]| && members[1..][i].Property? && members[1..][i].name.Read(naming) == s;
        assert members[i + 1] == members[1..][i];
      }
      if SomeReads(naming, members, s) && !(members[0].Property? && members[0].name.Read(naming) == s) {
        var i :| 0 <= i < |members| && members[i].Property? && members[i].name.Read(naming) == s;
        assert members[1..][i - 1] == members[i];
      }
    }
  }

  /** The answer is `Found` just where the object declares a member of the name, and `Missing` just where it
      lacks it. */
  ghost predicate NamedRight(w: World, file: string, members: seq<Signature>, s: string, answer: Answer) {
    && (answer == Found <==> TypeHas(AsNamed, w, file, Literal(members), [Member(s)], 1))
    && (answer == Missing <==> TypeLacks(AsNamed, w, file, Literal(members), [Member(s)], 1))
  }

  /** On one object the answer for one member is right exactly when a property is called so if and only
      if one is written so. */
  lemma ObjectRightExactly(w: World, file: string, members: seq<Signature>, s: string, seen: Seen, fuel: nat)
    requires fuel > 0
    ensures LookupType(Shared, w, file, Literal(members), [Member(s)], seen, fuel).Done?
    ensures NamedRight(w, file, members, s,
                       LookupType(Shared, w, file, Literal(members), [Member(s)], seen, fuel).answer)
       <==> (SomeReads(ByName, members, s) <==> SomeReads(BySource, members, s))
  {
    FindsIfAny(ByName, members, s);
    FindsIfAny(BySource, members, s);
    hide SomeReads, FindProperty;
  }
}
