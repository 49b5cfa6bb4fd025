/** What the presence check makes of `keyof` (scripts/gen-config-catalog.ts:456): it looks through it, so it
    finds members that no value has. `missing` is right all the same, and `found` is where the path passes
    no `keyof`. */
module ConfigKeyof {
  import opened Wrappers
  import opened ConfigTypes
  import opened ConfigLookup
  import KeyPaths

  // ----- Paths that pass no `keyof` -----

  /** Following the steps for `n` levels passes no `keyof`. */
  ghost predicate DeclClear(w: World, id: DeclId, steps: seq<Step>, n: nat)
    decreases n, 0
  {
    steps == [] || n == 0 || id !in w.decls ||
      match w.decls[id]
      case Alias(aliased) => TypeClear(w, id.file, aliased, steps, n - 1)
      case Interface(members, bases) =>
        steps[0].Member? ==>
          match FindProperty(BySource, members, steps[0].name)
          case Some(p) => PropertyClear(w, id.file, p, steps, n - 1)
          case None => forall i | 0 <= i < |bases| :: BaseClear(w, id.file, bases[i], steps, n - 1)
  }

  ghost predicate BaseClear(w: World, file: string, base: Base, steps: seq<Step>, n: nat)
    decreases n, 1
  {
    base.Named? && w.Resolves(file, base.name) ==> DeclClear(w, w.resolve[(file, base.name)], steps, n)
  }

  ghost predicate PropertyClear(w: World, file: string, p: Signature, steps: seq<Step>, n: nat)
    requires steps != []
    decreases n, 1
  {
    |steps| > 1 && p.Property? && p.annotation.Some? ==> TypeClear(w, file, p.annotation.value, steps[1..], n)
  }

  ghost predicate TypeClear(w: World, file: string, t: Type, steps: seq<Step>, n: nat)
    decreases n, 0
  {
    steps == [] || n == 0 ||
      match t
      case Literal(members) =>
        steps[0].Member? && FindProperty(BySource, members, steps[0].name).Some? ==>
          PropertyClear(w, file, FindProperty(BySource, members, steps[0].name).value, steps, n - 1)
      case Parens(inner) => TypeClear(w, file, inner, steps, n - 1)
      case Operator(inner) => TypeClear(w, file, inner, steps, n - 1)
      case KeyOf(_) => false
      case Intersection(parts) => forall i | 0 <= i < |parts| :: TypeClear(w, file, parts[i], steps, n - 1)
      case Union(parts) => forall i | 0 <= i < |parts| :: TypeClear(w, file, parts[i], steps, n - 1)
      case ArrayOf(element) => steps[0].Element? ==> TypeClear(w, file, element, steps[1..], n - 1)
      case IndexedBy(target, key) => TypeClear(w, file, target, [Member(key)] + steps, n - 1)
      case Reference(name, qualified, args) =>
        if IsPassthrough(name) && args != [] then TypeClear(w, file, args[0], steps, n - 1)
        else if IsArrayName(name) && args != [] then steps[0].Element? ==>
            TypeClear(w, file, args[0], steps[1..], n - 1)
        else !qualified && w.Resolves(file, name) ==> DeclClear(w, w.resolve[(file, name)], steps, n - 1)
      case Other => true
  }

  /** However far the steps are followed. */
  ghost predicate KeyofFree(w: World, file: string, t: Type, steps: seq<Step>) {
    forall n: nat :: TypeClear(w, file, t, steps, n)
  }

  // ----- As the check has it, and as written -----

  /** What is there as written is there as the check has it, and the reverse with absence; where no `keyof`
      is passed, both readings agree. */
  lemma {:induction false} DeclCompare(w: World, id: DeclId, steps: seq<Step>, n: nat)
    ensures DeclCompared(w, id, steps, n)
    decreases n, 0
  {
    if steps != [] && n > 0 && id in w.decls {
      match w.decls[id]
      case Alias(aliased) => TypeCompare(w, id.file, aliased, steps, n - 1);
      case Interface(members, bases) =>
        if steps[0].Member? {
          match FindProperty(BySource, members, steps[0].name)
          case Some(p) => PropertyCompare(w, id.file, p, steps, n - 1);
          case None =>
            forall i | 0 <= i < |bases| ensures BaseCompared(w, id.file, bases[i], steps, n - 1) {
              BaseCompare(w, id.file, bases[i], steps, n - 1);
            }
        }
    }
  }

  ghost predicate BaseCompared(w: World, file: string, base: Base, steps: seq<Step>, n: nat) {
    && (BaseHas(AsWritten, w, file, base, steps, n) ==> BaseHas(AsChecked, w, file, base, steps, n))
    && (BaseLacks(AsChecked, w, file, base, steps, n) ==> BaseLacks(AsWritten, w, file, base, steps, n))
    && (BaseClear(w, file, base, steps, n) ==>
          && (BaseHas(AsWritten, w, file, base, steps, n) <==> BaseHas(AsChecked, w, file, base, steps, n))
          && (BaseLacks(AsChecked, w, file, base, steps, n) <==> BaseLacks(AsWritten, w, file, base, steps, n)))
  }

  lemma BaseCompare(w: World, file: string, base: Base, steps: seq<Step>, n: nat)
    ensures BaseCompared(w, file, base, steps, n)
    decreases n, 1
  {
    if base.Named? && w.Resolves(file, base.name) { DeclCompare(w, w.resolve[(file, base.name)], steps, n); }
  }

  ghost predicate DeclCompared(w: World, id: DeclId, steps: seq<Step>, n: nat) {
    && (DeclHas(AsWritten, w, id, steps, n) ==> DeclHas(AsChecked, w, id, steps, n))
    && (DeclLacks(AsChecked, w, id, steps, n) ==> DeclLacks(AsWritten, w, id, steps, n))
    && (DeclClear(w, id, steps, n) ==>
          && (DeclHas(AsWritten, w, id, steps, n) <==> DeclHas(AsChecked, w, id, steps, n))
          && (DeclLacks(AsChecked, w, id, steps, n) <==> DeclLacks(AsWritten, w, id, steps, n)))
  }

  lemma {:induction false} PropertyCompare(w: World, file: string, p: Signature, steps: seq<Step>, n: nat)
    requires steps != []
    ensures PropertyHas(AsWritten, w, file, p, steps, n) ==> PropertyHas(AsChecked, w, file, p, steps, n)
    ensures PropertyLacks(AsChecked, w, file, p, steps, n) ==> PropertyLacks(AsWritten, w, file, p, steps, n)
    ensures PropertyClear(w, file, p, steps, n) ==>
              && (PropertyHas(AsWritten, w, file, p, steps, n) <==> PropertyHas(AsChecked, w, file, p, steps, n))
              && (PropertyLacks(AsChecked, w, file, p, steps, n) <==> PropertyLacks(AsWritten, w, file, p, steps, n))
    decreases n, 1
  {
    if |steps| > 1 && p.Property? && p.annotation.Some? { TypeCompare(w, file, p.annotation.value, steps[1..], n); }
  }

  lemma {:induction false} TypeCompare(w: World, file: string, t: Type, steps: seq<Step>, n: nat)
    ensures TypeCompared(w, file, t, steps, n)
    decreases n, 0
  {
    if steps != [] && n > 0 {
      match t
      case Literal(members) =>
        if steps[0].Member? && FindProperty(BySource, members, steps[0].name).Some? {
          PropertyCompare(w, file, FindProperty(BySource, members, steps[0].name).value, steps, n - 1);
        }
      case Parens(inner) => TypeCompare(w, file, inner, steps, n - 1);
      case Operator(inner) => TypeCompare(w, file, inner, steps, n - 1);
      case KeyOf(_) =>
      case Intersection(parts) => PartsCompare(w, file, parts, steps, n - 1);
      case Union(parts) => PartsCompare(w, file, parts, steps, n - 1);
      case ArrayOf(element) => if steps[0].Element? { TypeCompare(w, file, element, steps[1..], n - 1); }
      case IndexedBy(target, key) => TypeCompare(w, file, target, [Member(key)] + steps, n - 1);
      case Reference(name, qualified, args) =>
        if IsPassthrough(name) && args != [] {
          TypeCompare(w, file, args[0], steps, n - 1);
        } else if IsArrayName(name) && args != [] {
          if steps[0].Element? { TypeCompare(w, file, args[0], steps[1..], n - 1); }
        } else if !qualified && w.Resolves(file, name) {
          DeclCompare(w, w.resolve[(file, name)], steps, n - 1);
        }
      case Other =>
    }
  }

  lemma PartsCompare(w: World, file: string, parts: seq<Type>, steps: seq<Step>, n: nat)
    ensures forall i | 0 <= i < |parts| :: TypeCompared(w, file, parts[i], steps, n)
    decreases n, 1
  {
    forall i | 0 <= i < |parts| ensures TypeCompared(w, file, parts[i], steps, n) {
      TypeCompare(w, file, parts[i], steps, n);
    }
  }

  ghost predicate TypeCompared(w: World, file: string, t: Type, steps: seq<Step>, n: nat) {
    && (TypeHas(AsWritten, w, file, t, steps, n) ==> TypeHas(AsChecked, w, file, t, steps, n))
    && (TypeLacks(AsChecked, w, file, t, steps, n) ==> TypeLacks(AsWritten, w, file, t, steps, n))
    && (TypeClear(w, file, t, steps, n) ==>
          && (TypeHas(AsWritten, w, file, t, steps, n) <==> TypeHas(AsChecked, w, file, t, steps, n))
          && (TypeLacks(AsChecked, w, file, t, steps, n) <==> TypeLacks(AsWritten, w, file, t, steps, n)))
  }

  // ----- What the answers say -----

  /** On a declaration `Missing` is derivable of the types as written, and so is `Found` where the path
      passes no `keyof`. */
  lemma DeclSound(mode: Mode, w: World, id: DeclId, steps: seq<Step>, seen: Seen, fuel: nat)
    requires mode != Memberless && id in w.decls && LookupDecl(mode, w, id, steps, seen, fuel).Done?
    ensures LookupDecl(mode, w, id, steps, seen, fuel).answer == Found && DeclClear(w, id, steps, fuel) ==>
              DeclHas(AsWritten, w, id, steps, fuel)
    ensures LookupDecl(mode, w, id, steps, seen, fuel).answer == Missing ==> DeclLacks(AsWritten, w, id, steps, fuel)
  {
    DeclDerives(mode, w, id, steps, seen, fuel);
    DeclCompare(w, id, steps, fuel);
    hide DeclHas, DeclLacks, DeclClear, LookupDecl;
  }

  /** The same on every form of type. */
  lemma TypeSound(mode: Mode, w: World, file: string, t: Type, steps: seq<Step>, seen: Seen, fuel: nat)
    requires mode != Memberless && LookupType(mode, w, file, t, steps, seen, fuel).Done?
    ensures LookupType(mode, w, file, t, steps, seen, fuel).answer == Found && TypeClear(w, file, t, steps, fuel) ==>
              TypeHas(AsWritten, w, file, t, steps, fuel)
    ensures LookupType(mode, w, file, t, steps, seen, fuel).answer == Missing ==>
              TypeLacks(AsWritten, w, file, t, steps, fuel)
  {
    TypeDerives(mode, w, file, t, steps, seen, fuel);
    TypeCompare(w, file, t, steps, fuel);
    hide TypeHas, TypeLacks, TypeClear, LookupType;
  }

  /** Whatever is found in a type is found under `keyof` as well, and is never there. */
  lemma KeyofNeverRight(w: World, file: string, t: Type, steps: seq<Step>, seen: Seen, fuel: nat, n: nat)
    requires steps != []
    ensures LookupType(Shared, w, file, KeyOf(t), steps, seen, fuel + 1) ==
              LookupType(Shared, w, file, t, steps, seen, fuel)
    ensures !TypeHas(AsWritten, w, file, KeyOf(t), steps, n) && !TypeHas(AsNamed, w, file, KeyOf(t), steps, n)
    ensures TypeLacks(AsWritten, w, file, KeyOf(t), steps, n + 1) && TypeLacks(AsNamed, w, file, KeyOf(t), steps, n + 1)
  {}

  /** `interface Config { m: keyof { a: number } }`. */
  function KeyofConfig(): Decl {
    Interface([Property(Identifier("m"), Some(KeyOf(Literal([Property(Identifier("a"), Some(Other))]))))], [])
  }

  lemma KeyReads()
    ensures KeyPaths.StepsOf("m.a") == [Member("m"), Member("a")]
  {
    KeyPaths.RenderReadsBack("m", [Member("a")]);
    assert [Member("a")][..0] == [];
    assert KeyPaths.Render([Member("a")]) == ".a";
    assert KeyPaths.PathString("m", [Member("a")]) == "m.a";
    assert [Member("m")] + [Member("a")] == [Member("m"), Member("a")];
  }

  /** The key `m.a` is found in it, though `m` is but the string `a`. */
  lemma KeyofFound(w: World, id: DeclId, fuel: nat, n: nat)
    requires id in w.decls && w.decls[id] == KeyofConfig() && fuel >= 3
    ensures var steps := KeyPaths.StepsOf("m.a");
            && LookupDecl(Shared, w, id, steps, {}, fuel).Done? &&
                LookupDecl(Shared, w, id, steps, {}, fuel).answer == Found
            && !DeclHas(AsNamed, w, id, steps, n) && DeclLacks(AsNamed, w, id, steps, n + 2)
  {
    KeyReads();
    var steps, seen := [Member("m"), Member("a")], {} + {(id, 2)};
    var inner := Literal([Property(Identifier("a"), Some(Other))]);
    var m := Property(Identifier("m"), Some(KeyOf(inner)));
    assert KeyofConfig() == Interface([m], []);
    assert steps[1..] == [Member("a")];
    FindsOnly(BySource, m, "m");
    FindsOnly(ByName, m, "m");
    FindsOnly(BySource, Property(Identifier("a"), Some(Other)), "a");
    assert LookupType(Shared, w, id.file, inner, [Member("a")], seen, fuel - 2) == Done(Found, seen);
    KeyofNeverRight(w, id.file, inner, [Member("a")], seen, fuel - 2, n);
    KeyofNeverRight(w, id.file, inner, [Member("a")], seen, fuel - 2, if n == 0 then 0 else n - 1);
    hide FindProperty;
    assert LookupProperty(Shared, w, id.file, m, steps, seen, fuel - 1) == Done(Found, seen);
  }

  lemma FindsOnly(naming: Naming, p: Signature, name: string)
    requires p.Property? && p.name == Identifier(name)
    ensures FindProperty(naming, [p], name) == Some(p)
  {}
}
