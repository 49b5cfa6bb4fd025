/** What the presence check's definite answers mean: each is derivable, and the two exclude each other. */
module ConfigLookup {
  import opened Wrappers
  import opened ConfigTypes

  // ----- Every definite answer is derivable, as the lookup reads types -----

  ghost predicate TypeSays(reading: Reading, answer: Answer, w: World, file: string, t: Type, steps: seq<Step>,
                           n: nat) {
    match answer
    case Found => TypeHas(reading, w, file, t, steps, n)
    case Missing => TypeLacks(reading, w, file, t, steps, n)
    case Unknown => true
  }

  /** A definite answer on a declaration is derivable. */
  lemma {:induction false} DeclDerives(mode: Mode, w: World, id: DeclId, steps: seq<Step>, seen: Seen, fuel: nat)
    requires id in w.decls && LookupDecl(mode, w, id, steps, seen, fuel).Done?
    ensures LookupDecl(mode, w, id, steps, seen, fuel).answer == Found ==> DeclHas(mode.Sees(), w, id, steps, fuel)
    ensures LookupDecl(mode, w, id, steps, seen, fuel).answer == Missing ==> DeclLacks(mode.Sees(), w, id, steps, fuel)
    decreases fuel, 0
  {
    if steps != [] && (id, |steps|) !in seen {
      var seen' := seen + {(id, |steps|)};
      match w.decls[id]
      case Alias(aliased) => TypeDerives(mode, w, id.file, aliased, steps, seen', fuel - 1);
      case Interface(members, bases) =>
        if steps[0].Member? {
          match FindProperty(BySource, members, steps[0].name)
          case Some(p) => PropertyDerives(mode, w, id.file, p, steps, seen', fuel - 1);
          case None => BasesDerive(mode, w, id.file, bases, steps, seen', fuel - 1);
        }
    }
  }

  lemma {:induction false} PropertyDerives(mode: Mode, w: World, file: string, p: Signature, steps: seq<Step>,
                                           seen: Seen, fuel: nat)
    requires steps != [] && LookupProperty(mode, w, file, p, steps, seen, fuel).Done?
    ensures LookupProperty(mode, w, file, p, steps, seen, fuel).answer == Found ==>
              PropertyHas(mode.Sees(), w, file, p, steps, fuel)
    ensures LookupProperty(mode, w, file, p, steps, seen, fuel).answer == Missing ==>
              PropertyLacks(mode.Sees(), w, file, p, steps, fuel)
    decreases fuel, 1
  {
    if |steps| > 1 && p.Property? && p.annotation.Some? {
      TypeDerives(mode, w, file, p.annotation.value, steps[1..], seen, fuel);
    }
  }

  lemma {:induction false} BasesDerive(mode: Mode, w: World, file: string, bases: seq<Base>, steps: seq<Step>,
                                       seen: Seen, fuel: nat)
    requires LookupBases(mode, w, file, bases, steps, seen, fuel).AllDone?
    ensures var answers := LookupBases(mode, w, file, bases, steps, seen, fuel).answers;
            |answers| == |bases| && forall i | 0 <= i < |bases| ::
              && (answers[i] == Found ==> BaseHas(mode.Sees(), w, file, bases[i], steps, fuel))
              && (answers[i] == Missing ==> BaseLacks(mode.Sees(), w, file, bases[i], steps, fuel))
    decreases fuel, |bases| + 1
  {
    if bases != [] {
      var seen' := seen;
      if bases[0].Named? && w.Resolves(file, bases[0].name) {
        var id := w.resolve[(file, bases[0].name)];
        DeclDerives(mode, w, id, steps, seen, fuel);
        seen' := Handed(mode, seen, LookupDecl(mode, w, id, steps, seen, fuel).seen);
      }
      BasesDerive(mode, w, file, bases[1..], steps, seen', fuel);
    }
  }

  /** A definite answer on a type is derivable. */
  lemma {:induction false} TypeDerives(mode: Mode, w: World, file: string, t: Type, steps: seq<Step>, seen: Seen,
                                       fuel: nat)
    requires LookupType(mode, w, file, t, steps, seen, fuel).Done?
    ensures TypeSays(mode.Sees(), LookupType(mode, w, file, t, steps, seen, fuel).answer, w, file, t, steps, fuel)
    decreases fuel, 0
  {
    if steps != [] {
      match t
      case Literal(members) =>
        if steps[0].Member? && FindProperty(BySource, members, steps[0].name).Some? {
          PropertyDerives(mode, w, file, FindProperty(BySource, members, steps[0].name).value, steps, seen, fuel - 1);
        }
      case Parens(inner) => TypeDerives(mode, w, file, inner, steps, seen, fuel - 1);
      case Operator(inner) => TypeDerives(mode, w, file, inner, steps, seen, fuel - 1);
      case KeyOf(inner) => if mode != Memberless { TypeDerives(mode, w, file, inner, steps, seen, fuel - 1); }
      case Intersection(parts) => PartsDerive(mode, w, file, parts, steps, seen, fuel - 1);
      case Union(parts) => PartsDerive(mode, w, file, parts, steps, seen, fuel - 1);
      case ArrayOf(element) =>
        if steps[0].Element? { TypeDerives(mode, w, file, element, steps[1..], seen, fuel - 1); }
      case IndexedBy(target, key) => TypeDerives(mode, w, file, target, [Member(key)] + steps, seen, fuel - 1);
      case Reference(name, qualified, args) =>
        if IsPassthrough(name) && args != [] {
          TypeDerives(mode, w, file, args[0], steps, seen, fuel - 1);
        } else if IsArrayName(name) && args != [] {
          if steps[0].Element? { TypeDerives(mode, w, file, args[0], steps[1..], seen, fuel - 1); }
        } else if !qualified && w.Resolves(file, name) {
          DeclDerives(mode, w, w.resolve[(file, name)], steps, seen, fuel - 1);
        }
      case Other =>
    }
  }

  lemma {:induction false} PartsDerive(mode: Mode, w: World, file: string, parts: seq<Type>, steps: seq<Step>,
                                       seen: Seen, fuel: nat)
    requires LookupParts(mode, w, file, parts, steps, seen, fuel).AllDone?
    ensures var answers := LookupParts(mode, w, file, parts, steps, seen, fuel).answers;
            |answers| == |parts| && forall i | 0 <= i < |parts| ::
                TypeSays(mode.Sees(), answers[i], w, file, parts[i], steps, fuel)
    decreases fuel, |parts| + 1
  {
    if parts != [] {
      TypeDerives(mode, w, file, parts[0], steps, seen, fuel);
      PartsDerive(mode, w, file, parts[1..], steps,
                  Handed(mode, seen, LookupType(mode, w, file, parts[0], steps, seen, fuel).seen), fuel);
    }
  }

  // ----- References with type arguments -----

  /** A reference to a wrapper that passes members through answers as its argument does, one to an array type as
      its element does after an element step, and the arguments of no other name matter. */
  lemma ReferenceAnswers(mode: Mode, w: World, file: string, name: string, qualified: bool, args: seq<Type>,
                         steps: seq<Step>, seen: Seen, fuel: nat)
    requires steps != [] && args != []
    ensures var answer := LookupType(mode, w, file, Reference(name, qualified, args), steps, seen, fuel + 1);
            if name == "Partial" || name == "Required" || name == "Readonly" || name == "NonNullable"
            then answer == LookupType(mode, w, file, args[0], steps, seen, fuel)
            else if name == "Array" || name == "ReadonlyArray"
            then answer == if steps[0].Element? then LookupType(mode, w, file, args[0], steps[1..], seen, fuel)
                           else Done(Unknown, seen)
            else answer == LookupType(mode, w, file, Reference(name, qualified, []), steps, seen, fuel + 1)
  {}

  // ----- The definite answers exclude each other -----

  lemma {:induction false} DeclExclusive(reading: Reading, w: World, id: DeclId, steps: seq<Step>, m: nat, n: nat)
    ensures !(DeclHas(reading, w, id, steps, m) && DeclLacks(reading, w, id, steps, n))
    decreases m, 0
  {
    if steps != [] && m > 0 && n > 0 && id in w.decls {
      match w.decls[id]
      case Alias(aliased) => TypeExclusive(reading, w, id.file, aliased, steps, m - 1, n - 1);
      case Interface(members, bases) =>
        if steps[0].Member? {
          match FindProperty(reading.Names(), members, steps[0].name)
          case Some(p) => PropertyExclusive(reading, w, id.file, p, steps, m - 1, n - 1);
          case None =>
            forall i | 0 <= i < |bases|
              ensures !(BaseHas(reading, w, id.file, bases[i], steps, m - 1) &&
                        BaseLacks(reading, w, id.file, bases[i], steps, n - 1))
            {
              if bases[i].Named? && w.Resolves(id.file, bases[i].name) {
                DeclExclusive(reading, w, w.resolve[(id.file, bases[i].name)], steps, m - 1, n - 1);
              }
            }
        }
    }
  }

  lemma {:induction false} PropertyExclusive(reading: Reading, w: World, file: string, p: Signature, steps: seq<Step>,
                                             m: nat, n: nat)
    requires steps != []
    ensures !(PropertyHas(reading, w, file, p, steps, m) && PropertyLacks(reading, w, file, p, steps, n))
    decreases m, 1
  {
    if |steps| > 1 && p.Property? && p.annotation.Some? {
      TypeExclusive(reading, w, file, p.annotation.value, steps[1..], m, n);
    }
  }

  /** No path is both derivably present and derivably absent. */
  lemma {:induction false} TypeExclusive(reading: Reading, w: World, file: string, t: Type, steps: seq<Step>, m: nat,
                                         n: nat)
    ensures !(TypeHas(reading, w, file, t, steps, m) && TypeLacks(reading, w, file, t, steps, n))
    decreases m, 0
  {
    if steps != [] && m > 0 && n > 0 {
      match t
      case Literal(members) =>
        if steps[0].Member? && FindProperty(reading.Names(), members, steps[0].name).Some? {
          PropertyExclusive(reading, w, file, FindProperty(reading.Names(), members, steps[0].name).value, steps, m - 1,
                            n - 1);
        }
      case Parens(inner) => TypeExclusive(reading, w, file, inner, steps, m - 1, n - 1);
      case Operator(inner) => TypeExclusive(reading, w, file, inner, steps, m - 1, n - 1);
      case KeyOf(inner) => if reading == AsChecked { TypeExclusive(reading, w, file, inner, steps, m - 1, n - 1); }
      case Intersection(parts) =>
        forall i | 0 <= i < |parts|
          ensures !(TypeHas(reading, w, file, parts[i], steps, m - 1) &&
                    TypeLacks(reading, w, file, parts[i], steps, n - 1))
        {
          TypeExclusive(reading, w, file, parts[i], steps, m - 1, n - 1);
        }
      case Union(parts) =>
        if parts != [] { TypeExclusive(reading, w, file, parts[0], steps, m - 1, n - 1); }
      case ArrayOf(element) =>
        if steps[0].Element? { TypeExclusive(reading, w, file, element, steps[1..], m - 1, n - 1); }
      case IndexedBy(target, key) => TypeExclusive(reading, w, file, target, [Member(key)] + steps, m - 1, n - 1);
      case Reference(name, qualified, args) =>
        if IsPassthrough(name) && args != [] {
          TypeExclusive(reading, w, file, args[0], steps, m - 1, n - 1);
        } else if IsArrayName(name) && args != [] {
          if steps[0].Element? { TypeExclusive(reading, w, file, args[0], steps[1..], m - 1, n - 1); }
        } else if !qualified && w.Resolves(file, name) {
          DeclExclusive(reading, w, w.resolve[(file, name)], steps, m - 1, n - 1);
        }
      case Other =>
    }
  }
}
