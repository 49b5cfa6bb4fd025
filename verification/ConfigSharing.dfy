/** What sharing `seen` between siblings costs (scripts/gen-config-catalog.ts:399-401): never a wrong
    answer, only one that turns `unknown`; and when it costs nothing. */
module ConfigSharing {
  import opened Wrappers
  import opened ConfigTypes
  import opened ConfigLookup
  import opened ConfigTermination
  import opened ConfigKeyof

  /** `a` is `b`, or nothing definite. */
  predicate Weaker(a: Answer, b: Answer) { a == Unknown || a == b }

  // ----- Sharing only weakens -----

  lemma {:induction false} DeclWeakens(w: World, id: DeclId, steps: seq<Step>, big: Seen, small: Seen, f: nat, g: nat)
    requires id in w.decls && small <= big
    requires LookupDecl(Shared, w, id, steps, big, f).Done? && LookupDecl(Own, w, id, steps, small, g).Done?
    ensures big <= LookupDecl(Shared, w, id, steps, big, f).seen
    ensures Weaker(LookupDecl(Shared, w, id, steps, big, f).answer, LookupDecl(Own, w, id, steps, small, g).answer)
    decreases f, 0
  {
    if steps != [] && (id, |steps|) !in big {
      var big', small' := big + {(id, |steps|)}, small + {(id, |steps|)};
      match w.decls[id]
      case Alias(aliased) => TypeWeakens(w, id.file, aliased, steps, big', small', f - 1, g - 1);
      case Interface(members, bases) =>
        if steps[0].Member? {
          match FindProperty(BySource, members, steps[0].name)
          case Some(p) => PropertyWeakens(w, id.file, p, steps, big', small', f - 1, g - 1);
          case None => BasesWeaken(w, id.file, bases, steps, big', small', f - 1, g - 1);
        }
    }
  }

  lemma {:induction false} PropertyWeakens(w: World, file: string, p: Signature, steps: seq<Step>, big: Seen,
                                           small: Seen, f: nat, g: nat)
    requires steps != [] && small <= big
    requires LookupProperty(Shared, w, file, p, steps, big, f).Done? &&
             LookupProperty(Own, w, file, p, steps, small, g).Done?
    ensures big <= LookupProperty(Shared, w, file, p, steps, big, f).seen
    ensures Weaker(LookupProperty(Shared, w, file, p, steps, big, f).answer,
                   LookupProperty(Own, w, file, p, steps, small, g).answer)
    decreases f, 1
  {
    if |steps| > 1 && p.Property? && p.annotation.Some? {
      TypeWeakens(w, file, p.annotation.value, steps[1..], big, small, f, g);
    }
  }

  lemma {:induction false} BasesWeaken(w: World, file: string, bases: seq<Base>, steps: seq<Step>, big: Seen,
                                       small: Seen, f: nat, g: nat)
    requires small <= big
    requires LookupBases(Shared, w, file, bases, steps, big, f).AllDone? &&
             LookupBases(Own, w, file, bases, steps, small, g).AllDone?
    ensures big <= LookupBases(Shared, w, file, bases, steps, big, f).seen
    ensures AllWeaker(LookupBases(Shared, w, file, bases, steps, big, f).answers,
                      LookupBases(Own, w, file, bases, steps, small, g).answers)
    decreases f, |bases| + 1
  {
    if bases != [] {
      var big' := big;
      if bases[0].Named? && w.Resolves(file, bases[0].name) {
        var id := w.resolve[(file, bases[0].name)];
        DeclWeakens(w, id, steps, big, small, f, g);
        big' := LookupDecl(Shared, w, id, steps, big, f).seen;
      }
      BasesWeaken(w, file, bases[1..], steps, big', small, f, g);
    }
  }

  predicate AllWeaker(a: seq<Answer>, b: seq<Answer>) {
    |a| == |b| && forall i | 0 <= i < |a| :: Weaker(a[i], b[i])
  }

  lemma {:induction false} TypeWeakens(w: World, file: string, t: Type, steps: seq<Step>, big: Seen, small: Seen,
                                       f: nat, g: nat)
    requires small <= big
    requires LookupType(Shared, w, file, t, steps, big, f).Done? && LookupType(Own, w, file, t, steps, small, g).Done?
    ensures big <= LookupType(Shared, w, file, t, steps, big, f).seen
    ensures Weaker(LookupType(Shared, w, file, t, steps, big, f).answer,
                   LookupType(Own, w, file, t, steps, small, g).answer)
    decreases f, 0
  {
    if steps != [] {
      match t
      case Literal(members) =>
        if steps[0].Member? && FindProperty(BySource, members, steps[0].name).Some? {
          PropertyWeakens(w, file, FindProperty(BySource, members, steps[0].name).value, steps, big, small, f - 1,
                          g - 1);
        }
      case Parens(inner) => TypeWeakens(w, file, inner, steps, big, small, f - 1, g - 1);
      case Operator(inner) => TypeWeakens(w, file, inner, steps, big, small, f - 1, g - 1);
      case KeyOf(inner) => TypeWeakens(w, file, inner, steps, big, small, f - 1, g - 1);
      case Intersection(parts) => PartsWeaken(w, file, parts, steps, big, small, f - 1, g - 1);
      case Union(parts) => PartsWeaken(w, file, parts, steps, big, small, f - 1, g - 1);
      case ArrayOf(element) =>
        if steps[0].Element? { TypeWeakens(w, file, element, steps[1..], big, small, f - 1, g - 1); }
      case IndexedBy(target, key) => TypeWeakens(w, file, target, [Member(key)] + steps, big, small, f - 1, g - 1);
      case Reference(name, qualified, args) =>
        if IsPassthrough(name) && args != [] {
          TypeWeakens(w, file, args[0], steps, big, small, f - 1, g - 1);
        } else if IsArrayName(name) && args != [] {
          if steps[0].Element? { TypeWeakens(w, file, args[0], steps[1..], big, small, f - 1, g - 1); }
        } else if !qualified && w.Resolves(file, name) {
          DeclWeakens(w, w.resolve[(file, name)], steps, big, small, f - 1, g - 1);
        }
      case Other =>
    }
  }

  lemma {:induction false} PartsWeaken(w: World, file: string, parts: seq<Type>, steps: seq<Step>, big: Seen,
                                       small: Seen, f: nat, g: nat)
    requires small <= big
    requires LookupParts(Shared, w, file, parts, steps, big, f).AllDone? &&
             LookupParts(Own, w, file, parts, steps, small, g).AllDone?
    ensures big <= LookupParts(Shared, w, file, parts, steps, big, f).seen
    ensures AllWeaker(LookupParts(Shared, w, file, parts, steps, big, f).answers,
                      LookupParts(Own, w, file, parts, steps, small, g).answers)
    decreases f, |parts| + 1
  {
    if parts != [] {
      TypeWeakens(w, file, parts[0], steps, big, small, f, g);
      PartsWeaken(w, file, parts[1..], steps, LookupType(Shared, w, file, parts[0], steps, big, f).seen, small, f, g);
    }
  }

  /** Siblings that share what they have entered answer as they would on their own, or `Unknown`. */
  lemma SharingOnlyWeakens(w: World, file: string, t: Type, steps: seq<Step>, seen: Seen, f: nat, g: nat)
    requires LookupType(Shared, w, file, t, steps, seen, f).Done? && LookupType(Own, w, file, t, steps, seen, g).Done?
    ensures LookupType(Shared, w, file, t, steps, seen, f).answer == Unknown
         || LookupType(Shared, w, file, t, steps, seen, f).answer == LookupType(Own, w, file, t, steps, seen, g).answer
  {
    TypeWeakens(w, file, t, steps, seen, seen, f, g);
  }

  // ----- A definite answer that is derivable -----

  /** The declaration derivably has the member, for `Found`, or lacks it. */
  ghost predicate DeclSays(reading: Reading, want: Answer, w: World, id: DeclId, steps: seq<Step>, n: nat) {
    if want == Found then DeclHas(reading, w, id, steps, n) else DeclLacks(reading, w, id, steps, n)
  }

  ghost predicate PropertySays(reading: Reading, want: Answer, w: World, file: string, p: Signature, steps: seq<Step>,
                               n: nat)
    requires steps != []
  {
    if want == Found then PropertyHas(reading, w, file, p, steps, n) else PropertyLacks(reading, w, file, p, steps, n)
  }

  ghost predicate BaseSays(reading: Reading, want: Answer, w: World, file: string, base: Base, steps: seq<Step>,
                           n: nat) {
    if want == Found then BaseHas(reading, w, file, base, steps, n) else BaseLacks(reading, w, file, base, steps, n)
  }

  // ----- Entering nothing twice -----

  /** A lookup that enters no declaration twice with as many steps left is the script's, and gives every
      derivable answer. */
  lemma {:induction false} DeclStrict(want: Answer, w: World, id: DeclId, steps: seq<Step>, seen: Seen, fuel: nat,
                                      n: nat)
    requires want != Unknown && id in w.decls && LookupDecl(Strict, w, id, steps, seen, fuel).Done?
    ensures LookupDecl(Shared, w, id, steps, seen, fuel) == LookupDecl(Strict, w, id, steps, seen, fuel)
    ensures DeclSays(AsChecked, want, w, id, steps, n) ==> LookupDecl(Strict, w, id, steps, seen, fuel).answer == want
    decreases fuel, 0
  {
    if steps != [] {
      var seen', m := seen + {(id, |steps|)}, if n == 0 then 0 else n - 1;
      match w.decls[id]
      case Alias(aliased) => TypeStrict(want, w, id.file, aliased, steps, seen', fuel - 1, m);
      case Interface(members, bases) =>
        if steps[0].Member? {
          match FindProperty(BySource, members, steps[0].name)
          case Some(p) => PropertyStrict(want, w, id.file, p, steps, seen', fuel - 1, m);
          case None => BasesStrict(want, w, id.file, bases, steps, seen', fuel - 1, m);
        }
    }
  }

  lemma {:induction false} PropertyStrict(want: Answer, w: World, file: string, p: Signature, steps: seq<Step>,
                                          seen: Seen, fuel: nat, n: nat)
    requires want != Unknown && steps != [] && LookupProperty(Strict, w, file, p, steps, seen, fuel).Done?
    ensures LookupProperty(Shared, w, file, p, steps, seen, fuel) ==
              LookupProperty(Strict, w, file, p, steps, seen, fuel)
    ensures PropertySays(AsChecked, want, w, file, p, steps, n) ==>
              LookupProperty(Strict, w, file, p, steps, seen, fuel).answer == want
    decreases fuel, 1
  {
    if |steps| > 1 && p.Property? && p.annotation.Some? {
      TypeStrict(want, w, file, p.annotation.value, steps[1..], seen, fuel, n);
    }
  }

  lemma {:induction false} BasesStrict(want: Answer, w: World, file: string, bases: seq<Base>, steps: seq<Step>,
                                       seen: Seen, fuel: nat, n: nat)
    requires want != Unknown && LookupBases(Strict, w, file, bases, steps, seen, fuel).AllDone?
    ensures LookupBases(Shared, w, file, bases, steps, seen, fuel) ==
              LookupBases(Strict, w, file, bases, steps, seen, fuel)
    ensures var answers := LookupBases(Strict, w, file, bases, steps, seen, fuel).answers;
            |answers| == |bases| && forall i
                | 0 <= i < |bases| && BaseSays(AsChecked, want, w, file, bases[i], steps, n) :: answers[i] == want
    decreases fuel, |bases| + 1
  {
    if bases != [] {
      var seen' := seen;
      if bases[0].Named? && w.Resolves(file, bases[0].name) {
        var id := w.resolve[(file, bases[0].name)];
        DeclStrict(want, w, id, steps, seen, fuel, n);
        seen' := LookupDecl(Strict, w, id, steps, seen, fuel).seen;
      }
      BasesStrict(want, w, file, bases[1..], steps, seen', fuel, n);
    }
  }

  lemma {:induction false} TypeStrict(want: Answer, w: World, file: string, t: Type, steps: seq<Step>, seen: Seen,
                                      fuel: nat, n: nat)
    requires want != Unknown && LookupType(Strict, w, file, t, steps, seen, fuel).Done?
    ensures LookupType(Shared, w, file, t, steps, seen, fuel) == LookupType(Strict, w, file, t, steps, seen, fuel)
    ensures TypeSays(AsChecked, want, w, file, t, steps, n) ==>
              LookupType(Strict, w, file, t, steps, seen, fuel).answer == want
    decreases fuel, 0
  {
    if steps != [] {
      var m := if n == 0 then 0 else n - 1;
      match t
      case Literal(members) =>
        if steps[0].Member? && FindProperty(BySource, members, steps[0].name).Some? {
          PropertyStrict(want, w, file, FindProperty(BySource, members, steps[0].name).value, steps, seen, fuel - 1, m);
        }
      case Parens(inner) => TypeStrict(want, w, file, inner, steps, seen, fuel - 1, m);
      case Operator(inner) => TypeStrict(want, w, file, inner, steps, seen, fuel - 1, m);
      case KeyOf(inner) => TypeStrict(want, w, file, inner, steps, seen, fuel - 1, m);
      case Intersection(parts) => PartsStrict(want, w, file, parts, steps, seen, fuel - 1, m);
      case Union(parts) => PartsStrict(want, w, file, parts, steps, seen, fuel - 1, m);
      case ArrayOf(element) =>
        if steps[0].Element? { TypeStrict(want, w, file, element, steps[1..], seen, fuel - 1, m); }
      case IndexedBy(target, key) => TypeStrict(want, w, file, target, [Member(key)] + steps, seen, fuel - 1, m);
      case Reference(name, qualified, args) =>
        if IsPassthrough(name) && args != [] {
          TypeStrict(want, w, file, args[0], steps, seen, fuel - 1, m);
        } else if IsArrayName(name) && args != [] {
          if steps[0].Element? { TypeStrict(want, w, file, args[0], steps[1..], seen, fuel - 1, m); }
        } else if !qualified && w.Resolves(file, name) {
          DeclStrict(want, w, w.resolve[(file, name)], steps, seen, fuel - 1, m);
        }
      case Other =>
    }
  }

  lemma {:induction false} PartsStrict(want: Answer, w: World, file: string, parts: seq<Type>, steps: seq<Step>,
                                       seen: Seen, fuel: nat, n: nat)
    requires want != Unknown && LookupParts(Strict, w, file, parts, steps, seen, fuel).AllDone?
    ensures LookupParts(Shared, w, file, parts, steps, seen, fuel) ==
              LookupParts(Strict, w, file, parts, steps, seen, fuel)
    ensures var answers := LookupParts(Strict, w, file, parts, steps, seen, fuel).answers;
            |answers| == |parts| && forall i
                | 0 <= i < |parts| && TypeSays(AsChecked, want, w, file, parts[i], steps, n) :: answers[i] == want
    decreases fuel, |parts| + 1
  {
    if parts != [] {
      TypeStrict(want, w, file, parts[0], steps, seen, fuel, n);
      PartsStrict(want, w, file, parts[1..], steps, LookupType(Strict, w, file, parts[0], steps, seen, fuel).seen, fuel,
                  n);
    }
  }

  /** The member is derivably there, or derivably absent. */
  ghost predicate Derivable(reading: Reading, want: Answer, w: World, file: string, t: Type, steps: seq<Step>) {
    exists n: nat :: TypeSays(reading, want, w, file, t, steps, n)
  }

  /** A definite answer is derivable. */
  lemma AnswerDerivable(mode: Mode, w: World, file: string, t: Type, steps: seq<Step>, seen: Seen, fuel: nat)
    requires LookupType(mode, w, file, t, steps, seen, fuel).Done?
    ensures Derivable(mode.Sees(), LookupType(mode, w, file, t, steps, seen, fuel).answer, w, file, t, steps)
  {
    TypeDerives(mode, w, file, t, steps, seen, fuel);
  }

  /** Where the path passes no `keyof`, what is derivable as the check has it is so as written. */
  lemma ClearDerivable(want: Answer, w: World, file: string, t: Type, steps: seq<Step>)
    requires want != Unknown && KeyofFree(w, file, t, steps)
    ensures Derivable(AsChecked, want, w, file, t, steps) <==> Derivable(AsWritten, want, w, file, t, steps)
  {
    forall n: nat ensures TypeSays(AsChecked, want, w, file, t, steps, n) <==>
        TypeSays(AsWritten, want, w, file, t, steps, n) {
      TypeCompare(w, file, t, steps, n);
    }
  }

  /** Where no declaration is entered twice with as many steps left, the script answers `Found` exactly when
      the member is derivably there as the check reads types, and `Missing` exactly when it is derivably
      absent; where the path passes no `keyof`, that is as the types are written. */
  lemma OnceIsExact(w: World, file: string, t: Type, steps: seq<Step>, fuel: nat)
    requires LookupType(Strict, w, file, t, steps, {}, fuel).Done?
    ensures LookupType(Shared, w, file, t, steps, {}, fuel).Done?
    ensures forall want | want != Unknown ::
              && (LookupType(Shared, w, file, t, steps, {}, fuel).answer == want <==>
                  Derivable(AsChecked, want, w, file, t, steps))
              && (KeyofFree(w, file, t, steps) ==>
                    (Derivable(AsChecked, want, w, file, t, steps) <==> Derivable(AsWritten, want, w, file, t, steps)))
  {
    hide *;
    TypeStrict(Found, w, file, t, steps, {}, fuel, 0);
    AnswerDerivable(Shared, w, file, t, steps, {}, fuel);
    SharedSees();
    forall want | want != Unknown
      ensures LookupType(Shared, w, file, t, steps, {}, fuel).answer == want <==>
                Derivable(AsChecked, want, w, file, t, steps)
      ensures KeyofFree(w, file, t, steps) ==>
                (Derivable(AsChecked, want, w, file, t, steps) <==> Derivable(AsWritten, want, w, file, t, steps))
    {
      OnceComplete(want, w, file, t, steps, fuel);
      if KeyofFree(w, file, t, steps) { ClearDerivable(want, w, file, t, steps); }
    }
  }

  lemma SharedSees()
    ensures Shared.Sees() == Own.Sees() == AsChecked && Memberless.Sees() == AsWritten && Own.Alone() &&
            Memberless.Alone()
  {}

  lemma OnceComplete(want: Answer, w: World, file: string, t: Type, steps: seq<Step>, fuel: nat)
    requires want != Unknown && LookupType(Strict, w, file, t, steps, {}, fuel).Done?
    ensures Derivable(AsChecked, want, w, file, t, steps) ==>
              LookupType(Strict, w, file, t, steps, {}, fuel).answer == want
  {
    if Derivable(AsChecked, want, w, file, t, steps) {
      var n: nat :| TypeSays(AsChecked, want, w, file, t, steps, n);
      TypeStrict(want, w, file, t, steps, {}, fuel, n);
    }
  }

  // ----- On its own, every sibling gets every derivable answer -----

  lemma {:induction false} DeclMonotone(reading: Reading, want: Answer, w: World, id: DeclId, steps: seq<Step>, m: nat,
                                        n: nat)
    requires want != Unknown && m <= n && DeclSays(reading, want, w, id, steps, m)
    ensures DeclSays(reading, want, w, id, steps, n)
    decreases m, 0
  {
    if steps != [] && m > 0 && id in w.decls {
      match w.decls[id]
      case Alias(aliased) => TypeMonotone(reading, want, w, id.file, aliased, steps, m - 1, n - 1);
      case Interface(members, bases) =>
        if steps[0].Member? {
          match FindProperty(reading.Names(), members, steps[0].name)
          case Some(p) => PropertyMonotone(reading, want, w, id.file, p, steps, m - 1, n - 1);
          case None =>
            forall i | 0 <= i < |bases| && BaseSays(reading, want, w, id.file, bases[i], steps, m - 1)
              ensures BaseSays(reading, want, w, id.file, bases[i], steps, n - 1)
            {
              DeclMonotone(reading, want, w, w.resolve[(id.file, bases[i].name)], steps, m - 1, n - 1);
            }
        }
    }
  }

  lemma {:induction false} PropertyMonotone(reading: Reading, want: Answer, w: World, file: string, p: Signature,
                                            steps: seq<Step>, m: nat, n: nat)
    requires want != Unknown && steps != [] && m <= n && PropertySays(reading, want, w, file, p, steps, m)
    ensures PropertySays(reading, want, w, file, p, steps, n)
    decreases m, 1
  {
    if |steps| > 1 { TypeMonotone(reading, want, w, file, p.annotation.value, steps[1..], m, n); }
  }

  lemma {:induction false} TypeMonotone(reading: Reading, want: Answer, w: World, file: string, t: Type,
                                        steps: seq<Step>, m: nat, n: nat)
    requires want != Unknown && m <= n && TypeSays(reading, want, w, file, t, steps, m)
    ensures TypeSays(reading, want, w, file, t, steps, n)
    decreases m, 0
  {
    if steps != [] && m > 0 {
      match t
      case Literal(members) =>
        if steps[0].Member? && FindProperty(reading.Names(), members, steps[0].name).Some? {
          PropertyMonotone(reading, want, w, file, FindProperty(reading.Names(), members, steps[0].name).value, steps,
                           m - 1, n - 1);
        }
      case Parens(inner) => TypeMonotone(reading, want, w, file, inner, steps, m - 1, n - 1);
      case Operator(inner) => TypeMonotone(reading, want, w, file, inner, steps, m - 1, n - 1);
      case KeyOf(inner) => if reading == AsChecked { TypeMonotone(reading, want, w, file, inner, steps, m - 1, n - 1); }
      case Intersection(parts) =>
        forall i | 0 <= i < |parts| && TypeSays(reading, want, w, file, parts[i], steps, m - 1)
          ensures TypeSays(reading, want, w, file, parts[i], steps, n - 1)
        { TypeMonotone(reading, want, w, file, parts[i], steps, m - 1, n - 1); }
      case Union(parts) =>
        forall i | 0 <= i < |parts| && TypeSays(reading, want, w, file, parts[i], steps, m - 1)
          ensures TypeSays(reading, want, w, file, parts[i], steps, n - 1)
        { TypeMonotone(reading, want, w, file, parts[i], steps, m - 1, n - 1); }
      case ArrayOf(element) => TypeMonotone(reading, want, w, file, element, steps[1..], m - 1, n - 1);
      case IndexedBy(target, key) => TypeMonotone(reading, want, w, file, target, [Member(key)] + steps, m - 1, n - 1);
      case Reference(name, qualified, args) =>
        if IsPassthrough(name) && args != [] {
          TypeMonotone(reading, want, w, file, args[0], steps, m - 1, n - 1);
        } else if IsArrayName(name) && args != [] {
          TypeMonotone(reading, want, w, file, args[0], steps[1..], m - 1, n - 1);
        } else {
          DeclMonotone(reading, want, w, w.resolve[(file, name)], steps, m - 1, n - 1);
        }
      case Other =>
    }
  }

  function Last(full: seq<Step>, k: nat): seq<Step>
    requires k <= |full|
  {
    full[|full| - k..]
  }

  /** Nothing entered so far has a derivation as shallow as `n`. */
  ghost predicate Underived(reading: Reading, want: Answer, w: World, full: seq<Step>, seen: Seen, n: nat) {
    forall id, k {:trigger (id, k) in seen} | (id, k) in seen ::
        k <= |full| && !DeclSays(reading, want, w, id, Last(full, k), n)
  }

  lemma UnderivedLess(reading: Reading, want: Answer, w: World, full: seq<Step>, seen: Seen, m: nat, n: nat)
    requires want != Unknown && m <= n && Underived(reading, want, w, full, seen, n)
    ensures Underived(reading, want, w, full, seen, m)
  {
    forall id, k | (id, k) in seen ensures k <= |full| && !DeclSays(reading, want, w, id, Last(full, k), m) {
      if DeclSays(reading, want, w, id, Last(full, k), m) { DeclMonotone(reading, want, w, id, Last(full, k), m, n); }
    }
  }

  /** The shallowest derivation. */
  lemma {:induction false} Shallowest(reading: Reading, want: Answer, w: World, id: DeclId, steps: seq<Step>,
                                      n: nat) returns (m: nat)
    requires DeclSays(reading, want, w, id, steps, n)
    ensures m <= n && DeclSays(reading, want, w, id, steps, m) &&
            (m > 0 ==> !DeclSays(reading, want, w, id, steps, m - 1))
  {
    m := n;
    if n > 0 && DeclSays(reading, want, w, id, steps, n - 1) { m := Shallowest(reading, want, w, id, steps, n - 1); }
  }

  lemma {:induction false} DeclOwn(mode: Mode, want: Answer, w: World, id: DeclId, full: seq<Step>, k: nat, seen: Seen,
                                   fuel: nat, n: nat)
    requires mode.Alone() && want != Unknown && WorldIndexFree(w) && id in w.decls && k <= |full|
    requires LookupDecl(mode, w, id, Last(full, k), seen, fuel).Done?
    requires DeclSays(mode.Sees(), want, w, id, Last(full, k), n) && Underived(mode.Sees(), want, w, full, seen, n)
    ensures LookupDecl(mode, w, id, Last(full, k), seen, fuel).answer == want
    decreases fuel, 0
  {
    var steps := Last(full, k);
    if steps != [] {
      var m := Shallowest(mode.Sees(), want, w, id, steps, n);
      UnderivedLess(mode.Sees(), want, w, full, seen, m, n);
      assert m > 0;
      UnderivedLess(mode.Sees(), want, w, full, seen, m - 1, m);
      assert (id, |steps|) !in seen;
      var seen' := seen + {(id, |steps|)};
      assert Underived(mode.Sees(), want, w, full, seen', m - 1);
      assert DeclIndexFree(w.decls[id]);
      hide Underived, WorldIndexFree;
      match w.decls[id]
      case Alias(aliased) => TypeOwn(mode, want, w, id.file, aliased, full, k, seen', fuel - 1, m - 1);
      case Interface(members, bases) =>
        if steps[0].Member? {
          match FindProperty(BySource, members, steps[0].name)
          case Some(p) =>
            FoundProperty(members, steps[0].name);
            PropertyOwn(mode, want, w, id.file, p, full, k, seen', fuel - 1, m - 1);
          case None => BasesOwn(mode, want, w, id.file, bases, full, k, seen', fuel - 1, m - 1);
        }
    }
  }

  lemma {:induction false} PropertyOwn(mode: Mode, want: Answer, w: World, file: string, p: Signature, full: seq<Step>,
                                       k: nat, seen: Seen, fuel: nat, n: nat)
    requires mode.Alone() && want != Unknown && WorldIndexFree(w) && SignatureIndexFree(p) && 0 < k <= |full|
    requires LookupProperty(mode, w, file, p, Last(full, k), seen, fuel).Done?
    requires PropertySays(mode.Sees(), want, w, file, p, Last(full, k), n) &&
             Underived(mode.Sees(), want, w, full, seen, n)
    ensures LookupProperty(mode, w, file, p, Last(full, k), seen, fuel).answer == want
    decreases fuel, 1
  {
    if k > 1 {
      assert Last(full, k)[1..] == Last(full, k - 1);
      TypeOwn(mode, want, w, file, p.annotation.value, full, k - 1, seen, fuel, n);
    }
  }

  lemma {:induction false} BasesOwn(mode: Mode, want: Answer, w: World, file: string, bases: seq<Base>, full: seq<Step>,
                                    k: nat, seen: Seen, fuel: nat, n: nat)
    requires mode.Alone() && want != Unknown && WorldIndexFree(w) && k <= |full|
    requires LookupBases(mode, w, file, bases, Last(full, k), seen, fuel).AllDone? &&
             Underived(mode.Sees(), want, w, full, seen, n)
    ensures var answers := LookupBases(mode, w, file, bases, Last(full, k), seen, fuel).answers;
            |answers| == |bases| && forall i
                | 0 <= i < |bases| && BaseSays(mode.Sees(), want, w, file, bases[i], Last(full, k), n) ::
                    answers[i] == want
    decreases fuel, |bases| + 1
  {
    if bases != [] {
      if BaseSays(mode.Sees(), want, w, file, bases[0], Last(full, k), n) {
        DeclOwn(mode, want, w, w.resolve[(file, bases[0].name)], full, k, seen, fuel, n);
      }
      BasesOwn(mode, want, w, file, bases[1..], full, k, seen, fuel, n);
    }
  }

  lemma {:induction false} TypeOwn(mode: Mode, want: Answer, w: World, file: string, t: Type, full: seq<Step>, k: nat,
                                   seen: Seen, fuel: nat, n: nat)
    requires mode.Alone() && want != Unknown && WorldIndexFree(w) && IndexFree(t) && k <= |full|
    requires LookupType(mode, w, file, t, Last(full, k), seen, fuel).Done?
    requires TypeSays(mode.Sees(), want, w, file, t, Last(full, k), n) && Underived(mode.Sees(), want, w, full, seen, n)
    ensures LookupType(mode, w, file, t, Last(full, k), seen, fuel).answer == want
    decreases fuel, 0
  {
    var steps := Last(full, k);
    if steps != [] {
      UnderivedLess(mode.Sees(), want, w, full, seen, n - 1, n);
      hide Underived, WorldIndexFree;
      match t
      case Literal(members) =>
        if steps[0].Member? && FindProperty(BySource, members, steps[0].name).Some? {
          FoundProperty(members, steps[0].name);
          PropertyOwn(mode, want, w, file, FindProperty(BySource, members, steps[0].name).value, full, k, seen,
                      fuel - 1, n - 1);
        }
      case Parens(inner) => TypeOwn(mode, want, w, file, inner, full, k, seen, fuel - 1, n - 1);
      case Operator(inner) => TypeOwn(mode, want, w, file, inner, full, k, seen, fuel - 1, n - 1);
      case KeyOf(inner) => if mode == Own { TypeOwn(mode, want, w, file, inner, full, k, seen, fuel - 1, n - 1); }
      case Intersection(parts) => PartsOwn(mode, want, w, file, parts, full, k, seen, fuel - 1, n - 1);
      case Union(parts) => PartsOwn(mode, want, w, file, parts, full, k, seen, fuel - 1, n - 1);
      case ArrayOf(element) =>
        assert steps[1..] == Last(full, k - 1);
        TypeOwn(mode, want, w, file, element, full, k - 1, seen, fuel - 1, n - 1);
      case Reference(name, qualified, args) =>
        if IsPassthrough(name) && args != [] {
          TypeOwn(mode, want, w, file, args[0], full, k, seen, fuel - 1, n - 1);
        } else if IsArrayName(name) && args != [] {
          assert steps[1..] == Last(full, k - 1);
          TypeOwn(mode, want, w, file, args[0], full, k - 1, seen, fuel - 1, n - 1);
        } else {
          DeclOwn(mode, want, w, w.resolve[(file, name)], full, k, seen, fuel - 1, n - 1);
        }
      case Other =>
    }
  }

  lemma {:induction false} PartsOwn(mode: Mode, want: Answer, w: World, file: string, parts: seq<Type>, full: seq<Step>,
                                    k: nat, seen: Seen, fuel: nat, n: nat)
    requires mode.Alone() && want != Unknown && WorldIndexFree(w) && AllIndexFree(parts) && k <= |full|
    requires LookupParts(mode, w, file, parts, Last(full, k), seen, fuel).AllDone? &&
             Underived(mode.Sees(), want, w, full, seen, n)
    ensures var answers := LookupParts(mode, w, file, parts, Last(full, k), seen, fuel).answers;
            |answers| == |parts| && forall i
                | 0 <= i < |parts| && TypeSays(mode.Sees(), want, w, file, parts[i], Last(full, k), n) ::
                    answers[i] == want
    decreases fuel, |parts| + 1
  {
    if parts != [] {
      if TypeSays(mode.Sees(), want, w, file, parts[0], Last(full, k), n) {
        TypeOwn(mode, want, w, file, parts[0], full, k, seen, fuel, n);
      }
      PartsOwn(mode, want, w, file, parts[1..], full, k, seen, fuel, n);
    }
  }

  /** On declarations without indexed access, a lookup whose siblings do not share answers `Found` exactly when
      the member is derivably there, as the lookup reads types, and `Missing` exactly when it is derivably absent. */
  lemma OwnIsExact(mode: Mode, w: World, file: string, t: Type, steps: seq<Step>, fuel: nat)
    requires mode.Alone() && WorldIndexFree(w) && IndexFree(t) && LookupType(mode, w, file, t, steps, {}, fuel).Done?
    ensures forall want | want != Unknown ::
              LookupType(mode, w, file, t, steps, {}, fuel).answer == want <==>
                  Derivable(mode.Sees(), want, w, file, t, steps)
  {
    hide *;
    AnswerDerivable(mode, w, file, t, steps, {}, fuel);
    forall want | want != Unknown
      ensures LookupType(mode, w, file, t, steps, {}, fuel).answer == want <==>
                Derivable(mode.Sees(), want, w, file, t, steps)
    {
      OwnComplete(mode, want, w, file, t, steps, fuel);
    }
  }

  lemma OwnComplete(mode: Mode, want: Answer, w: World, file: string, t: Type, steps: seq<Step>, fuel: nat)
    requires mode.Alone() && want != Unknown
    requires WorldIndexFree(w) && IndexFree(t) && LookupType(mode, w, file, t, steps, {}, fuel).Done?
    ensures Derivable(mode.Sees(), want, w, file, t, steps) ==>
              LookupType(mode, w, file, t, steps, {}, fuel).answer == want
  {
    if Derivable(mode.Sees(), want, w, file, t, steps) {
      var n: nat :| TypeSays(mode.Sees(), want, w, file, t, steps, n);
      assert Last(steps, |steps|) == steps;
      TypeOwn(mode, want, w, file, t, steps, |steps|, {}, fuel, n);
    }
  }

  /** A definite answer of the script is right, of the types as they are written, exactly when the lookup that
      does not look through `keyof` gives it too, and `Missing` always is. */
  lemma RightExactly(w: World, file: string, t: Type, steps: seq<Step>, f: nat, g: nat)
    requires WorldIndexFree(w) && IndexFree(t) && LookupType(Memberless, w, file, t, steps, {}, g).Done?
    requires LookupType(Shared, w, file, t, steps, {}, f).Done? &&
             LookupType(Shared, w, file, t, steps, {}, f).answer != Unknown
    ensures var answer := LookupType(Shared, w, file, t, steps, {}, f).answer;
            && (Derivable(AsWritten, answer, w, file, t, steps) <==>
                LookupType(Memberless, w, file, t, steps, {}, g).answer == answer)
            && (answer == Missing ==> Derivable(AsWritten, answer, w, file, t, steps))
  {
    hide *;
    SharedSees();
    OwnIsExact(Memberless, w, file, t, steps, g);
    if LookupType(Shared, w, file, t, steps, {}, f).answer == Missing {
      AnswerDerivable(Shared, w, file, t, steps, {}, f);
      LacksDerivable(w, file, t, steps);
    }
  }

  lemma LacksDerivable(w: World, file: string, t: Type, steps: seq<Step>)
    requires Derivable(AsChecked, Missing, w, file, t, steps)
    ensures Derivable(AsWritten, Missing, w, file, t, steps)
  {
    var n: nat :| TypeSays(AsChecked, Missing, w, file, t, steps, n);
    TypeCompare(w, file, t, steps, n);
    assert TypeSays(AsWritten, Missing, w, file, t, steps, n);
  }

  /** What remains of that for the script on such declarations: what it says is so, and where it says
      `Unknown` although something is derivable, sharing is to blame. */
  lemma SharingToBlame(w: World, file: string, t: Type, steps: seq<Step>) returns (enough: nat)
    requires WorldIndexFree(w) && IndexFree(t)
    ensures forall fuel: nat | fuel >= enough ::
              && LookupType(Shared, w, file, t, steps, {}, fuel).Done? &&
                  LookupType(Own, w, file, t, steps, {}, fuel).Done?
              && Weaker(LookupType(Shared, w, file, t, steps, {}, fuel).answer,
                        LookupType(Own, w, file, t, steps, {}, fuel).answer)
              && (LookupType(Own, w, file, t, steps, {}, fuel).answer == Unknown <==>
                  !Derivable(AsChecked, Found, w, file, t, steps) && !Derivable(AsChecked, Missing, w, file, t, steps))
  {
    hide *;
    var shared := AlwaysAnswers(Shared, w, file, t, steps, {});
    var own := AlwaysAnswers(Own, w, file, t, steps, {});
    enough := if shared > own then shared else own;
    forall fuel: nat | fuel >= enough
      ensures LookupType(Shared, w, file, t, steps, {}, fuel).Done? &&
                LookupType(Own, w, file, t, steps, {}, fuel).Done?
      ensures Weaker(LookupType(Shared, w, file, t, steps, {}, fuel).answer,
                     LookupType(Own, w, file, t, steps, {}, fuel).answer)
      ensures LookupType(Own, w, file, t, steps, {}, fuel).answer == Unknown <==>
              !Derivable(AsChecked, Found, w, file, t, steps) && !Derivable(AsChecked, Missing, w, file, t, steps)
    {
      TypeWeakens(w, file, t, steps, {}, {}, fuel, fuel);
      SharedSees();
      OwnIsExact(Own, w, file, t, steps, fuel);
    }
  }

  // ----- What it does cost -----

  /** An interface that reaches the same base twice is not told that a member is absent. */
  lemma DiamondIsUnknown() returns (w: World, t: Type, steps: seq<Step>)
    ensures exists n: nat :: TypeLacks(AsWritten, w, "f", t, steps, n)
    ensures forall fuel: nat | fuel >= 3 :: LookupType(Shared, w, "f", t, steps, {}, fuel).Done?
                                         && LookupType(Shared, w, "f", t, steps, {}, fuel).answer == Unknown
  {
    var base, both := DeclId("f", 0), DeclId("f", 1);
    w := World(map[base := Interface([], []), both := Interface([], [Named("B"), Named("B")])],
               map[("f", "B") := base, ("f", "D") := both]);
    t, steps := Reference("D", false, []), [Member("x")];
    forall fuel: nat | fuel >= 3
      ensures LookupType(Shared, w, "f", t, steps, {}, fuel).Done? &&
                LookupType(Shared, w, "f", t, steps, {}, fuel).answer == Unknown
    {
      var seen: Seen := {(both, 1)};
      assert {} + {(both, |steps|)} == seen;
      var seen' := seen + {(base, 1)};
      assert LookupDecl(Shared, w, base, steps, seen, fuel - 2) == Done(Missing, seen');
      assert LookupDecl(Shared, w, base, steps, seen', fuel - 2) == Done(Unknown, seen');
      assert LookupBases(Shared, w, "f", [Named("B")], steps, seen', fuel - 2) == AllDone([Unknown], seen');
      assert [Named("B"), Named("B")][1..] == [Named("B")];
      assert LookupBases(Shared, w, "f", [Named("B"), Named("B")], steps, seen, fuel - 2) ==
          AllDone([Missing] + [Unknown], seen');
      assert LookupDecl(Shared, w, both, steps, {}, fuel - 1) == Done(Unknown, seen');
    }
    assert DeclLacks(AsWritten, w, base, steps, 1);
    assert DeclLacks(AsWritten, w, both, steps, 2);
    assert TypeLacks(AsWritten, w, "f", t, steps, 3);
  }

  /** Two definite answers agree, whatever was entered before either. */
  lemma DefiniteAnswersAgree(w: World, file: string, t: Type, steps: seq<Step>, seen: Seen, seen': Seen, f: nat, g: nat)
    requires LookupType(Shared, w, file, t, steps, seen, f).Done? &&
             LookupType(Shared, w, file, t, steps, seen', g).Done?
    ensures var a, b := LookupType(Shared, w, file, t, steps, seen, f).answer,
              LookupType(Shared, w, file, t, steps, seen', g).answer;
            a == b || a == Unknown || b == Unknown
  {
    TypeDerives(Shared, w, file, t, steps, seen, f);
    TypeDerives(Shared, w, file, t, steps, seen', g);
    TypeExclusive(AsChecked, w, file, t, steps, f, g);
    TypeExclusive(AsChecked, w, file, t, steps, g, f);
  }

  const MEMBER_M := Literal([Property(Identifier("m"), None)])

  const CALL_B := Reference("B", false, [])

  const CALL_X := Reference("X", false, [])

  const X := DeclId("f", 0)

  const B := DeclId("f", 1)

  /** `type X = { m }; type B = X | {}`. */
  const TWO_ALIASES := World(map[X := Alias(MEMBER_M), B := Alias(Union([CALL_X, Literal([])]))],
                             map[("f", "X") := X, ("f", "B") := B])

  lemma EntersX(seen: Seen, fuel: nat)
    requires fuel >= 3
    ensures LookupType(Shared, TWO_ALIASES, "f", CALL_X, [Member("m")], seen, fuel) ==
            if (X, 1) in seen then Done(Unknown, seen) else Done(Found, seen + {(X, 1)})
  {
    var steps := [Member("m")];
    assert FindProperty(BySource, MEMBER_M.members, "m") == Some(Property(Identifier("m"), None));
    assert LookupType(Shared, TWO_ALIASES, "f", MEMBER_M, steps, seen + {(X, 1)}, fuel - 2) ==
        Done(Found, seen + {(X, 1)});
    assert LookupDecl(Shared, TWO_ALIASES, X, steps, seen, fuel - 1) == if (X, 1) in seen then Done(Unknown, seen)
        else Done(Found, seen + {(X, 1)});
  }

  lemma EntersB(seen: Seen, fuel: nat)
    requires fuel >= 6 && (X, 1) !in seen
    ensures LookupType(Shared, TWO_ALIASES, "f", CALL_B, [Member("m")], seen, fuel) ==
            if (B, 1) in seen then Done(Unknown, seen) else Done(Unknown, seen + {(B, 1)} + {(X, 1)})
  {
    var steps, seen', parts := [Member("m")], seen + {(B, 1)}, [CALL_X, Literal([])];
    EntersX(seen', fuel - 3);
    assert parts[1..] == [Literal([])];
    assert LookupType(Shared, TWO_ALIASES, "f", Literal([]), steps, seen' + {(X, 1)}, fuel - 3) ==
        Done(Missing, seen' + {(X, 1)});
    assert LookupParts(Shared, TWO_ALIASES, "f", [Literal([])], steps, seen' + {(X, 1)}, fuel - 3) ==
        AllDone([Missing] + [], seen' + {(X, 1)});
    assert LookupParts(Shared, TWO_ALIASES, "f", parts, steps, seen', fuel - 3) ==
        AllDone([Found] + [Missing], seen' + {(X, 1)});
    assert [Found] + [Missing] == [Found, Missing];
    assert LookupType(Shared, TWO_ALIASES, "f", Union(parts), steps, seen', fuel - 2) ==
        Done(Agree([Found, Missing]), seen' + {(X, 1)});
    assert [Found, Missing][0] == Found && [Found, Missing][1] == Missing;
    assert LookupDecl(Shared, TWO_ALIASES, B, steps, seen, fuel - 1) == if (B, 1) in seen then Done(Unknown, seen)
        else Done(Unknown, seen' + {(X, 1)});
  }

  /** Having entered more is not always worse: `B & X` is not told that `m` is there, but is once `B` was
      entered before and is cut short, which leaves `X` its own turn. */
  lemma EnteredMoreAnswersMore(fuel: nat)
    requires fuel >= 7
    ensures LookupType(Shared, TWO_ALIASES, "f", Intersection([CALL_B, CALL_X]), [Member("m")], {}, fuel) ==
              Done(Unknown, {(B, 1), (X, 1)})
    ensures LookupType(Shared, TWO_ALIASES, "f", Intersection([CALL_B, CALL_X]), [Member("m")], {(B, 1)}, fuel) ==
              Done(Found, {(B, 1), (X, 1)})
  {
    var both: Seen := {(B, 1), (X, 1)};
    assert {} + {(B, 1)} + {(X, 1)} == both && {(B, 1)} + {(X, 1)} == both;
    BothParts({}, both, [Unknown, Unknown], fuel);
    BothParts({(B, 1)}, both, [Unknown, Found], fuel);
  }

  lemma BothParts(seen: Seen, both: Seen, answers: seq<Answer>, fuel: nat)
    requires fuel >= 7 && both == seen + {(B, 1)} + {(X, 1)} && (X, 1) !in seen
    requires answers == [Unknown, if (B, 1) in seen then Found else Unknown]
    ensures LookupType(Shared, TWO_ALIASES, "f", Intersection([CALL_B, CALL_X]), [Member("m")], seen, fuel) ==
              Done(Combine(answers), both)
  {
    var steps, parts := [Member("m")], [CALL_B, CALL_X];
    EntersB(seen, fuel - 1);
    var seen' := LookupType(Shared, TWO_ALIASES, "f", CALL_B, steps, seen, fuel - 1).seen;
    EntersX(seen', fuel - 1);
    assert parts[1..] == [CALL_X] && [CALL_X][1..] == [];
    assert seen + {(B, 1)} == seen || (B, 1) !in seen;
    assert LookupParts(Shared, TWO_ALIASES, "f", [CALL_X], steps, seen', fuel - 1) == AllDone([answers[1]] + [], both);
    assert LookupParts(Shared, TWO_ALIASES, "f", parts, steps, seen, fuel - 1) ==
        AllDone([Unknown] + [answers[1]], both);
    assert [Unknown] + [answers[1]] == answers;
  }
}
