/** When the presence check answers at all: always on declarations without indexed access, never on a
    type that indexes itself. */
module ConfigTermination {
  import opened Wrappers
  import opened Sequences
  import opened ConfigTypes

  // ----- Types without indexed access, and their sizes -----

  predicate IndexFree(t: Type) {
    match t
    case Literal(members) => MembersIndexFree(members)
    case Parens(inner) => IndexFree(inner)
    case Operator(inner) => IndexFree(inner)
    case KeyOf(inner) => IndexFree(inner)
    case Intersection(parts) => AllIndexFree(parts)
    case Union(parts) => AllIndexFree(parts)
    case ArrayOf(element) => IndexFree(element)
    case IndexedBy(_, _) => false
    case Reference(_, _, args) => AllIndexFree(args)
    case Other => true
  }

  predicate AllIndexFree(ts: seq<Type>) {
    ts == [] || (IndexFree(ts[0]) && AllIndexFree(ts[1..]))
  }

  predicate MembersIndexFree(members: seq<Signature>) {
    members == [] || (SignatureIndexFree(members[0]) && MembersIndexFree(members[1..]))
  }

  predicate SignatureIndexFree(p: Signature) {
    p.Property? && p.annotation.Some? ==> IndexFree(p.annotation.value)
  }

  function Size(t: Type): nat {
    2 + match t
        case Literal(members) => MembersSize(members)
        case Parens(inner) => Size(inner)
        case Operator(inner) => Size(inner)
        case KeyOf(inner) => Size(inner)
        case Intersection(parts) => TypesSize(parts)
        case Union(parts) => TypesSize(parts)
        case ArrayOf(element) => Size(element)
        case IndexedBy(target, _) => Size(target)
        case Reference(_, _, args) => TypesSize(args)
        case Other => 0
  }

  function TypesSize(ts: seq<Type>): nat {
    if ts == [] then 0 else Size(ts[0]) + TypesSize(ts[1..])
  }

  function MembersSize(members: seq<Signature>): nat {
    if members == [] then 0 else SignatureSize(members[0]) + MembersSize(members[1..])
  }

  function SignatureSize(p: Signature): nat {
    if p.Property? && p.annotation.Some? then Size(p.annotation.value) else 0
  }

  predicate DeclIndexFree(d: Decl) {
    match d
    case Alias(aliased) => IndexFree(aliased)
    case Interface(members, _) => MembersIndexFree(members)
  }

  function DeclSize(d: Decl): nat {
    2 + match d
        case Alias(aliased) => Size(aliased)
        case Interface(members, _) => MembersSize(members)
  }

  /** Every declaration is free of indexed access and no larger than `m`. */
  ghost predicate Bounded(w: World, m: nat) {
    forall id | id in w.decls :: DeclIndexFree(w.decls[id]) && DeclSize(w.decls[id]) <= m
  }

  ghost predicate WorldIndexFree(w: World) {
    forall id | id in w.decls :: DeclIndexFree(w.decls[id])
  }

  lemma {:induction false} SizesBounded(decls: map<DeclId, Decl>) returns (m: nat)
    ensures forall id | id in decls :: DeclSize(decls[id]) <= m
    decreases |decls|
  {
    if decls.Keys == {} {
      m := 0;
    } else {
      var id :| id in decls;
      var rest := decls - {id};
      assert decls.Keys == rest.Keys + {id};
      var r := SizesBounded(rest);
      m := if DeclSize(decls[id]) > r then DeclSize(decls[id]) else r;
      forall x | x in decls ensures DeclSize(decls[x]) <= m {
        if x != id { assert x in rest && rest[x] == decls[x]; }
      }
    }
  }

  lemma {:induction false} FoundProperty(members: seq<Signature>, name: string)
    requires FindProperty(BySource, members, name).Some?
    ensures var p := FindProperty(BySource, members, name).value;
            p.Property? && (p.annotation.Some? ==>
              Size(p.annotation.value) <= MembersSize(members) &&
                  (MembersIndexFree(members) ==> IndexFree(p.annotation.value)))
  {
    assert MembersIndexFree(members) ==> SignatureIndexFree(members[0]) && MembersIndexFree(members[1..]);
    assert MembersSize(members) == SignatureSize(members[0]) + MembersSize(members[1..]);
    if !(members[0].Property? && members[0].name.Read(BySource) == name) { FoundProperty(members[1..], name); }
  }

  // ----- The budget -----

  /** The entries `seen` can still take: a declaration with at most `l` steps left. */
  ghost function Fresh(w: World, l: nat, seen: Seen): set<(DeclId, nat)> {
    (set id, k | id in w.decls.Keys && 0 < k <= l :: (id, k)) - seen
  }

  ghost function Budget(w: World, l: nat, m: nat, seen: Seen): nat {
    |Fresh(w, l, seen)| * m
  }

  lemma BudgetShrinks(w: World, l: nat, m: nat, seen: Seen, seen': Seen)
    requires seen <= seen'
    ensures Budget(w, l, m, seen') <= Budget(w, l, m, seen)
  {
    SubsetSize(Fresh(w, l, seen'), Fresh(w, l, seen));
    Products(|Fresh(w, l, seen')|, |Fresh(w, l, seen)|, m);
  }

  lemma Products(a: nat, b: nat, m: nat)
    requires a <= b
    ensures a * m <= b * m
  { }

  lemma BudgetSpent(w: World, l: nat, m: nat, seen: Seen, id: DeclId, k: nat)
    requires id in w.decls && 0 < k <= l && (id, k) !in seen
    ensures Budget(w, l, m, seen + {(id, k)}) + m <= Budget(w, l, m, seen)
  {
    var f, g := Fresh(w, l, seen), Fresh(w, l, seen + {(id, k)});
    assert (id, k) in f && g == f - {(id, k)};
    assert |f| == |g| + 1;
    assert |f| * m == |g| * m + m;
  }

  // ----- Termination -----

  /** The recursion finished and only added to `seen`. */
  predicate Answers(o: Outcome, seen: Seen) { o.Done? && seen <= o.seen }

  predicate AnswersAll(o: Outcomes, seen: Seen) { o.AllDone? && seen <= o.seen }

  lemma {:induction false} DeclAnswers(mode: Mode, w: World, id: DeclId, steps: seq<Step>, seen: Seen, fuel: nat,
                                       l: nat, m: nat)
    requires mode != Strict && Bounded(w, m) && id in w.decls && |steps| <= l && fuel > Budget(w, l, m, seen)
    ensures Answers(LookupDecl(mode, w, id, steps, seen, fuel), seen)
    decreases fuel, 0
  {
    hide Budget;
    if steps != [] && (id, |steps|) !in seen {
      var seen' := seen + {(id, |steps|)};
      BudgetSpent(w, l, m, seen, id, |steps|);
      match w.decls[id]
      case Alias(aliased) => TypeAnswers(mode, w, id.file, aliased, steps, seen', fuel - 1, l, m);
      case Interface(members, bases) =>
        if steps[0].Member? {
          match FindProperty(BySource, members, steps[0].name)
          case Some(p) =>
            FoundProperty(members, steps[0].name);
            PropertyAnswers(mode, w, id.file, p, steps, seen', fuel - 1, l, m);
          case None => BasesAnswer(mode, w, id.file, bases, steps, seen', fuel - 1, l, m);
        }
    }
  }

  lemma {:induction false} PropertyAnswers(mode: Mode, w: World, file: string, p: Signature, steps: seq<Step>,
                                           seen: Seen, fuel: nat, l: nat, m: nat)
    requires mode != Strict && Bounded(w, m) && 0 < |steps| <= l && p.Property?
    requires p.annotation.Some? ==>
              IndexFree(p.annotation.value) && fuel >= Size(p.annotation.value) + Budget(w, l, m, seen)
    ensures Answers(LookupProperty(mode, w, file, p, steps, seen, fuel), seen)
    decreases fuel, 1
  {
    if |steps| > 1 && p.annotation.Some? {
      TypeAnswers(mode, w, file, p.annotation.value, steps[1..], seen, fuel, l, m);
    }
  }

  lemma {:induction false} BasesAnswer(mode: Mode, w: World, file: string, bases: seq<Base>, steps: seq<Step>,
                                       seen: Seen, fuel: nat, l: nat, m: nat)
    requires mode != Strict && Bounded(w, m) && |steps| <= l && fuel > Budget(w, l, m, seen)
    ensures AnswersAll(LookupBases(mode, w, file, bases, steps, seen, fuel), seen)
    decreases fuel, |bases| + 1
  {
    hide Budget;
    if bases != [] {
      var seen' := seen;
      if bases[0].Named? && w.Resolves(file, bases[0].name) {
        DeclAnswers(mode, w, w.resolve[(file, bases[0].name)], steps, seen, fuel, l, m);
        seen' := Handed(mode, seen, LookupDecl(mode, w, w.resolve[(file, bases[0].name)], steps, seen, fuel).seen);
      }
      BudgetShrinks(w, l, m, seen, seen');
      BasesAnswer(mode, w, file, bases[1..], steps, seen', fuel, l, m);
    }
  }

  /** On index-free declarations the recursion is bounded by the type and the room left in `seen`. */
  lemma {:induction false} TypeAnswers(mode: Mode, w: World, file: string, t: Type, steps: seq<Step>, seen: Seen,
                                       fuel: nat, l: nat, m: nat)
    requires mode != Strict && Bounded(w, m) && IndexFree(t) && |steps| <= l && fuel >= Size(t) + Budget(w, l, m, seen)
    ensures Answers(LookupType(mode, w, file, t, steps, seen, fuel), seen)
    decreases fuel, 0
  {
    hide Budget;
    if steps != [] {
      match t
      case Literal(members) =>
        if steps[0].Member? && FindProperty(BySource, members, steps[0].name).Some? {
          FoundProperty(members, steps[0].name);
          PropertyAnswers(mode, w, file, FindProperty(BySource, members, steps[0].name).value, steps, seen, fuel - 1, l,
                          m);
        }
      case Parens(inner) => TypeAnswers(mode, w, file, inner, steps, seen, fuel - 1, l, m);
      case Operator(inner) => TypeAnswers(mode, w, file, inner, steps, seen, fuel - 1, l, m);
      case KeyOf(inner) => TypeAnswers(mode, w, file, inner, steps, seen, fuel - 1, l, m);
      case Intersection(parts) => PartsAnswer(mode, w, file, parts, steps, seen, fuel - 1, l, m);
      case Union(parts) => PartsAnswer(mode, w, file, parts, steps, seen, fuel - 1, l, m);
      case ArrayOf(element) =>
        if steps[0].Element? { TypeAnswers(mode, w, file, element, steps[1..], seen, fuel - 1, l, m); }
      case Reference(name, qualified, args) =>
        if IsPassthrough(name) && args != [] {
          TypeAnswers(mode, w, file, args[0], steps, seen, fuel - 1, l, m);
        } else if IsArrayName(name) && args != [] {
          if steps[0].Element? { TypeAnswers(mode, w, file, args[0], steps[1..], seen, fuel - 1, l, m); }
        } else if !qualified && w.Resolves(file, name) {
          DeclAnswers(mode, w, w.resolve[(file, name)], steps, seen, fuel - 1, l, m);
        }
      case Other =>
    }
  }

  lemma {:induction false} PartsAnswer(mode: Mode, w: World, file: string, parts: seq<Type>, steps: seq<Step>,
                                       seen: Seen, fuel: nat, l: nat, m: nat)
    requires mode != Strict && Bounded(w, m) && AllIndexFree(parts) && |steps| <= l &&
             fuel >= TypesSize(parts) + Budget(w, l, m, seen)
    ensures AnswersAll(LookupParts(mode, w, file, parts, steps, seen, fuel), seen)
    decreases fuel, |parts| + 1
  {
    hide Budget;
    if parts != [] {
      TypeAnswers(mode, w, file, parts[0], steps, seen, fuel, l, m);
      var seen' := Handed(mode, seen, LookupType(mode, w, file, parts[0], steps, seen, fuel).seen);
      BudgetShrinks(w, l, m, seen, seen');
      PartsAnswer(mode, w, file, parts[1..], steps, seen', fuel, l, m);
    }
  }

  /** On index-free declarations, recursive or not, the check answers given enough stack. */
  lemma AlwaysAnswers(mode: Mode, w: World, file: string, t: Type, steps: seq<Step>, seen: Seen) returns (enough: nat)
    requires mode != Strict && WorldIndexFree(w) && IndexFree(t)
    ensures forall fuel: nat | fuel >= enough :: LookupType(mode, w, file, t, steps, seen, fuel).Done?
  {
    var m := SizesBounded(w.decls);
    enough := Size(t) + Budget(w, |steps|, m, seen);
    forall fuel: nat | fuel >= enough ensures LookupType(mode, w, file, t, steps, seen, fuel).Done? {
      TypeAnswers(mode, w, file, t, steps, seen, fuel, |steps|, m);
    }
  }

  // ----- More stack does not change an answer -----

  lemma {:induction false} DeclSteady(mode: Mode, w: World, id: DeclId, steps: seq<Step>, seen: Seen, f: nat, g: nat)
    requires id in w.decls && f <= g && LookupDecl(mode, w, id, steps, seen, f).Done?
    ensures LookupDecl(mode, w, id, steps, seen, g) == LookupDecl(mode, w, id, steps, seen, f)
    decreases f, 0
  {
    if steps != [] && (id, |steps|) !in seen {
      var seen' := seen + {(id, |steps|)};
      match w.decls[id]
      case Alias(aliased) => TypeSteady(mode, w, id.file, aliased, steps, seen', f - 1, g - 1);
      case Interface(members, bases) =>
        if steps[0].Member? {
          match FindProperty(BySource, members, steps[0].name)
          case Some(p) => PropertySteady(mode, w, id.file, p, steps, seen', f - 1, g - 1);
          case None => BasesSteady(mode, w, id.file, bases, steps, seen', f - 1, g - 1);
        }
    }
  }

  lemma {:induction false} PropertySteady(mode: Mode, w: World, file: string, p: Signature, steps: seq<Step>,
                                          seen: Seen, f: nat, g: nat)
    requires steps != [] && f <= g && LookupProperty(mode, w, file, p, steps, seen, f).Done?
    ensures LookupProperty(mode, w, file, p, steps, seen, g) == LookupProperty(mode, w, file, p, steps, seen, f)
    decreases f, 1
  {
    if |steps| > 1 && p.Property? && p.annotation.Some? {
      TypeSteady(mode, w, file, p.annotation.value, steps[1..], seen, f, g);
    }
  }

  lemma {:induction false} BasesSteady(mode: Mode, w: World, file: string, bases: seq<Base>, steps: seq<Step>,
                                       seen: Seen, f: nat, g: nat)
    requires f <= g && LookupBases(mode, w, file, bases, steps, seen, f).AllDone?
    ensures LookupBases(mode, w, file, bases, steps, seen, g) == LookupBases(mode, w, file, bases, steps, seen, f)
    decreases f, |bases| + 1
  {
    if bases != [] {
      var seen' := seen;
      if bases[0].Named? && w.Resolves(file, bases[0].name) {
        DeclSteady(mode, w, w.resolve[(file, bases[0].name)], steps, seen, f, g);
        seen' := Handed(mode, seen, LookupDecl(mode, w, w.resolve[(file, bases[0].name)], steps, seen, f).seen);
      }
      BasesSteady(mode, w, file, bases[1..], steps, seen', f, g);
    }
  }

  lemma {:induction false} TypeSteady(mode: Mode, w: World, file: string, t: Type, steps: seq<Step>, seen: Seen, f: nat,
                                      g: nat)
    requires f <= g && LookupType(mode, w, file, t, steps, seen, f).Done?
    ensures LookupType(mode, w, file, t, steps, seen, g) == LookupType(mode, w, file, t, steps, seen, f)
    decreases f, 0
  {
    if steps != [] {
      match t
      case Literal(members) =>
        if steps[0].Member? && FindProperty(BySource, members, steps[0].name).Some? {
          PropertySteady(mode, w, file, FindProperty(BySource, members, steps[0].name).value, steps, seen, f - 1,
                         g - 1);
        }
      case Parens(inner) => TypeSteady(mode, w, file, inner, steps, seen, f - 1, g - 1);
      case Operator(inner) => TypeSteady(mode, w, file, inner, steps, seen, f - 1, g - 1);
      case KeyOf(inner) => if mode != Memberless { TypeSteady(mode, w, file, inner, steps, seen, f - 1, g - 1); }
      case Intersection(parts) => PartsSteady(mode, w, file, parts, steps, seen, f - 1, g - 1);
      case Union(parts) => PartsSteady(mode, w, file, parts, steps, seen, f - 1, g - 1);
      case ArrayOf(element) =>
        if steps[0].Element? { TypeSteady(mode, w, file, element, steps[1..], seen, f - 1, g - 1); }
      case IndexedBy(target, key) => TypeSteady(mode, w, file, target, [Member(key)] + steps, seen, f - 1, g - 1);
      case Reference(name, qualified, args) =>
        if IsPassthrough(name) && args != [] {
          TypeSteady(mode, w, file, args[0], steps, seen, f - 1, g - 1);
        } else if IsArrayName(name) && args != [] {
          if steps[0].Element? { TypeSteady(mode, w, file, args[0], steps[1..], seen, f - 1, g - 1); }
        } else if !qualified && w.Resolves(file, name) {
          DeclSteady(mode, w, w.resolve[(file, name)], steps, seen, f - 1, g - 1);
        }
      case Other =>
    }
  }

  lemma {:induction false} PartsSteady(mode: Mode, w: World, file: string, parts: seq<Type>, steps: seq<Step>,
                                       seen: Seen, f: nat, g: nat)
    requires f <= g && LookupParts(mode, w, file, parts, steps, seen, f).AllDone?
    ensures LookupParts(mode, w, file, parts, steps, seen, g) == LookupParts(mode, w, file, parts, steps, seen, f)
    decreases f, |parts| + 1
  {
    if parts != [] {
      TypeSteady(mode, w, file, parts[0], steps, seen, f, g);
      PartsSteady(mode, w, file, parts[1..], steps,
                  Handed(mode, seen, LookupType(mode, w, file, parts[0], steps, seen, f).seen), f, g);
    }
  }

  // ----- Indexed access -----

  /** `type A = A['x']` lengthens the path on every turn, so no entry of `seen` ever recurs. */
  lemma {:induction false} SelfIndexOverflows(w: World, a: DeclId, steps: seq<Step>, seen: Seen, fuel: nat)
    requires a in w.decls && w.decls[a] == Alias(IndexedBy(Reference("A", false, []), "x"))
    requires (a.file, "A") in w.resolve && w.resolve[(a.file, "A")] == a
    requires steps != [] && forall k | (a, k) in seen :: k < |steps|
    ensures LookupDecl(Shared, w, a, steps, seen, fuel) == NoAnswer
    decreases fuel
  {
    var self, longer, seen' := Reference("A", false, []), [Member("x")] + steps, seen + {(a, |steps|)};
    if fuel >= 3 {
      SelfIndexOverflows(w, a, longer, seen', fuel - 3);
      assert LookupType(Shared, w, a.file, self, longer, seen', fuel - 2) == NoAnswer;
    }
    if fuel >= 2 {
      assert LookupType(Shared, w, a.file, IndexedBy(self, "x"), steps, seen', fuel - 1) == NoAnswer;
    }
  }
}
