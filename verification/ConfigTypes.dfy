/** Declared config types and the presence check over them (`lookupPath`,
    scripts/gen-config-catalog.ts:393-479). */
module ConfigTypes {
  import opened Wrappers

  /** One step of a key path: a named member, or a hop into array elements. */
  datatype Step = Member(name: string) | Element

  datatype Type =
    | Literal(members: seq<Signature>)
    | Parens(inner: Type)
    | Intersection(parts: seq<Type>)
    | Union(parts: seq<Type>)
    | ArrayOf(element: Type)
    | Operator(inner: Type)
    | KeyOf(inner: Type)
    | IndexedBy(target: Type, key: string)
    | Reference(name: string, qualified: bool, args: seq<Type>)
    | Other

  /** The name of a property in source code: an identifier, a string literal, or anything else a property
      may be called by, such as a number. `text` is the name it denotes, `source` what is written. */
  datatype Name =
      Identifier(text: string) | StringLiteral(text: string, source: string) | OtherName(text: string, source: string) {
    /** `name.getText()`. */
    function Written(): string { if Identifier? then text else source }

    /** The name as the check compares it (line 414), or as the language means it. */
    function Read(naming: Naming): string { if naming == BySource then Written() else text }
  }

  datatype Naming = BySource | ByName

  /** What a type declares. As the check has it, members go by their source text and `keyof T` has the members
      of `T`, since line 456 looks through every type operator, not only through `readonly` and `unique`; as
      written, `keyof T` has no members at all; as named, members moreover go by the names they denote. */
  datatype Reading = AsChecked | AsWritten | AsNamed {
    function Names(): Naming { if AsNamed? then ByName else BySource }
  }

  /** A property signature with its annotation, or any other member of an object type. */
  datatype Signature = Property(name: Name, annotation: Option<Type>) | OtherSignature

  datatype Base = Named(name: string) | OtherBase

  datatype Decl = Interface(members: seq<Signature>, bases: seq<Base>) | Alias(aliased: Type)

  /** A declaration is known by its file and position. */
  datatype DeclId = DeclId(file: string, pos: nat)

  /** The declarations in reach, and what each type name resolves to in each file
      (`declForTypeName`); a name that resolves to nothing is out of reach. */
  datatype World = World(decls: map<DeclId, Decl>, resolve: map<(string, string), DeclId>) {
    predicate Resolves(file: string, name: string) {
      (file, name) in resolve && resolve[(file, name)] in decls
    }
  }

  datatype Answer = Found | Missing | Unknown

  /** Declarations already entered, each with the number of steps that were left. */
  type Seen = set<(DeclId, nat)>

  /** An answer with the updated `seen`, or no answer because the recursion outgrew the stack. */
  datatype Outcome = Done(answer: Answer, seen: Seen) | NoAnswer

  datatype Outcomes = AllDone(answers: seq<Answer>, seen: Seen) | NotAll

  /** The script's lookup is `Shared`: siblings share one `seen`. Two variants measure what that costs:
      in `Own` each sibling sees only what its ancestors entered, and `Strict` gives no answer at all
      once a declaration is entered a second time with as many steps left. `Memberless` is `Own` without
      looking through `keyof`. */
  datatype Mode = Shared | Own | Strict | Memberless {
    /** Siblings do not share. */
    predicate Alone() { Own? || Memberless? }

    /** What the types are taken to declare. */
    function Sees(): Reading { if Memberless? then AsWritten else AsChecked }
  }

  /** What a sibling finds in `seen` after the one before it turned `before` into `after`. */
  function Handed(mode: Mode, before: Seen, after: Seen): Seen { if mode.Alone() then before else after }

  predicate IsPassthrough(name: string) { name in {"Partial", "Required", "Readonly", "NonNullable"} }

  predicate IsArrayName(name: string) { name in {"Array", "ReadonlyArray"} }

  /** The first property signature whose name reads so (lines 411-418). */
  function FindProperty(naming: Naming, members: seq<Signature>, name: string): Option<Signature> {
    if members == [] then None
    else if members[0].Property? && members[0].name.Read(naming) == name then Some(members[0])
    else FindProperty(naming, members[1..], name)
  }

  /** It is the first one, and there is none only where no property is called so. */
  lemma {:induction false} FindsFirst(naming: Naming, members: seq<Signature>, name: string)
    ensures FindProperty(naming, members, name).None? <==>
              forall i | 0 <= i < |members| && members[i].Property? :: members[i].name.Read(naming) != name
    ensures forall i | 0 <= i < |members| && members[i].Property? && members[i].name.Read(naming) == name
                    && (forall j | 0 <= j < i && members[j].Property? :: members[j].name.Read(naming) != name) ::
              FindProperty(naming, members, name) == Some(members[i])
  {
    if members != [] {
      FindsFirst(naming, members[1..], name);
      assert forall i | 0 < i < |members| :: members[i] == members[1..][i - 1];
      assert forall i | 0 <= i < |members| - 1 :: members[1..][i] == members[i + 1];
    }
  }

  /** Any found wins, else any unknown taints, else missing (lines 405-410). */
  function Combine(answers: seq<Answer>): Answer {
    if Found in answers then Found else if Unknown in answers then Unknown else Missing
  }

  /** Presence on a union is definite only when every branch agrees (lines 446-452). */
  function Agree(answers: seq<Answer>): Answer {
    if forall i | 0 <= i < |answers| :: answers[i] == Found then Found
    else if forall i | 0 <= i < |answers| :: answers[i] == Missing then Missing
    else Unknown
  }

  // ----- The lookup -----

  /** `lookupPath` on a declaration; `fuel` bounds the depth of the recursion. */
  function LookupDecl(mode: Mode, w: World, id: DeclId, steps: seq<Step>, seen: Seen, fuel: nat): Outcome
    requires id in w.decls
    decreases fuel, 0
  {
    if steps == [] then Done(Found, seen)
    else if fuel == 0 then NoAnswer
    else if (id, |steps|) in seen then if mode == Strict then NoAnswer else Done(Unknown, seen)
    else
      var seen' := seen + {(id, |steps|)};
      match w.decls[id]
      case Alias(aliased) => LookupType(mode, w, id.file, aliased, steps, seen', fuel - 1)
      case Interface(members, bases) =>
        if steps[0].Element? then Done(Unknown, seen')
        else
          match FindProperty(BySource, members, steps[0].name)
          case Some(p) => LookupProperty(mode, w, id.file, p, steps, seen', fuel - 1)
          case None =>
            match LookupBases(mode, w, id.file, bases, steps, seen', fuel - 1)
            case NotAll => NoAnswer
            case AllDone(answers, seen'') => Done(Combine(answers), seen'')
  }

  /** The property that the first step names (lines 415-416). */
  function LookupProperty(mode: Mode, w: World, file: string, p: Signature, steps: seq<Step>, seen: Seen,
                          fuel: nat): Outcome
    requires steps != []
    decreases fuel, 1
  {
    if |steps| == 1 then Done(Found, seen)
    else if p.Property? && p.annotation.Some? then LookupType(mode, w, file, p.annotation.value, steps[1..], seen, fuel)
    else Done(Unknown, seen)
  }

  /** The bases of an interface, in order, sharing `seen` (lines 424-435). */
  function LookupBases(mode: Mode, w: World, file: string, bases: seq<Base>, steps: seq<Step>, seen: Seen,
                       fuel: nat): Outcomes
    decreases fuel, |bases| + 1
  {
    if bases == [] then AllDone([], seen)
    else
      var first :=
        if bases[0].Named? && w.Resolves(file, bases[0].name)
        then LookupDecl(mode, w, w.resolve[(file, bases[0].name)], steps, seen, fuel)
        else Done(Unknown, seen);
      if first.NoAnswer? then NotAll
      else
        match LookupBases(mode, w, file, bases[1..], steps, Handed(mode, seen, first.seen), fuel)
        case NotAll => NotAll
        case AllDone(answers, seen') => AllDone([first.answer] + answers, seen')
  }

  /** `lookupPath` on a type node in `file`. */
  function LookupType(mode: Mode, w: World, file: string, t: Type, steps: seq<Step>, seen: Seen, fuel: nat): Outcome
    decreases fuel, 0
  {
    if steps == [] then Done(Found, seen)
    else if fuel == 0 then NoAnswer
    else
      match t
      case Literal(members) =>
        if steps[0].Element? then Done(Unknown, seen)
        else (
          match FindProperty(BySource, members, steps[0].name)
          case Some(p) => LookupProperty(mode, w, file, p, steps, seen, fuel - 1)
          case None => Done(Missing, seen))
      case Parens(inner) => LookupType(mode, w, file, inner, steps, seen, fuel - 1)
      case Operator(inner) => LookupType(mode, w, file, inner, steps, seen, fuel - 1)
      case KeyOf(inner) =>
        if mode == Memberless then Done(Missing, seen) else LookupType(mode, w, file, inner, steps, seen, fuel - 1)
      case Intersection(parts) => (
        match LookupParts(mode, w, file, parts, steps, seen, fuel - 1)
        case NotAll => NoAnswer
        case AllDone(answers, seen') => Done(Combine(answers), seen'))
      case Union(parts) => (
        match LookupParts(mode, w, file, parts, steps, seen, fuel - 1)
        case NotAll => NoAnswer
        case AllDone(answers, seen') => Done(Agree(answers), seen'))
      case ArrayOf(element) =>
        if steps[0].Element? then LookupType(mode, w, file, element, steps[1..], seen, fuel - 1)
            else Done(Unknown, seen)
      case IndexedBy(target, key) => LookupType(mode, w, file, target, [Member(key)] + steps, seen, fuel - 1)
      case Reference(name, qualified, args) =>
        if IsPassthrough(name) && args != [] then LookupType(mode, w, file, args[0], steps, seen, fuel - 1)
        else if IsArrayName(name) && args != [] then
          if steps[0].Element? then LookupType(mode, w, file, args[0], steps[1..], seen, fuel - 1)
              else Done(Unknown, seen)
        else if qualified || !w.Resolves(file, name) then Done(Unknown, seen)
        else LookupDecl(mode, w, w.resolve[(file, name)], steps, seen, fuel - 1)
      case Other => Done(Unknown, seen)
  }

  /** The parts of an intersection or a union, in order, sharing `seen`. */
  function LookupParts(mode: Mode, w: World, file: string, parts: seq<Type>, steps: seq<Step>, seen: Seen,
                       fuel: nat): Outcomes
    decreases fuel, |parts| + 1
  {
    if parts == [] then AllDone([], seen)
    else
      var first := LookupType(mode, w, file, parts[0], steps, seen, fuel);
      if first.NoAnswer? then NotAll
      else
        match LookupParts(mode, w, file, parts[1..], steps, Handed(mode, seen, first.seen), fuel)
        case NotAll => NotAll
        case AllDone(answers, seen') => AllDone([first.answer] + answers, seen')
  }

  // ----- What the types declare -----

  /** The declaration has a member at `steps`, by a derivation of depth at most `n`. */
  ghost predicate DeclHas(reading: Reading, w: World, id: DeclId, steps: seq<Step>, n: nat)
    decreases n, 0
  {
    steps == [] || (n > 0 && id in w.decls &&
      match w.decls[id]
      case Alias(aliased) => TypeHas(reading, w, id.file, aliased, steps, n - 1)
      case Interface(members, bases) =>
        steps[0].Member? &&
        match FindProperty(reading.Names(), members, steps[0].name)
        case Some(p) => PropertyHas(reading, w, id.file, p, steps, n - 1)
        case None => exists i :: 0 <= i < |bases| && BaseHas(reading, w, id.file, bases[i], steps, n - 1))
  }

  ghost predicate BaseHas(reading: Reading, w: World, file: string, base: Base, steps: seq<Step>, n: nat)
    decreases n, 1
  {
    base.Named? && w.Resolves(file, base.name) && DeclHas(reading, w, w.resolve[(file, base.name)], steps, n)
  }

  ghost predicate PropertyHas(reading: Reading, w: World, file: string, p: Signature, steps: seq<Step>, n: nat)
    requires steps != []
    decreases n, 1
  {
    |steps| == 1 || (p.Property? && p.annotation.Some? && TypeHas(reading, w, file, p.annotation.value, steps[1..], n))
  }

  /** The type has a member at `steps`. */
  ghost predicate TypeHas(reading: Reading, w: World, file: string, t: Type, steps: seq<Step>, n: nat)
    decreases n, 0
  {
    steps == [] || (n > 0 &&
      match t
      case Literal(members) =>
        steps[0].Member? && FindProperty(reading.Names(), members, steps[0].name).Some?
        && PropertyHas(reading, w, file, FindProperty(reading.Names(), members, steps[0].name).value, steps, n - 1)
      case Parens(inner) => TypeHas(reading, w, file, inner, steps, n - 1)
      case Operator(inner) => TypeHas(reading, w, file, inner, steps, n - 1)
      case KeyOf(inner) => reading == AsChecked && TypeHas(reading, w, file, inner, steps, n - 1)
      case Intersection(parts) => exists i :: 0 <= i < |parts| && TypeHas(reading, w, file, parts[i], steps, n - 1)
      case Union(parts) => forall i | 0 <= i < |parts| :: TypeHas(reading, w, file, parts[i], steps, n - 1)
      case ArrayOf(element) => steps[0].Element? && TypeHas(reading, w, file, element, steps[1..], n - 1)
      case IndexedBy(target, key) => TypeHas(reading, w, file, target, [Member(key)] + steps, n - 1)
      case Reference(name, qualified, args) =>
        if IsPassthrough(name) && args != [] then TypeHas(reading, w, file, args[0], steps, n - 1)
        else if IsArrayName(name) && args != []
            then steps[0].Element? && TypeHas(reading, w, file, args[0], steps[1..], n - 1)
        else !qualified && w.Resolves(file, name) && DeclHas(reading, w, w.resolve[(file, name)], steps, n - 1)
      case Other => false)
  }

  /** The declaration provably has no member at `steps`, by a derivation of depth at most `n`. */
  ghost predicate DeclLacks(reading: Reading, w: World, id: DeclId, steps: seq<Step>, n: nat)
    decreases n, 0
  {
    steps != [] && n > 0 && id in w.decls &&
      match w.decls[id]
      case Alias(aliased) => TypeLacks(reading, w, id.file, aliased, steps, n - 1)
      case Interface(members, bases) =>
        steps[0].Member? &&
        match FindProperty(reading.Names(), members, steps[0].name)
        case Some(p) => PropertyLacks(reading, w, id.file, p, steps, n - 1)
        case None => forall i | 0 <= i < |bases| :: BaseLacks(reading, w, id.file, bases[i], steps, n - 1)
  }

  ghost predicate BaseLacks(reading: Reading, w: World, file: string, base: Base, steps: seq<Step>, n: nat)
    decreases n, 1
  {
    base.Named? && w.Resolves(file, base.name) && DeclLacks(reading, w, w.resolve[(file, base.name)], steps, n)
  }

  ghost predicate PropertyLacks(reading: Reading, w: World, file: string, p: Signature, steps: seq<Step>, n: nat)
    requires steps != []
    decreases n, 1
  {
    |steps| > 1 && p.Property? && p.annotation.Some? && TypeLacks(reading, w, file, p.annotation.value, steps[1..], n)
  }

  /** The type provably has no member at `steps`. */
  ghost predicate TypeLacks(reading: Reading, w: World, file: string, t: Type, steps: seq<Step>, n: nat)
    decreases n, 0
  {
    steps != [] && n > 0 &&
      match t
      case Literal(members) =>
        steps[0].Member? &&
        (FindProperty(reading.Names(), members, steps[0].name).Some? ==>
          PropertyLacks(reading, w, file, FindProperty(reading.Names(), members, steps[0].name).value, steps, n - 1))
      case Parens(inner) => TypeLacks(reading, w, file, inner, steps, n - 1)
      case Operator(inner) => TypeLacks(reading, w, file, inner, steps, n - 1)
      case KeyOf(inner) => reading == AsChecked ==> TypeLacks(reading, w, file, inner, steps, n - 1)
      case Intersection(parts) => forall i | 0 <= i < |parts| :: TypeLacks(reading, w, file, parts[i], steps, n - 1)
      case Union(parts) =>
          parts != [] && forall i | 0 <= i < |parts| :: TypeLacks(reading, w, file, parts[i], steps, n - 1)
      case ArrayOf(element) => steps[0].Element? && TypeLacks(reading, w, file, element, steps[1..], n - 1)
      case IndexedBy(target, key) => TypeLacks(reading, w, file, target, [Member(key)] + steps, n - 1)
      case Reference(name, qualified, args) =>
        if IsPassthrough(name) && args != [] then TypeLacks(reading, w, file, args[0], steps, n - 1)
        else if IsArrayName(name) && args != []
            then steps[0].Element? && TypeLacks(reading, w, file, args[0], steps[1..], n - 1)
        else !qualified && w.Resolves(file, name) && DeclLacks(reading, w, w.resolve[(file, name)], steps, n - 1)
      case Other => false
  }
}
