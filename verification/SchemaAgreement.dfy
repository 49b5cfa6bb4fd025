/** The schema walk against the presence check (scripts/gen-config-catalog.ts:393-479 and 498-595): which of
    the keys a schema prints are found in a type that declares the same. The check compares source text,
    so a member that the type spells with quotes is not found under the key the walk prints. */
module SchemaAgreement {
  import opened Wrappers
  import opened ConfigTypes
  import opened ConfigTermination
  import opened KeyPaths
  import opened SchemaKeys

  // ----- The mirror type -----

  /** `t` declares what the schema says, each key under its name, however either spells it. */
  predicate Mirrors(schema: Schema, t: Type) {
    match schema
    case Object(props) =>
        t.Literal? && |t.members| == |props| && forall i | 0 <= i < |props| :: PropMirrored(props[i], t.members[i])
    case ArraySchema(element) => t.ArrayOf? && Mirrors(element, t.element)
    case Refined(inner) => Mirrors(inner, t)
    case Intersect(parts) =>
        t.Intersection? && |t.parts| == |parts| && forall i | 0 <= i < |parts| :: Mirrors(parts[i], t.parts[i])
    case OneOf(parts) =>
        t.Union? && |t.parts| == |parts| && forall i | 0 <= i < |parts| :: Mirrors(parts[i], t.parts[i])
    case Leaf => t == Other
  }

  predicate PropMirrored(p: Prop, m: Signature) {
    m.Property? && m.name.text == p.name.text && m.annotation.Some? && Mirrors(p.value, m.annotation.value)
  }

  predicate HasKey(props: seq<Prop>, key: string) {
    exists i :: 0 <= i < |props| && props[i].Key() == key
  }

  /** Keys are told apart within each object, and each is plain. */
  predicate WellKeyed(schema: Schema) {
    match schema
    case Object(props) => PropsKeyed(props)
    case ArraySchema(element) => WellKeyed(element)
    case Refined(inner) => WellKeyed(inner)
    case Intersect(parts) => AllKeyed(parts)
    case OneOf(parts) => AllKeyed(parts)
    case Leaf => true
  }

  predicate PropsKeyed(props: seq<Prop>) {
    props == [] ||
    (Plain(props[0].Key()) && (assert props[0].value < props[0]; WellKeyed(props[0].value)) &&
     !HasKey(props[1..], props[0].Key()) && PropsKeyed(props[1..]))
  }

  predicate AllKeyed(parts: seq<Schema>) {
    parts == [] || (WellKeyed(parts[0]) && AllKeyed(parts[1..]))
  }

  lemma {:induction false} KeyedAt(props: seq<Prop>, i: nat)
    requires PropsKeyed(props) && i < |props|
    ensures WellKeyed(props[i].value) && Plain(props[i].Key())
    ensures forall j | 0 <= j < |props| && props[j].Key() == props[i].Key() :: j == i
  {
    if i > 0 {
      KeyedAt(props[1..], i - 1);
      assert HasKey(props[1..], props[i].Key()) by { assert props[1..][i - 1].Key() == props[i].Key(); }
    }
    forall j | 0 <= j < |props| && props[j].Key() == props[i].Key() ensures j == i {
      if j > 0 { assert props[1..][j - 1] == props[j]; }
    }
  }

  lemma {:induction false} KeyedPart(parts: seq<Schema>, i: nat)
    requires AllKeyed(parts) && i < |parts|
    ensures WellKeyed(parts[i])
  {
    if i > 0 { KeyedPart(parts[1..], i - 1); }
  }

  /** What a member path of an object is: a key of it, and possibly a member path of that key's value. */
  ghost predicate PropPath(p: Prop, r: seq<Step>) {
    r != [] && r[0] == Member(p.Key()) && (|r| == 1 || r[1..] in ValueSteps(p.value))
  }

  lemma {:induction false} UnderMember(s: Step, rs: seq<seq<Step>>, r: seq<Step>)
    requires r in Under(s, rs)
    ensures r != [] && r[0] == s && r[1..] in rs
  {
    if r != [s] + rs[0] {
      UnderMember(s, rs[1..], r);
    } else {
      assert r[1..] == rs[0];
    }
  }

  lemma {:induction false} PropsPath(props: seq<Prop>, r: seq<Step>) returns (i: nat)
    requires r in PropsSteps(props)
    ensures i < |props| && PropPath(props[i], r)
  {
    var k := Member(props[0].Key());
    if r in PropsSteps(props[1..]) {
      i := PropsPath(props[1..], r);
      i := i + 1;
    } else {
      i := 0;
      if r != [k] { UnderMember(k, ValueSteps(props[0].value), r); }
    }
  }

  lemma {:induction false} ValueStepsNonEmpty(value: Schema, r: seq<Step>)
    requires r in ValueSteps(value)
    ensures r != []
  {
    match value
    case Object(props) => var i := PropsPath(props, r);
    case ArraySchema(element) => UnderMember(Element, ValueSteps(element), r);
    case Refined(inner) => ValueStepsNonEmpty(inner, r);
    case _ =>
  }

  // ----- How members are spelled -----

  /** The member is written as the schema prints its key: without quotes, if the key is a string. */
  predicate SpelledAlike(p: Prop, m: Signature) { m.Property? && m.name.Written() == p.Key() }

  predicate AllSpelled(schema: Schema, t: Type)
    requires Mirrors(schema, t)
  {
    match schema
    case Object(props) => forall i | 0 <= i < |props| :: PropSpelled(props[i], t.members[i])
    case ArraySchema(element) => AllSpelled(element, t.element)
    case Refined(inner) => AllSpelled(inner, t)
    case Intersect(parts) => forall i | 0 <= i < |parts| :: AllSpelled(parts[i], t.parts[i])
    case OneOf(parts) => forall i | 0 <= i < |parts| :: AllSpelled(parts[i], t.parts[i])
    case Leaf => true
  }

  predicate PropSpelled(p: Prop, m: Signature)
    requires PropMirrored(p, m)
  {
    SpelledAlike(p, m) && AllSpelled(p.value, m.annotation.value)
  }

  /** No member that is spelled otherwise is written like one of the names: it cannot be taken for another. */
  predicate Unmistaken(schema: Schema, t: Type, names: set<string>)
    requires Mirrors(schema, t)
  {
    match schema
    case Object(props) => forall i | 0 <= i < |props| :: PropUnmistaken(props[i], t.members[i], names)
    case ArraySchema(element) => Unmistaken(element, t.element, names)
    case Refined(inner) => Unmistaken(inner, t, names)
    case Intersect(parts) => forall i | 0 <= i < |parts| :: Unmistaken(parts[i], t.parts[i], names)
    case OneOf(parts) => forall i | 0 <= i < |parts| :: Unmistaken(parts[i], t.parts[i], names)
    case Leaf => true
  }

  predicate PropUnmistaken(p: Prop, m: Signature, names: set<string>)
    requires PropMirrored(p, m)
  {
    (SpelledAlike(p, m) || m.name.Written() !in names) && Unmistaken(p.value, m.annotation.value, names)
  }

  lemma {:induction false} SpelledUnmistaken(schema: Schema, t: Type, names: set<string>)
    requires Mirrors(schema, t) && AllSpelled(schema, t)
    ensures Unmistaken(schema, t, names)
  {
    match schema
    case Object(props) =>
      forall i | 0 <= i < |props| ensures PropUnmistaken(props[i], t.members[i], names) {
        assert PropSpelled(props[i], t.members[i]);
        SpelledUnmistaken(props[i].value, t.members[i].annotation.value, names);
      }
    case ArraySchema(element) => SpelledUnmistaken(element, t.element, names);
    case Refined(inner) => SpelledUnmistaken(inner, t, names);
    case Intersect(parts) =>
      forall i | 0 <= i < |parts| ensures Unmistaken(parts[i], t.parts[i], names) {
        SpelledUnmistaken(parts[i], t.parts[i], names);
      }
    case OneOf(parts) =>
      forall i | 0 <= i < |parts| ensures Unmistaken(parts[i], t.parts[i], names) {
        SpelledUnmistaken(parts[i], t.parts[i], names);
      }
    case Leaf =>
  }

  /** Every member on the path is spelled as the schema prints it. */
  ghost predicate Spelled(schema: Schema, t: Type, r: seq<Step>)
    requires Mirrors(schema, t)
  {
    r == [] ||
      match schema
      case Object(props) =>
        exists i :: 0 <= i < |props| && PropOnPath(props[i], t.members[i], r)
      case ArraySchema(element) => r[0].Element? && Spelled(element, t.element, r[1..])
      case Refined(inner) => Spelled(inner, t, r)
      case Intersect(parts) => exists i :: 0 <= i < |parts| && Spelled(parts[i], t.parts[i], r)
      case OneOf(parts) => forall i | 0 <= i < |parts| :: Spelled(parts[i], t.parts[i], r)
      case Leaf => false
  }

  ghost predicate PropOnPath(p: Prop, m: Signature, r: seq<Step>)
    requires r != [] && PropMirrored(p, m)
  {
    r[0] == Member(p.Key()) && SpelledAlike(p, m) && (|r| == 1 || Spelled(p.value, m.annotation.value, r[1..]))
  }

  /** The path is lost: wherever it leads to a member, that member or one below it is spelled otherwise, and
      nothing on the way keeps the check from telling. */
  ghost predicate Lost(schema: Schema, t: Type, r: seq<Step>)
    requires Mirrors(schema, t)
  {
    r != [] &&
      match schema
      case Object(props) => r[0].Member? && forall i | 0 <= i < |props| :: PropLost(props[i], t.members[i], r)
      case ArraySchema(element) => r[0].Element? && Lost(element, t.element, r[1..])
      case Refined(inner) => Lost(inner, t, r)
      case Intersect(parts) => forall i | 0 <= i < |parts| :: Lost(parts[i], t.parts[i], r)
      case OneOf(parts) => parts != [] && forall i | 0 <= i < |parts| :: Lost(parts[i], t.parts[i], r)
      case Leaf => false
  }

  ghost predicate PropLost(p: Prop, m: Signature, r: seq<Step>)
    requires r != [] && PropMirrored(p, m)
  {
    r[0] == Member(p.Key()) && SpelledAlike(p, m) ==> |r| > 1 && Lost(p.value, m.annotation.value, r[1..])
  }

  function StepNames(r: seq<Step>): set<string> {
    set i | 0 <= i < |r| && r[i].Member? :: r[i].name
  }

  lemma TailNames(r: seq<Step>)
    requires r != []
    ensures StepNames(r[1..]) <= StepNames(r) && (r[0].Member? ==> r[0].name in StepNames(r))
  {
    forall x | x in StepNames(r[1..]) ensures x in StepNames(r) {
      var i :| 0 <= i < |r[1..]| && r[1..][i].Member? && r[1..][i].name == x;
      assert r[i + 1].Member?;
    }
  }

  // ----- What the check makes of it -----

  /** The signature found stands at some place. */
  lemma {:induction false} FoundAt(members: seq<Signature>, name: string) returns (i: nat)
    requires FindProperty(BySource, members, name).Some?
    ensures i < |members| && members[i] == FindProperty(BySource, members, name).value
    ensures members[i].Property? && members[i].name.Written() == name
  {
    if members[0].Property? && members[0].name.Written() == name {
      i := 0;
    } else {
      i := FoundAt(members[1..], name);
      i := i + 1;
    }
  }

  lemma {:induction false} FoundIfAny(members: seq<Signature>, i: nat)
    requires i < |members| && members[i].Property?
    ensures FindProperty(BySource, members, members[i].name.Written()).Some?
  {
    if i > 0 { FoundIfAny(members[1..], i - 1); }
  }

  /** An object's own signature for a step, unless the step is spelled otherwise there. */
  lemma ObjectFinds(props: seq<Prop>, members: seq<Signature>, names: set<string>, name: string) returns (i: int)
    requires PropsKeyed(props) && |members| == |props| && forall j | 0 <= j < |props| ::
              PropMirrored(props[j], members[j])
    requires forall j | 0 <= j < |props| :: PropUnmistaken(props[j], members[j], names)
    requires name in names
    ensures i == -1 <==> FindProperty(BySource, members, name) == None
    ensures i == -1 ==> forall j | 0 <= j < |props| && props[j].Key() == name :: !SpelledAlike(props[j], members[j])
    ensures i != -1 ==>
              0 <= i < |props| && FindProperty(BySource, members, name) == Some(members[i]) &&
                  SpelledAlike(props[i], members[i])
    ensures i != -1 ==> props[i].Key() == name && forall j | 0 <= j < |props| && props[j].Key() == name :: j == i
  {
    if FindProperty(BySource, members, name).Some? {
      i := FoundAt(members, name);
      KeyedAt(props, i);
    } else {
      i := -1;
      forall j | 0 <= j < |props| && props[j].Key() == name ensures !SpelledAlike(props[j], members[j]) {
        if SpelledAlike(props[j], members[j]) { FoundIfAny(members, j); }
      }
    }
  }

  lemma {:induction false} MemberSize(members: seq<Signature>, i: nat)
    requires i < |members|
    ensures SignatureSize(members[i]) <= MembersSize(members)
  {
    if i > 0 { MemberSize(members[1..], i - 1); }
  }

  lemma {:induction false} PartSize(ts: seq<Type>, i: nat)
    requires i < |ts|
    ensures Size(ts[i]) <= TypesSize(ts)
  {
    if i > 0 { PartSize(ts[1..], i - 1); }
  }

  /** The check on a mirror always answers, leaves `seen` alone, and answers `Found` exactly when every
      member on the path is spelled as the schema prints it, `Missing` exactly when the path is lost. */
  lemma {:induction false} AnswersExactly(w: World, file: string, schema: Schema, t: Type, r: seq<Step>,
                                          names: set<string>, seen: Seen, fuel: nat)
    requires Mirrors(schema, t) && WellKeyed(schema) && Unmistaken(schema, t, names)
    requires StepNames(r) <= names && fuel >= Size(t)
    ensures LookupType(Shared, w, file, t, r, seen, fuel).Done?
    ensures LookupType(Shared, w, file, t, r, seen, fuel).seen == seen
    ensures LookupType(Shared, w, file, t, r, seen, fuel).answer == Found <==> Spelled(schema, t, r)
    ensures LookupType(Shared, w, file, t, r, seen, fuel).answer == Missing <==> Lost(schema, t, r)
    decreases schema, |r|
  {
    if r != [] {
      TailNames(r);
      match schema
      case Object(props) => ObjectExactly(w, file, props, t.members, r, names, seen, fuel);
      case ArraySchema(element) =>
        if r[0].Element? { AnswersExactly(w, file, element, t.element, r[1..], names, seen, fuel - 1); }
      case Refined(inner) => AnswersExactly(w, file, inner, t, r, names, seen, fuel);
      case Intersect(parts) => PartsExactly(w, file, parts, t.parts, r, names, seen, fuel - 1);
      case OneOf(parts) => PartsExactly(w, file, parts, t.parts, r, names, seen, fuel - 1);
      case Leaf =>
    }
  }

  lemma {:induction false} ObjectExactly(w: World, file: string, props: seq<Prop>, members: seq<Signature>,
                                         r: seq<Step>,
                                         names: set<string>, seen: Seen, fuel: nat)
    requires Mirrors(Object(props), Literal(members)) && PropsKeyed(props)
    requires Unmistaken(Object(props), Literal(members), names)
    requires r != [] && StepNames(r) <= names && fuel >= Size(Literal(members))
    ensures LookupType(Shared, w, file, Literal(members), r, seen, fuel).Done?
    ensures LookupType(Shared, w, file, Literal(members), r, seen, fuel).seen == seen
    ensures LookupType(Shared, w, file, Literal(members), r, seen, fuel).answer == Found
       <==> Spelled(Object(props), Literal(members), r)
    ensures LookupType(Shared, w, file, Literal(members), r, seen, fuel).answer == Missing
       <==> Lost(Object(props), Literal(members), r)
    decreases props, |r|
  {
    TailNames(r);
    if r[0].Member? {
      var i := ObjectFinds(props, members, names, r[0].name);
      if i != -1 {
        KeyedAt(props, i);
        MemberSize(members, i);
        if |r| > 1 {
          AnswersExactly(w, file, props[i].value, members[i].annotation.value, r[1..], names, seen, fuel - 1);
        }
      }
    }
  }

  lemma {:induction false} PartsExactly(w: World, file: string, parts: seq<Schema>, ts: seq<Type>, r: seq<Step>,
                                        names: set<string>, seen: Seen, fuel: nat)
    requires |ts| == |parts| && AllKeyed(parts) && StepNames(r) <= names && fuel >= TypesSize(ts)
    requires forall i | 0 <= i < |parts| :: Mirrors(parts[i], ts[i]) && Unmistaken(parts[i], ts[i], names)
    ensures LookupParts(Shared, w, file, ts, r, seen, fuel).AllDone?
    ensures LookupParts(Shared, w, file, ts, r, seen, fuel).seen == seen
    ensures |LookupParts(Shared, w, file, ts, r, seen, fuel).answers| == |parts|
    ensures forall i | 0 <= i < |parts| ::
              && (LookupParts(Shared, w, file, ts, r, seen, fuel).answers[i] == Found <==> Spelled(parts[i], ts[i], r))
              && (LookupParts(Shared, w, file, ts, r, seen, fuel).answers[i] == Missing <==> Lost(parts[i], ts[i], r))
    decreases parts, |r|
  {
    if parts != [] {
      AnswersExactly(w, file, parts[0], ts[0], r, names, seen, fuel);
      PartsExactly(w, file, parts[1..], ts[1..], r, names, seen, fuel);
    }
  }

  // ----- Printed members -----

  /** No union decides between the top of the schema and its keys. */
  predicate UnionFree(schema: Schema) {
    match schema
    case Refined(inner) => UnionFree(inner)
    case Intersect(parts) => forall i | 0 <= i < |parts| :: UnionFree(parts[i])
    case OneOf(_) => false
    case _ => true
  }

  lemma {:induction false} PartWith(parts: seq<Schema>, r: seq<Step>) returns (i: nat)
    requires r in PartsSteps(parts)
    ensures i < |parts| && r in TopSteps(parts[i])
  {
    if r in TopSteps(parts[0]) {
      i := 0;
    } else {
      i := PartWith(parts[1..], r);
      i := i + 1;
    }
  }

  lemma {:induction false} ValueSpelled(value: Schema, t: Type, r: seq<Step>)
    requires Mirrors(value, t) && AllSpelled(value, t) && r in ValueSteps(value)
    ensures Spelled(value, t, r)
    decreases value
  {
    ValueStepsNonEmpty(value, r);
    match value
    case Object(props) =>
      var i := PropsPath(props, r);
      assert PropSpelled(props[i], t.members[i]);
      if |r| > 1 { ValueSpelled(props[i].value, t.members[i].annotation.value, r[1..]); }
      assert PropOnPath(props[i], t.members[i], r);
    case ArraySchema(element) =>
      UnderMember(Element, ValueSteps(element), r);
      ValueSpelled(element, t.element, r[1..]);
    case Refined(inner) => ValueSpelled(inner, t, r);
    case _ =>
  }

  lemma {:induction false} TopSpelled(schema: Schema, t: Type, r: seq<Step>)
    requires Mirrors(schema, t) && AllSpelled(schema, t) && UnionFree(schema) && r in TopSteps(schema)
    ensures Spelled(schema, t, r)
    decreases schema
  {
    match schema
    case Object(props) => ValueSpelled(schema, t, r);
    case Refined(inner) => TopSpelled(inner, t, r);
    case Intersect(parts) =>
      var i := PartWith(parts, r);
      TopSpelled(parts[i], t.parts[i], r);
    case _ =>
  }

  /** In a mirror that spells every member as the schema prints it no member is lost, unions or not. */
  lemma {:induction false} SpelledNotLost(schema: Schema, t: Type, r: seq<Step>)
    requires Mirrors(schema, t) && WellKeyed(schema) && AllSpelled(schema, t) && r in TopSteps(schema)
    ensures !Lost(schema, t, r)
    decreases schema
  {
    match schema
    case Object(props) =>
      ValueSpelled(schema, t, r);
      ValueLost(schema, t, r);
    case Refined(inner) => SpelledNotLost(inner, t, r);
    case Intersect(parts) =>
      var i := PartWith(parts, r);
      KeyedPart(parts, i);
      SpelledNotLost(parts[i], t.parts[i], r);
    case OneOf(parts) =>
      var i := PartWith(parts, r);
      KeyedPart(parts, i);
      SpelledNotLost(parts[i], t.parts[i], r);
    case _ =>
  }

  /** Below an object a member is lost exactly when some member on its path is spelled otherwise. */
  lemma {:induction false} ValueLost(value: Schema, t: Type, r: seq<Step>)
    requires Mirrors(value, t) && WellKeyed(value) && r in ValueSteps(value)
    ensures Lost(value, t, r) <==> !Spelled(value, t, r)
    decreases value
  {
    ValueStepsNonEmpty(value, r);
    match value
    case Object(props) =>
      var i := PropsPath(props, r);
      KeyedAt(props, i);
      if |r| > 1 { ValueLost(props[i].value, t.members[i].annotation.value, r[1..]); }
      assert PropLost(props[i], t.members[i], r) <==> !PropOnPath(props[i], t.members[i], r);
    case ArraySchema(element) =>
      UnderMember(Element, ValueSteps(element), r);
      ValueLost(element, t.element, r[1..]);
    case Refined(inner) => ValueLost(inner, t, r);
    case _ =>
  }

  // ----- End to end, from the printed key -----

  lemma {:induction false} ValuePlain(value: Schema, r: seq<Step>)
    requires WellKeyed(value) && r in ValueSteps(value)
    ensures AllPlain(r)
    decreases value
  {
    match value
    case Object(props) =>
      var i := PropsPath(props, r);
      KeyedAt(props, i);
      if |r| > 1 { ValuePlain(props[i].value, r[1..]); }
      PlainCons(r);
    case ArraySchema(element) =>
      UnderMember(Element, ValueSteps(element), r);
      ValuePlain(element, r[1..]);
      PlainCons(r);
    case Refined(inner) => ValuePlain(inner, r);
    case _ =>
  }

  lemma PlainCons(r: seq<Step>)
    requires r != [] && AllPlain(r[1..]) && (r[0].Member? ==> Plain(r[0].name))
    ensures AllPlain(r)
  {
    forall i | 0 <= i < |r| && r[i].Member? ensures Plain(r[i].name) {
      if i > 0 { assert r[1..][i - 1] == r[i]; }
    }
  }

  lemma {:induction false} TopPlain(schema: Schema, r: seq<Step>)
    requires WellKeyed(schema) && r in TopSteps(schema)
    ensures AllPlain(r)
    decreases schema
  {
    match schema
    case Object(props) => ValuePlain(schema, r);
    case Refined(inner) => TopPlain(inner, r);
    case Intersect(parts) =>
      var i := PartWith(parts, r);
      KeyedPart(parts, i);
      TopPlain(parts[i], r);
    case OneOf(parts) =>
      var i := PartWith(parts, r);
      KeyedPart(parts, i);
      TopPlain(parts[i], r);
    case _ =>
  }

  lemma {:induction false} TopsAt(rs: seq<seq<Step>>, j: nat)
    requires Headed(rs) && j < |rs|
    ensures |Tops(rs)| == |rs| && Tops(rs)[j] == PathString(rs[j][0].name, rs[j][1..])
  {
    if j > 0 {
      TopsAt(rs[1..], j - 1);
    } else if |rs| > 1 {
      TopsAt(rs[1..], 0);
    }
  }

  lemma {:induction false} TopsLength(rs: seq<seq<Step>>)
    requires Headed(rs)
    ensures |Tops(rs)| == |rs|
  {
    if rs != [] { TopsLength(rs[1..]); }
  }

  /** Every key the walk prints reads back as a member path of the schema. */
  lemma PrintedReadsBack(schema: Schema, j: nat)
    requires WellKeyed(schema) && j < |Visit(schema).keys|
    ensures j < |TopSteps(schema)| && StepsOf(Visit(schema).keys[j]) == TopSteps(schema)[j]
  {
    var rs := TopSteps(schema);
    VisitWrites(schema);
    TopsLength(rs);
    TopsAt(rs, j);
    var r := rs[j];
    TopPlain(schema, r);
    hide *;
    TailPlain(r);
    RenderReadsBack(r[0].name, r[1..]);
    assert [Member(r[0].name)] + r[1..] == r;
  }

  /** Looking up a printed key in the mirror finds it exactly when every member on its path is spelled as
      the walk prints it, and reports it missing exactly when the path is lost. Where the whole mirror is
      spelled so, it is never missing, and is found unless a union decides. */
  lemma PrintedKeysAgree(w: World, file: string, schema: Schema, t: Type, j: nat, seen: Seen, fuel: nat)
    requires Mirrors(schema, t) && WellKeyed(schema) && j < |Visit(schema).keys| && fuel >= Size(t)
    requires Unmistaken(schema, t, StepNames(StepsOf(Visit(schema).keys[j])))
    ensures var steps := StepsOf(Visit(schema).keys[j]);
            && LookupType(Shared, w, file, t, steps, seen, fuel).Done?
            && (LookupType(Shared, w, file, t, steps, seen, fuel).answer == Found <==> Spelled(schema, t, steps))
            && (LookupType(Shared, w, file, t, steps, seen, fuel).answer == Missing <==> Lost(schema, t, steps))
            && (AllSpelled(schema, t) ==> LookupType(Shared, w, file, t, steps, seen, fuel).answer != Missing)
            && (AllSpelled(schema, t) && UnionFree(schema) ==>
                  LookupType(Shared, w, file, t, steps, seen, fuel).answer == Found)
  {
    var r := StepsOf(Visit(schema).keys[j]);
    PrintedReadsBack(schema, j);
    assert r in TopSteps(schema);
    hide *;
    AnswersExactly(w, file, schema, t, r, StepNames(r), seen, fuel);
    if AllSpelled(schema, t) {
      SpelledNotLost(schema, t, r);
      if UnionFree(schema) { TopSpelled(schema, t, r); }
    }
  }

  /** What the check is run on: an alias of the type, or an interface with its members and no bases. */
  predicate Declares(w: World, id: DeclId, t: Type) {
    id in w.decls && (w.decls[id] == Alias(t) || (t.Literal? && w.decls[id] == Interface(t.members, [])))
  }

  lemma DeclaredAlike(w: World, id: DeclId, t: Type, r: seq<Step>, fuel: nat)
    requires Declares(w, id, t) && r != [] && fuel > 1
    requires LookupType(Shared, w, id.file, t, r, {(id, |r|)}, fuel - 1).Done?
    requires t.Literal? ==> LookupType(Shared, w, id.file, t, r, {(id, |r|)}, fuel).Done?
    ensures LookupDecl(Shared, w, id, r, {}, fuel).Done?
    ensures LookupDecl(Shared, w, id, r, {}, fuel).answer ==
            LookupType(Shared, w, id.file, t, r, {(id, |r|)}, if w.decls[id].Alias? then fuel - 1 else fuel).answer
  {
    assert {} + {(id, |r|)} == {(id, |r|)};
  }

  /** A key printed for a schema is found in the declared config type exactly when every member on its path is
      spelled as the walk prints it, and reported exactly when the path is lost, although the type declares
      it. For an object one or the other holds. */
  lemma ReportedExactly(w: World, id: DeclId, schema: Schema, t: Type, j: nat, fuel: nat)
    requires Declares(w, id, t) && Mirrors(schema, t) && WellKeyed(schema) && j < |Visit(schema).keys|
    requires Unmistaken(schema, t, StepNames(StepsOf(Visit(schema).keys[j]))) && fuel > 1 + Size(t)
    ensures var steps := StepsOf(Visit(schema).keys[j]);
            && LookupDecl(Shared, w, id, steps, {}, fuel).Done?
            && (LookupDecl(Shared, w, id, steps, {}, fuel).answer == Found <==> Spelled(schema, t, steps))
            && (LookupDecl(Shared, w, id, steps, {}, fuel).answer == Missing <==> Lost(schema, t, steps))
            && (IsObject(schema) ==> (Lost(schema, t, steps) <==> !Spelled(schema, t, steps)))
  {
    var r := StepsOf(Visit(schema).keys[j]);
    PrintedReadsBack(schema, j);
    assert r in TopSteps(schema);
    if IsObject(schema) {
      ObjectSteps(schema);
      ValueLost(schema, t, r);
    }
    TopNonEmpty(schema, r);
    hide *;
    PrintedKeysAgree(w, id.file, schema, t, j, {(id, |r|)}, fuel - 1);
    PrintedKeysAgree(w, id.file, schema, t, j, {(id, |r|)}, fuel);
    DeclaredAlike(w, id, t, r, fuel);
  }

  lemma {:induction false} TopNonEmpty(schema: Schema, r: seq<Step>)
    requires r in TopSteps(schema)
    ensures r != []
    decreases schema
  {
    match schema
    case Object(props) => ValueStepsNonEmpty(schema, r);
    case Refined(inner) => TopNonEmpty(inner, r);
    case Intersect(parts) => var i := PartWith(parts, r); TopNonEmpty(parts[i], r);
    case OneOf(parts) => var i := PartWith(parts, r); TopNonEmpty(parts[i], r);
    case _ =>
  }

  lemma TailPlain(r: seq<Step>)
    requires AllPlain(r) && r != [] && r[0].Member?
    ensures Plain(r[0].name) && AllPlain(r[1..])
  {
    forall i | 0 <= i < |r[1..]| && r[1..][i].Member? ensures Plain(r[1..][i].name) { assert r[1..][i] == r[i + 1]; }
  }

  /** A schema that is an object, possibly refined. */
  predicate IsObject(schema: Schema) {
    schema.Object? || (schema.Refined? && IsObject(schema.inner))
  }

  lemma {:induction false} ObjectSteps(schema: Schema)
    requires IsObject(schema)
    ensures TopSteps(schema) == ValueSteps(schema)
  {
    if schema.Refined? { ObjectSteps(schema.inner); }
  }

  /** An object with one key, written as a string literal in both places. */
  function OneKey(name: Name): Schema { Object([Prop(name, Leaf)]) }

  function OneMember(name: Name): Type { Literal([Property(name, Some(Other))]) }

  /** A key that needs quotes: the schema prints it without, the type must write it with. */
  lemma QuotedKeyMissing(w: World, file: string, name: Name, seen: Seen, fuel: nat)
    requires name.StringLiteral? && name.source != name.text && Plain(name.text) && fuel >= 1
    ensures Mirrors(OneKey(name), OneMember(name)) && WellKeyed(OneKey(name)) && Visit(OneKey(name)).keys == [name.text]
    ensures StepsOf(name.text) == [Member(name.text)] &&
            TypeHas(AsNamed, w, file, OneMember(name), [Member(name.text)], 1)
    ensures LookupType(Shared, w, file, OneMember(name), [Member(name.text)], seen, fuel) == Done(Missing, seen)
  {
    KeyReadsBack(name.text);
    OneKeyWritten(name);
    hide StepsOf, Plain, Mirrors, WellKeyed, Visit;
    assert [Prop(name, Leaf)][1..] == [] && [Property(name, Some(Other))][1..] == [];
    assert FindProperty(BySource, OneMember(name).members, name.text) == None;
    assert FindProperty(ByName, OneMember(name).members, name.text).Some?;
  }

  lemma OneKeyWritten(name: Name)
    requires name.StringLiteral? && Plain(name.text)
    ensures Mirrors(OneKey(name), OneMember(name)) && WellKeyed(OneKey(name)) && Visit(OneKey(name)).keys == [name.text]
  {
    hide Plain;
    var p, m := Prop(name, Leaf), Property(name, Some(Other));
    assert [p][1..] == [];
    assert Mirrors(Leaf, Other);
    assert PropMirrored(p, m);
    assert WellKeyed(Leaf) && PropsKeyed([]) && !HasKey([], p.Key());
    assert PropsKeyed([p]);
    assert TopProps([]) == [] && CollectValuePaths(Leaf, name.text) == [];
    assert TopProps([p]) == [name.text];
  }

  /** `z.object({ 'max-tokens': z.number() })` against `{ 'max-tokens'?: number }`. */
  lemma MaxTokensReported(w: World, file: string, seen: Seen, fuel: nat)
    requires fuel >= 1
    ensures var name := StringLiteral("max-tokens", "'max-tokens'");
            && Mirrors(OneKey(name), OneMember(name)) && Visit(OneKey(name)).keys == ["max-tokens"]
            && TypeHas(AsNamed, w, file, OneMember(name), StepsOf("max-tokens"), 1)
            && LookupType(Shared, w, file, OneMember(name), StepsOf("max-tokens"), seen, fuel) == Done(Missing, seen)
  {
    var name := StringLiteral("max-tokens", "'max-tokens'");
    assert name.source[0] != name.text[0];
    MaxTokensPlain();
    hide *;
    QuotedKeyMissing(w, file, name, seen, fuel);
  }

  lemma MaxTokensPlain()
    ensures Plain("max-tokens")
  {}

  // ----- A dropped member is noticed -----

  function WithoutProperty(members: seq<Signature>, name: string): seq<Signature> {
    if members == [] then []
    else if members[0].Property? && members[0].name.Written() == name then WithoutProperty(members[1..], name)
    else [members[0]] + WithoutProperty(members[1..], name)
  }

  function WithAnnotation(members: seq<Signature>, name: string, t: Type): seq<Signature> {
    if members == [] then []
    else (if members[0].Property? && members[0].name.Written() == name then [Property(members[0].name, Some(t))]
          else [members[0]])
         + WithAnnotation(members[1..], name, t)
  }

  /** The type without the member at `steps`. */
  function Drop(t: Type, steps: seq<Step>): Type
    decreases |steps|
  {
    if steps == [] then t
    else if t.Literal? && steps[0].Member? then
      if |steps| == 1 then Literal(WithoutProperty(t.members, steps[0].name))
      else
        var p := FindProperty(BySource, t.members, steps[0].name);
        if p.Some? && p.value.Property? && p.value.annotation.Some?
        then Literal(WithAnnotation(t.members, steps[0].name, Drop(p.value.annotation.value, steps[1..])))
        else t
    else if t.ArrayOf? && steps[0].Element? then ArrayOf(Drop(t.element, steps[1..]))
    else t
  }

  lemma {:induction false} DroppedNotFound(members: seq<Signature>, name: string)
    ensures FindProperty(BySource, WithoutProperty(members, name), name) == None
  {
    if members != [] {
      DroppedNotFound(members[1..], name);
      if !(members[0].Property? && members[0].name.Written() == name) {
        assert ([members[0]] + WithoutProperty(members[1..], name))[1..] == WithoutProperty(members[1..], name);
      } else {
        assert [] + WithoutProperty(members[1..], name) == WithoutProperty(members[1..], name);
      }
    }
  }

  lemma {:induction false} AnnotatedFound(members: seq<Signature>, name: string, t: Type)
    requires FindProperty(BySource, members, name).Some?
    ensures FindProperty(BySource, WithAnnotation(members, name, t), name).Some?
    ensures FindProperty(BySource, WithAnnotation(members, name, t), name).value.Property?
    ensures FindProperty(BySource, WithAnnotation(members, name, t), name).value.annotation == Some(t)
  {
    if !(members[0].Property? && members[0].name.Written() == name) {
      AnnotatedFound(members[1..], name, t);
      assert ([members[0]] + WithAnnotation(members[1..], name, t))[1..] == WithAnnotation(members[1..], name, t);
    }
  }

  lemma GoneMissing(w: World, file: string, t: Type, r: seq<Step>, seen: Seen, fuel: nat)
    requires t.Literal? && |r| == 1 && r[0].Member? && fuel > 0
    ensures LookupType(Shared, w, file, Drop(t, r), r, seen, fuel) == Done(Missing, seen)
  {
    DroppedNotFound(t.members, r[0].name);
  }

  /** Below the first step, the type without the member is the member's type without what is below it. */
  lemma DroppedInside(w: World, file: string, t: Type, r: seq<Step>, inner: Type, seen: Seen, fuel: nat)
    requires t.Literal? && |r| > 1 && r[0].Member? && fuel > 0
    requires var p := FindProperty(BySource, t.members, r[0].name);
             p.Some? && p.value.Property? && p.value.annotation == Some(inner)
    ensures LookupType(Shared, w, file, Drop(t, r), r, seen, fuel) ==
              LookupType(Shared, w, file, Drop(inner, r[1..]), r[1..], seen, fuel - 1)
  {
    AnnotatedFound(t.members, r[0].name, Drop(inner, r[1..]));
  }

  lemma DroppedElement(w: World, file: string, t: Type, r: seq<Step>, seen: Seen, fuel: nat)
    requires t.ArrayOf? && r != [] && r[0].Element? && fuel > 0
    ensures LookupType(Shared, w, file, Drop(t, r), r, seen, fuel) ==
              LookupType(Shared, w, file, Drop(t.element, r[1..]), r[1..], seen, fuel - 1)
  {}

  /** The member a spelled path goes through. */
  lemma SpelledMember(props: seq<Prop>, t: Type, r: seq<Step>, names: set<string>) returns (i: nat)
    requires Mirrors(Object(props), t) && WellKeyed(Object(props)) && Unmistaken(Object(props), t, names) &&
             Spelled(Object(props), t, r)
    requires r != [] && r in ValueSteps(Object(props)) && StepNames(r) <= names
    ensures t.Literal? && r[0].Member? && i < |props| == |t.members| && PropMirrored(props[i], t.members[i])
    ensures FindProperty(BySource, t.members, r[0].name) == Some(t.members[i])
    ensures var inner := t.members[i].annotation.value;
            && Mirrors(props[i].value, inner) && WellKeyed(props[i].value) && Unmistaken(props[i].value, inner, names)
            && (|r| > 1 ==> Spelled(props[i].value, inner, r[1..]) && r[1..] in ValueSteps(props[i].value))
  {
    TailNames(r);
    var j := PropsPath(props, r);
    i := ObjectFinds(props, t.members, names, r[0].name);
    KeyedAt(props, i);
  }

  /** Each step of the path takes at most two levels of the lookup. */
  lemma {:induction false} DroppedMissing(w: World, file: string, value: Schema, t: Type, r: seq<Step>,
                                          names: set<string>, seen: Seen, fuel: nat)
    requires Mirrors(value, t) && WellKeyed(value) && Unmistaken(value, t, names) && Spelled(value, t, r)
    requires r in ValueSteps(value) && StepNames(r) <= names && fuel >= 2 * |r|
    ensures LookupType(Shared, w, file, Drop(t, r), r, seen, fuel) == Done(Missing, seen)
    decreases value
  {
    hide LookupType, LookupProperty, Drop, FindProperty, PropsKeyed, PropUnmistaken, PropOnPath, PropsSteps, StepNames;
    ValueStepsNonEmpty(value, r);
    TailNames(r);
    match value
    case Object(props) =>
      var i := SpelledMember(props, t, r, names);
      if |r| == 1 {
        GoneMissing(w, file, t, r, seen, fuel);
      } else {
        var inner := t.members[i].annotation.value;
        DroppedInside(w, file, t, r, inner, seen, fuel);
        DroppedMissing(w, file, props[i].value, inner, r[1..], names, seen, fuel - 1);
      }
    case ArraySchema(element) =>
      UnderMember(Element, ValueSteps(element), r);
      DroppedElement(w, file, t, r, seen, fuel);
      DroppedMissing(w, file, element, t.element, r[1..], names, seen, fuel - 1);
    case Refined(inner) => DroppedMissing(w, file, inner, t, r, names, seen, fuel);
    case _ =>
  }

  /** Once the declared type of an object schema loses the member of a printed key, looking the key up
      reports it missing; a key whose path is spelled otherwise was missing before. */
  lemma DroppedKeyNoticed(w: World, file: string, schema: Schema, t: Type, j: nat, seen: Seen, fuel: nat)
    requires IsObject(schema) && Mirrors(schema, t) && WellKeyed(schema) && j < |Visit(schema).keys|
    requires Unmistaken(schema, t, StepNames(StepsOf(Visit(schema).keys[j])))
    requires fuel >= 2 * |StepsOf(Visit(schema).keys[j])| && fuel >= Size(t)
    ensures var steps := StepsOf(Visit(schema).keys[j]);
            LookupType(Shared, w, file, if Spelled(schema, t, steps) then Drop(t, steps) else t, steps, seen, fuel) ==
                Done(Missing, seen)
  {
    var r := StepsOf(Visit(schema).keys[j]);
    PrintedReadsBack(schema, j);
    ObjectSteps(schema);
    assert r in TopSteps(schema);
    hide *;
    ValueLost(schema, t, r);
    AnswersExactly(w, file, schema, t, r, StepNames(r), seen, fuel);
    if Spelled(schema, t, r) { DroppedMissing(w, file, schema, t, r, StepNames(r), seen, fuel); }
  }
}
