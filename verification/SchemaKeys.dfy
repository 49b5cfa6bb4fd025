/** The schema walk (`walkSchemaExpr`, scripts/gen-config-catalog.ts:498-595): the keys a schema prints are
    the paths of its members, in order. */
module SchemaKeys {
  import opened Sequences
  import opened ConfigTypes
  import opened KeyPaths

  /** Schema expressions, once wrappers and aliases are resolved. */
  datatype Schema =
    | Object(props: seq<Prop>)
    | ArraySchema(element: Schema)
    | Refined(inner: Schema)
    | Intersect(parts: seq<Schema>)
    | OneOf(parts: seq<Schema>)
    | Leaf

  /** A property assignment of a schema object. */
  datatype Prop = Prop(name: Name, value: Schema) {
    /** The key the walk prints (lines 517 and 556): a string literal's text, else what is written. */
    function Key(): string { if name.StringLiteral? then name.text else name.Written() }
  }

  // ----- The walk, in strings -----

  /** `collectValuePaths`: the paths below one property's value (lines 510-529). */
  function CollectValuePaths(value: Schema, base: string): seq<string> {
    match value
    case Object(props) => CollectProps(props, base)
    case ArraySchema(element) => CollectValuePaths(element, base + "[]")
    case Refined(inner) => CollectValuePaths(inner, base)
    case _ => []
  }

  function CollectProps(props: seq<Prop>, base: string): seq<string> {
    if props == [] then []
    else
      assert props[0].value < props[0];
      var path := base + "." + props[0].Key();
      [path] + CollectValuePaths(props[0].value, path) + CollectProps(props[1..], base)
  }

  /** The keys emitted and whether the whole expression could be walked. */
  datatype Walk = Walk(keys: seq<string>, walkable: bool)

  /** `visit` (lines 530-592). */
  function Visit(schema: Schema): Walk {
    match schema
    case Object(props) => Walk(TopProps(props), true)
    case Refined(inner) => Visit(inner)
    case Intersect(parts) => VisitParts(parts)
    case OneOf(parts) => VisitParts(parts)
    case ArraySchema(_) => Walk([], false)
    case Leaf => Walk([], false)
  }

  function TopProps(props: seq<Prop>): seq<string> {
    if props == [] then []
    else [props[0].Key()] + CollectValuePaths(props[0].value, props[0].Key()) + TopProps(props[1..])
  }

  function VisitParts(parts: seq<Schema>): Walk {
    if parts == [] then Walk([], true)
    else
      var first, rest := Visit(parts[0]), VisitParts(parts[1..]);
      Walk(first.keys + rest.keys, first.walkable && rest.walkable)
  }

  // ----- What cannot be walked -----

  /** A path of `n` steps through intersections, unions and refinements leads from the schema to `part`. */
  ghost predicate Within(schema: Schema, part: Schema, n: nat)
    decreases n
  {
    if n == 0 then part == schema
    else
      match schema
      case Refined(inner) => Within(inner, part, n - 1)
      case Intersect(parts) => exists i :: 0 <= i < |parts| && Within(parts[i], part, n - 1)
      case OneOf(parts) => exists i :: 0 <= i < |parts| && Within(parts[i], part, n - 1)
      case _ => false
  }

  /** Some such path ends where there are no keys to see: at an array, or at no schema object at all. */
  ghost predicate Unseen(schema: Schema) {
    exists part, n: nat :: Within(schema, part, n) && (part.ArraySchema? || part.Leaf?)
  }

  lemma UnseenInside(schema: Schema, inner: Schema)
    requires Unseen(inner)
    requires match schema
             case Refined(base) => inner == base
             case Intersect(parts) => inner in parts
             case OneOf(parts) => inner in parts
             case _ => false
    ensures Unseen(schema)
  {
    var part, n: nat :| Within(inner, part, n) && (part.ArraySchema? || part.Leaf?);
    assert Within(schema, part, n + 1);
  }

  /** The whole schema can be walked exactly if no path through it ends out of sight. */
  lemma {:induction false} WalkableExactly(schema: Schema)
    ensures Visit(schema).walkable <==> !Unseen(schema)
    decreases schema
  {
    match schema
    case Object(_) =>
    case Refined(inner) =>
      WalkableExactly(inner);
      if Unseen(inner) { UnseenInside(schema, inner); }
      if Unseen(schema) {
        var part, n: nat :| Within(schema, part, n) && (part.ArraySchema? || part.Leaf?);
        assert Within(inner, part, n - 1);
      }
    case Intersect(parts) =>
      PartsWalkable(parts);
      UnseenPart(schema, parts);
    case OneOf(parts) =>
      PartsWalkable(parts);
      UnseenPart(schema, parts);
    case ArraySchema(_) => assert Within(schema, schema, 0);
    case Leaf => assert Within(schema, schema, 0);
  }

  lemma UnseenPart(schema: Schema, parts: seq<Schema>)
    requires schema == Intersect(parts) || schema == OneOf(parts)
    ensures Unseen(schema) <==> exists i :: 0 <= i < |parts| && Unseen(parts[i])
  {
    if i :| 0 <= i < |parts| && Unseen(parts[i]) { UnseenInside(schema, parts[i]); }
    if Unseen(schema) {
      var part, n: nat :| Within(schema, part, n) && (part.ArraySchema? || part.Leaf?);
      var i :| 0 <= i < |parts| && Within(parts[i], part, n - 1);
      assert Unseen(parts[i]);
    }
  }

  lemma {:induction false} PartsWalkable(parts: seq<Schema>)
    ensures VisitParts(parts).walkable <==> forall i | 0 <= i < |parts| :: !Unseen(parts[i])
    decreases parts
  {
    hide Unseen;
    if parts != [] {
      WalkableExactly(parts[0]);
      PartsWalkable(parts[1..]);
      assert forall i | 0 < i < |parts| :: parts[i] == parts[1..][i - 1];
    }
  }

  // ----- The walk, in steps -----

  function Under(s: Step, rs: seq<seq<Step>>): seq<seq<Step>> {
    if rs == [] then [] else [[s] + rs[0]] + Under(s, rs[1..])
  }

  /** The members below a value, each by its steps from the value. */
  function ValueSteps(value: Schema): seq<seq<Step>> {
    match value
    case Object(props) => PropsSteps(props)
    case ArraySchema(element) => Under(Element, ValueSteps(element))
    case Refined(inner) => ValueSteps(inner)
    case _ => []
  }

  function PropsSteps(props: seq<Prop>): seq<seq<Step>> {
    if props == [] then []
    else
      assert props[0].value < props[0];
      [[Member(props[0].Key())]] + Under(Member(props[0].Key()), ValueSteps(props[0].value)) + PropsSteps(props[1..])
  }

  /** The members of a schema, each by its steps from the top. */
  function TopSteps(schema: Schema): seq<seq<Step>> {
    match schema
    case Object(props) => PropsSteps(props)
    case Refined(inner) => TopSteps(inner)
    case Intersect(parts) => PartsSteps(parts)
    case OneOf(parts) => PartsSteps(parts)
    case _ => []
  }

  function PartsSteps(parts: seq<Schema>): seq<seq<Step>> {
    if parts == [] then [] else TopSteps(parts[0]) + PartsSteps(parts[1..])
  }

  /** The strings for steps below `base`. */
  function Below(base: string, rs: seq<seq<Step>>): seq<string> {
    if rs == [] then [] else [base + Render(rs[0])] + Below(base, rs[1..])
  }

  ghost predicate Headed(rs: seq<seq<Step>>) {
    forall i | 0 <= i < |rs| :: rs[i] != [] && rs[i][0].Member?
  }

  /** The strings for steps from the top. */
  function Tops(rs: seq<seq<Step>>): seq<string>
    requires Headed(rs)
  {
    if rs == [] then [] else [PathString(rs[0][0].name, rs[0][1..])] + Tops(rs[1..])
  }

  lemma {:induction false} RenderConcat(a: seq<Step>, b: seq<Step>)
    ensures Render(a + b) == Render(a) + Render(b)
  {
    if b == [] {
      assert a + b == a;
    } else {
      RenderConcat(a, b[..|b| - 1]);
      assert (a + b)[..|a + b| - 1] == a + b[..|b| - 1];
      Associate(Render(a), Render(b[..|b| - 1]), RenderStep(b[|b| - 1]));
    }
  }

  lemma RenderOne(s: Step)
    ensures Render([s]) == RenderStep(s)
  {
    assert [s][..0] == [];
  }

  lemma {:induction false} BelowConcat(base: string, a: seq<seq<Step>>, b: seq<seq<Step>>)
    ensures Below(base, a + b) == Below(base, a) + Below(base, b)
  {
    if a == [] {
      assert a + b == b;
    } else {
      assert (a + b)[1..] == a[1..] + b;
      BelowConcat(base, a[1..], b);
    }
  }

  lemma {:induction false} BelowUnder(base: string, s: Step, rs: seq<seq<Step>>)
    ensures Below(base, Under(s, rs)) == Below(base + RenderStep(s), rs)
  {
    if rs != [] {
      RenderConcat([s], rs[0]);
      RenderOne(s);
      assert base + (RenderStep(s) + Render(rs[0])) == base + RenderStep(s) + Render(rs[0]);
      BelowUnder(base, s, rs[1..]);
    }
  }

  /** The walk below a value writes out its members in order. */
  lemma {:induction false} CollectWrites(value: Schema, base: string)
    ensures CollectValuePaths(value, base) == Below(base, ValueSteps(value))
    decreases value, 1
  {
    match value
    case Object(props) => CollectPropsWrites(props, base);
    case ArraySchema(element) =>
      CollectWrites(element, base + "[]");
      BelowUnder(base, Element, ValueSteps(element));
    case Refined(inner) => CollectWrites(inner, base);
    case _ =>
  }

  lemma {:induction false} CollectPropsWrites(props: seq<Prop>, base: string)
    ensures CollectProps(props, base) == Below(base, PropsSteps(props))
    decreases props, 0
  {
    if props != [] {
      var k, rs := Member(props[0].Key()), ValueSteps(props[0].value);
      assert base + RenderStep(k) == base + "." + props[0].Key();
      assert props[0].value < props[0];
      CollectWrites(props[0].value, base + "." + props[0].Key());
      CollectPropsWrites(props[1..], base);
      BelowUnder(base, k, rs);
      RenderOne(k);
      BelowConcat(base, [[k]] + Under(k, rs), PropsSteps(props[1..]));
      BelowConcat(base, [[k]], Under(k, rs));
      assert [[k]][1..] == [];
    }
  }

  lemma {:induction false} UnderHeaded(k: string, rs: seq<seq<Step>>)
    ensures Headed(Under(Member(k), rs)) && Tops(Under(Member(k), rs)) == Below(k, rs)
  {
    if rs != [] { UnderHeaded(k, rs[1..]); }
  }

  lemma {:induction false} TopsConcat(a: seq<seq<Step>>, b: seq<seq<Step>>)
    requires Headed(a) && Headed(b)
    ensures Headed(a + b) && Tops(a + b) == Tops(a) + Tops(b)
  {
    if a == [] {
      assert a + b == b;
    } else {
      assert (a + b)[1..] == a[1..] + b;
      TopsConcat(a[1..], b);
    }
  }

  lemma {:induction false} TopPropsWrites(props: seq<Prop>)
    ensures Headed(PropsSteps(props)) && TopProps(props) == Tops(PropsSteps(props))
  {
    if props != [] {
      var key, rs := props[0].Key(), ValueSteps(props[0].value);
      CollectWrites(props[0].value, key);
      UnderHeaded(key, rs);
      TopPropsWrites(props[1..]);
      assert [[Member(key)]][1..] == [] && [Member(key)][1..] == [] && key + Render([]) == key;
      TopsConcat([[Member(key)]], Under(Member(key), rs));
      TopsConcat([[Member(key)]] + Under(Member(key), rs), PropsSteps(props[1..]));
    }
  }

  /** The walk writes out the members of a schema in order. */
  lemma {:induction false} VisitWrites(schema: Schema)
    ensures Headed(TopSteps(schema)) && Visit(schema).keys == Tops(TopSteps(schema))
    decreases schema, 1
  {
    match schema
    case Object(props) => TopPropsWrites(props);
    case Refined(inner) => VisitWrites(inner);
    case Intersect(parts) => VisitPartsWrites(parts);
    case OneOf(parts) => VisitPartsWrites(parts);
    case _ =>
  }

  lemma {:induction false} VisitPartsWrites(parts: seq<Schema>)
    ensures Headed(PartsSteps(parts)) && VisitParts(parts).keys == Tops(PartsSteps(parts))
    decreases parts, 0
  {
    if parts != [] {
      VisitWrites(parts[0]);
      VisitPartsWrites(parts[1..]);
      TopsConcat(TopSteps(parts[0]), PartsSteps(parts[1..]));
    }
  }
}
