/** The schema walk as the script runs it (`walkSchemaExpr`, scripts/gen-config-catalog.ts:498-595): two
    procedures that push onto one list of keys. */
module SchemaWalk {
  import opened Sequences
  import opened SchemaKeys

  class Walker {
    var keys: seq<string>
    /** No violation has been reported. */
    var clean: bool

    constructor ()
      ensures keys == [] && clean
    {
      keys, clean := [], true;
    }

    /** Lines 510-529. */
    method CollectValuePaths(value: Schema, base: string)
      modifies this
      ensures keys == old(keys) + SchemaKeys.CollectValuePaths(value, base) && clean == old(clean)
      decreases value
    {
      match value
      case Object(props) =>
        ghost var before := keys;
        assert props[0..] == props;
        for i := 0 to |props|
          invariant before + CollectProps(props, base) == keys + CollectProps(props[i..], base)
          invariant clean == old(clean)
        {
          ghost var now := keys;
          var path := base + "." + props[i].Key();
          keys := keys + [path];
          CollectValuePaths(props[i].value, path);
          PropsStep(props, i, base);
          Regroup(now, [path], SchemaKeys.CollectValuePaths(props[i].value, path), CollectProps(props[i + 1..], base));
        }
      case ArraySchema(element) => CollectValuePaths(element, base + "[]");
      case Refined(inner) => CollectValuePaths(inner, base);
      case _ =>
    }

    /** Lines 530-592. */
    method Visit(schema: Schema)
      modifies this
      ensures keys == old(keys) + SchemaKeys.Visit(schema).keys
      ensures clean <==> old(clean) && !Unseen(schema)
      decreases schema
    {
      hide Unseen;
      WalkableExactly(schema);
      match schema
      case Object(props) =>
        ghost var before := keys;
        assert props[0..] == props;
        for i := 0 to |props|
          invariant before + TopProps(props) == keys + TopProps(props[i..])
          invariant clean == old(clean)
        {
          ghost var now := keys;
          keys := keys + [props[i].Key()];
          CollectValuePaths(props[i].value, props[i].Key());
          TopStep(props, i);
          Regroup(now, [props[i].Key()], SchemaKeys.CollectValuePaths(props[i].value, props[i].Key()),
                  TopProps(props[i + 1..]));
        }
      case Intersect(parts) => VisitAll(parts);
      case OneOf(parts) => VisitAll(parts);
      case Refined(inner) =>
        WalkableExactly(inner);
        Visit(inner);
      case _ => clean := false;
    }

    /** The elements of an intersection or a union, in order. */
    method VisitAll(parts: seq<Schema>)
      modifies this
      ensures keys == old(keys) + VisitParts(parts).keys
      ensures clean <==> old(clean) && VisitParts(parts).walkable
      decreases parts
    {
      hide Unseen;
      ghost var before := keys;
      assert parts[0..] == parts;
      for i := 0 to |parts|
        invariant before + VisitParts(parts).keys == keys + VisitParts(parts[i..]).keys
        invariant (old(clean) && VisitParts(parts).walkable) == (clean && VisitParts(parts[i..]).walkable)
      {
        ghost var now := keys;
        Visit(parts[i]);
        WalkableExactly(parts[i]);
        PartsStep(parts, i);
        Associate(now, SchemaKeys.Visit(parts[i]).keys, VisitParts(parts[i + 1..]).keys);
      }
    }
  }

  lemma Regroup(a: seq<string>, b: seq<string>, c: seq<string>, d: seq<string>)
    ensures a + (b + c + d) == (a + b) + c + d
  {}

  lemma PropsStep(props: seq<Prop>, i: nat, base: string)
    requires i < |props|
    ensures var path := base + "." + props[i].Key();
            CollectProps(props[i..], base) ==
                [path] + SchemaKeys.CollectValuePaths(props[i].value, path) + CollectProps(props[i + 1..], base)
  {
    assert props[i..][1..] == props[i + 1..];
  }

  lemma TopStep(props: seq<Prop>, i: nat)
    requires i < |props|
    ensures TopProps(props[i..]) ==
            [props[i].Key()] + SchemaKeys.CollectValuePaths(props[i].value, props[i].Key()) + TopProps(props[i + 1..])
  {
    assert props[i..][1..] == props[i + 1..];
  }

  lemma PartsStep(parts: seq<Schema>, i: nat)
    requires i < |parts|
    ensures VisitParts(parts[i..]).keys == SchemaKeys.Visit(parts[i]).keys + VisitParts(parts[i + 1..]).keys
    ensures VisitParts(parts[i..]).walkable ==
              (SchemaKeys.Visit(parts[i]).walkable && VisitParts(parts[i + 1..]).walkable)
  {
    assert parts[i..][1..] == parts[i + 1..];
  }
}
