/** Lifting one schema out of a document: every schema it reaches is copied under `$defs` and
    the references are rewritten, so that the result stands alone. */
module SchemaClosure {
  import opened Wrappers
  import opened Json
  import opened Sets

  const COMPONENTS: string := "#/components/schemas/"
  const DEFS: string := "#/$defs/"
  const REF: string := "$ref"
  const DEFS_KEY: string := "$defs"

  function StripPrefix(s: string, prefix: string): Option<string> {
    if prefix <= s then Some(s[|prefix|..]) else None
  }

  /** The name an object refers to directly, with the given prefix. */
  function RefName(fields: map<string, Json>, prefix: string): Option<string> {
    if REF in fields && fields[REF].Str? then StripPrefix(fields[REF].s, prefix) else None
  }

  /** The name an object refers to itself, as a set. */
  function OwnRef(fields: map<string, Json>, prefix: string): set<string> {
    var r := RefName(fields, prefix);
    if r.Some? then {r.value} else {}
  }

  /** Every name referred to with the prefix, anywhere in the value. With the prefix of the
      document's components this is the source's `collect_refs`. */
  function Refs(v: Json, prefix: string): set<string> {
    match v
    case Obj(fields) => OwnRef(fields, prefix) + (set k, n | k in fields && n in Refs(fields[k], prefix) :: n)
    case Arr(items) => set i, n | 0 <= i < |items| && n in Refs(items[i], prefix) :: n
    case _ => {}
  }

  function Rewrite(v: Json): Json {
    match v
    case Obj(fields) =>
      var r := RefName(fields, COMPONENTS);
      Obj(map k | k in fields :: if k == REF && r.Some? then Str(DEFS + r.value) else Rewrite(fields[k]))
    case Arr(items) => Arr(seq(|items|, i requires 0 <= i < |items| => Rewrite(items[i])))
    case _ => v
  }

  // ---------- What a schema means ----------

  /** A schema with its references followed. A reference is a property of the object that
      holds it, beside the object's other fields. */
  datatype Tree =
    | Leaf(v: Json)
    | List(items: seq<Tree>)
    | Node(target: Target, fields: map<string, Tree>)

  datatype Target =
    | NoRef
    | Cut(name: string)
    | Missing(name: string)
    | To(tree: Tree)

  /** Follows references `n` levels deep, looking names up in `defs`. */
  function Unfold(n: nat, v: Json, prefix: string, defs: map<string, Json>): Tree
    decreases n, v
  {
    match v
    case Obj(fields) =>
      var r := RefName(fields, prefix);
      Node(
        if r.None? then NoRef
        else if n == 0 then Cut(r.value)
        else if r.value in defs then To(Unfold(n - 1, defs[r.value], prefix, defs))
        else Missing(r.value),
        map k | k in fields && (k != REF || r.None?) :: Unfold(n, fields[k], prefix, defs))
    case Arr(items) => List(seq(|items|, i requires 0 <= i < |items| => Unfold(n, items[i], prefix, defs)))
    case _ => Leaf(v)
  }

  /** The schema without the definitions it carries. */
  function Body(v: Json): Json {
    if v.Obj? then Obj(v.fields - {DEFS_KEY}) else v
  }

  function OwnDefs(v: Json): map<string, Json> {
    if v.Obj? && DEFS_KEY in v.fields && v.fields[DEFS_KEY].Obj? then v.fields[DEFS_KEY].fields else map[]
  }

  // ---------- Which names a schema reaches ----------

  /** A chain of references: each name is referred to by the schema the one before it names. */
  ghost predicate Chain(p: seq<string>, v: Json, components: map<string, Json>)
    decreases |p|
  {
    && p != [] && p[0] in Refs(v, COMPONENTS)
    && (|p| > 1 ==> p[0] in components && Chain(p[1..], components[p[0]], components))
  }

  ghost predicate Reachable(name: string, v: Json, components: map<string, Json>) {
    exists p :: Chain(p, v, components) && p[|p| - 1] == name
  }

  /** `names` is all that `v` reaches. */
  ghost predicate IsNeeded(names: set<string>, v: Json, components: map<string, Json>) {
    forall name :: name in names <==> Reachable(name, v, components)
  }

  // ---------- The result ----------

  function Assemble(schema: Json, components: map<string, Json>, needed: set<string>): Json {
    var defs := map name | name in needed && name in components :: Rewrite(components[name]);
    var r := Rewrite(schema);
    if defs != map[] && r.Obj? then Obj(r.fields[DEFS_KEY := Obj(defs)]) else r
  }

  lemma {:induction false} ChainExtends(p: seq<string>, v: Json, components: map<string, Json>, name: string)
    requires Chain(p, v, components) && p[|p| - 1] in components
    requires name in Refs(components[p[|p| - 1]], COMPONENTS)
    ensures Chain(p + [name], v, components)
    decreases |p|
  {
    if |p| == 1 {
      assert (p + [name])[1..] == [name];
    } else {
      ChainExtends(p[1..], components[p[0]], components, name);
      assert (p + [name])[1..] == p[1..] + [name];
    }
  }

  /** Every set that holds the direct references and is closed under references holds all
      that is reachable. */
  lemma {:induction false} ClosedSetHoldsChain(p: seq<string>, v: Json, components: map<string, Json>,
                                               names: set<string>)
    requires Chain(p, v, components) && Refs(v, COMPONENTS) <= names
    requires forall n :: n in names && n in components ==> Refs(components[n], COMPONENTS) <= names
    ensures forall i :: 0 <= i < |p| ==> p[i] in names
    decreases |p|
  {
    if |p| > 1 {
      ClosedSetHoldsChain(p[1..], components[p[0]], components, names);
      assert forall i :: 0 < i < |p| ==> p[i] == p[1..][i - 1];
    }
  }

  ghost function AllRefs(components: map<string, Json>): set<string> {
    set k, n | k in components && n in Refs(components[k], COMPONENTS) :: n
  }

  /** Adds the names not seen before to both the set and the stack. */
  method Discover(more: set<string>, needed: set<string>, frontier: seq<string>)
    returns (needed': set<string>, frontier': seq<string>)
    ensures needed' == needed + more
    ensures forall n :: n in frontier' ==> n in frontier || n in more
    ensures forall n :: n in frontier || n in more - needed ==> n in frontier'
    ensures needed' == needed ==> frontier' == frontier
  {
    needed', frontier' := needed, frontier;
    var rest := more;
    while rest != {}
      invariant rest <= more && needed' == needed + (more - rest)
      invariant forall n :: n in frontier' ==> n in frontier || n in more
      invariant forall n :: n in frontier || n in more - rest - needed ==> n in frontier'
      invariant needed' == needed ==> frontier' == frontier
      decreases |rest|
    {
      var m :| m in rest;
      rest := rest - {m};
      if m !in needed' {
        needed' := needed' + {m};
        frontier' := frontier' + [m];
      }
    }
  }

  /** What the loop knows: every name found is reachable, and the references of every name
      taken off the stack have been found. */
  ghost predicate Explored(schema: Json, components: map<string, Json>, needed: set<string>, frontier: seq<string>) {
    && Refs(schema, COMPONENTS) <= needed <= Refs(schema, COMPONENTS) + AllRefs(components)
    && (forall n :: n in frontier ==> n in needed)
    && (forall n :: n in needed ==> Reachable(n, schema, components))
    && (forall n :: n in needed && n in components && n !in frontier ==> Refs(components[n], COMPONENTS) <= needed)
  }

  lemma StartExplored(schema: Json, components: map<string, Json>, frontier: seq<string>)
    requires forall n :: n in frontier <==> n in Refs(schema, COMPONENTS)
    ensures Explored(schema, components, Refs(schema, COMPONENTS), frontier)
  {
    forall n | n in Refs(schema, COMPONENTS)
      ensures Reachable(n, schema, components)
    {
      assert Chain([n], schema, components) && [n][|[n]| - 1] == n;
    }
  }

  lemma StepExplored(schema: Json, components: map<string, Json>, needed: set<string>, frontier: seq<string>,
                     name: string, rest: seq<string>, needed': set<string>, frontier': seq<string>)
    requires Explored(schema, components, needed, frontier)
    requires frontier == rest + [name] && name in components
    requires needed' == needed + Refs(components[name], COMPONENTS)
    requires forall n :: n in frontier' ==> n in rest || n in Refs(components[name], COMPONENTS)
    requires forall n :: n in rest || n in Refs(components[name], COMPONENTS) - needed ==> n in frontier'
    ensures Explored(schema, components, needed', frontier')
  {
    hide Refs, Chain, Reachable;
    assert name in frontier && Reachable(name, schema, components);
    StepReachable(schema, components, name);
  }

  lemma StepReachable(schema: Json, components: map<string, Json>, name: string)
    requires Reachable(name, schema, components) && name in components
    ensures forall m :: m in Refs(components[name], COMPONENTS) ==> Reachable(m, schema, components)
  {
    var p :| Chain(p, schema, components) && p[|p| - 1] == name;
    forall m | m in Refs(components[name], COMPONENTS)
      ensures Reachable(m, schema, components)
    {
      ChainExtends(p, schema, components, m);
      assert (p + [m])[|p + [m]| - 1] == m;
    }
  }

  lemma ExploredIsNeeded(schema: Json, components: map<string, Json>, needed: set<string>)
    requires Explored(schema, components, needed, [])
    ensures IsNeeded(needed, schema, components)
  {
    forall n | Reachable(n, schema, components)
      ensures n in needed
    {
      var p :| Chain(p, schema, components) && p[|p| - 1] == n;
      ClosedSetHoldsChain(p, schema, components, needed);
    }
  }

  lemma SkipExplored(schema: Json, components: map<string, Json>, needed: set<string>, frontier: seq<string>,
                     name: string, rest: seq<string>)
    requires Explored(schema, components, needed, frontier)
    requires frontier == rest + [name] && name !in components
    ensures Explored(schema, components, needed, rest)
  {
  }

  lemma Progress(schema: Json, components: map<string, Json>, before: set<string>, needed: set<string>,
                 frontier: seq<string>)
    requires before <= needed && Explored(schema, components, needed, frontier)
    ensures var universe := Refs(schema, COMPONENTS) + AllRefs(components);
            before == needed || |universe - needed| < |universe - before|
  {
    hide Chain, Reachable, Refs, AllRefs;
    Remaining(Refs(schema, COMPONENTS) + AllRefs(components), before, needed);
  }

  // ---------- The closed schema means the same ----------

  /** What rewriting does to the reference an object holds. */
  lemma RewrittenRef(fields: map<string, Json>)
    ensures var w := Rewrite(Obj(fields)).fields;
            var r := RefName(fields, COMPONENTS);
            && w.Keys == fields.Keys
            && RefName(w, COMPONENTS) == None
            && RefName(w, DEFS) == (if r.Some? then r else RefName(fields, DEFS))
            && (r.Some? ==> RefName(fields, DEFS) == None)
  {
    var w := Rewrite(Obj(fields)).fields;
    var r := RefName(fields, COMPONENTS);
    if REF in fields && fields[REF].Str? {
      var s := fields[REF].s;
      assert COMPONENTS[2] != DEFS[2];
      if r.Some? {
        assert (DEFS + r.value)[|DEFS|..] == r.value;
        assert s[2] == COMPONENTS[2] && (DEFS + r.value)[2] == DEFS[2];
      }
    }
  }

  /** Within `n` levels something is met that reads differently after the rewriting: a
      reference that already pointed into `$defs`, or a name only one side defines. */
  ghost predicate Differs(n: nat, v: Json, components: map<string, Json>, own: map<string, Json>)
    decreases n, v
  {
    match v
    case Obj(fields) =>
      var r := RefName(fields, COMPONENTS);
      || RefName(fields, DEFS).Some?
      || (r.Some? && n > 0 && (r.value in components) != (r.value in own))
      || (r.Some? && n > 0 && r.value in components && Differs(n - 1, components[r.value], components, own))
      || exists k :: k in fields && Differs(n, fields[k], components, own)
    case Arr(items) => exists i :: 0 <= i < |items| && Differs(n, items[i], components, own)
    case _ => false
  }

  /** `own` defines each reached component as its rewritten self, if it defines it at all. */
  ghost predicate Agrees(names: set<string>, components: map<string, Json>, own: map<string, Json>) {
    && (forall name :: name in names && name in components ==> Refs(components[name], COMPONENTS) <= names)
    && (forall name :: name in names && name in components && name in own ==>
         own[name] == Rewrite(components[name]))
  }

  lemma FieldsRefer(fields: map<string, Json>, prefix: string)
    ensures forall k :: k in fields ==> Refs(fields[k], prefix) <= Refs(Obj(fields), prefix)
    ensures OwnRef(fields, prefix) <= Refs(Obj(fields), prefix)
  {
  }

  lemma ItemsRefer(items: seq<Json>, prefix: string)
    ensures forall i :: 0 <= i < |items| ==> Refs(items[i], prefix) <= Refs(Arr(items), prefix)
  {
  }

  lemma {:induction false} SameUnlessDiffers(n: nat, v: Json, components: map<string, Json>, own: map<string, Json>,
                                             names: set<string>)
    requires Agrees(names, components, own) && Refs(v, COMPONENTS) <= names
    ensures Unfold(n, Rewrite(v), DEFS, own) == Unfold(n, v, COMPONENTS, components)
            <==> !Differs(n, v, components, own)
    decreases n, v
  {
    match v
    case Obj(fields) =>
      FieldsRefer(fields, COMPONENTS);
      hide Unfold, Rewrite, Differs, Refs;
      forall k | k in fields
        ensures Unfold(n, Rewrite(fields[k]), DEFS, own) == Unfold(n, fields[k], COMPONENTS, components)
                <==> !Differs(n, fields[k], components, own)
      {
        SameUnlessDiffers(n, fields[k], components, own, names);
      }
      var r := RefName(fields, COMPONENTS);
      if r.Some? && n > 0 && r.value in components && r.value in own {
        SameUnlessDiffers(n - 1, components[r.value], components, own, names);
      }
      SameObject(n, fields, components, own);
    case Arr(items) =>
      ItemsRefer(items, COMPONENTS);
      hide Unfold, Rewrite, Differs, Refs;
      forall i | 0 <= i < |items|
        ensures Unfold(n, Rewrite(items[i]), DEFS, own) == Unfold(n, items[i], COMPONENTS, components)
                <==> !Differs(n, items[i], components, own)
      {
        SameUnlessDiffers(n, items[i], components, own, names);
      }
      SameArray(n, items, components, own);
      ArrayDiffers(n, items, components, own);
    case _ =>
  }

  lemma ArrayDiffers(n: nat, items: seq<Json>, components: map<string, Json>, own: map<string, Json>)
    ensures Differs(n, Arr(items), components, own) <==>
      exists i :: 0 <= i < |items| && Differs(n, items[i], components, own)
  {
  }

  lemma SameArray(n: nat, items: seq<Json>, components: map<string, Json>, own: map<string, Json>)
    ensures Unfold(n, Rewrite(Arr(items)), DEFS, own) == Unfold(n, Arr(items), COMPONENTS, components)
      <==> forall i :: 0 <= i < |items| ==>
             Unfold(n, Rewrite(items[i]), DEFS, own) == Unfold(n, items[i], COMPONENTS, components)
  {
    var a := Unfold(n, Rewrite(Arr(items)), DEFS, own).items;
    var b := Unfold(n, Arr(items), COMPONENTS, components).items;
    assert forall i :: 0 <= i < |items| ==>
      a[i] == Unfold(n, Rewrite(items[i]), DEFS, own) && b[i] == Unfold(n, items[i], COMPONENTS, components);
  }

  /** Whether the reference of an object itself reads differently. */
  ghost predicate RefReadsDifferently(n: nat, fields: map<string, Json>, components: map<string, Json>,
                                      own: map<string, Json>)
  {
    var r := RefName(fields, COMPONENTS);
    || RefName(fields, DEFS).Some?
    || (r.Some? && n > 0 && (r.value in components) != (r.value in own))
    || (r.Some? && n > 0 && r.value in components && Differs(n - 1, components[r.value], components, own))
  }

  lemma SameTarget(n: nat, fields: map<string, Json>, components: map<string, Json>, own: map<string, Json>)
    requires var r := RefName(fields, COMPONENTS);
      r.Some? && n > 0 && r.value in components && r.value in own ==>
        (Unfold(n - 1, own[r.value], DEFS, own) == Unfold(n - 1, components[r.value], COMPONENTS, components))
        == !Differs(n - 1, components[r.value], components, own)
    ensures Unfold(n, Rewrite(Obj(fields)), DEFS, own).target == Unfold(n, Obj(fields), COMPONENTS, components).target
            <==> !RefReadsDifferently(n, fields, components, own)
  {
    RewrittenRef(fields);
    assert Rewrite(Obj(fields)).Obj?;
    hide Rewrite, Differs;
  }

  lemma SameFields(n: nat, fields: map<string, Json>, components: map<string, Json>, own: map<string, Json>)
    requires RefName(fields, DEFS).None?
    ensures Unfold(n, Rewrite(Obj(fields)), DEFS, own).fields == Unfold(n, Obj(fields), COMPONENTS, components).fields
      <==> forall k :: k in fields && (k != REF || RefName(fields, COMPONENTS).None?) ==>
             Unfold(n, Rewrite(fields[k]), DEFS, own) == Unfold(n, fields[k], COMPONENTS, components)
  {
    RewrittenRef(fields);
    var a := Unfold(n, Rewrite(Obj(fields)), DEFS, own).fields;
    var b := Unfold(n, Obj(fields), COMPONENTS, components).fields;
    assert a.Keys == b.Keys;
    forall k | k in b
      ensures a[k] == Unfold(n, Rewrite(fields[k]), DEFS, own)
      ensures b[k] == Unfold(n, fields[k], COMPONENTS, components)
    {
      assert Rewrite(Obj(fields)).fields[k] == Rewrite(fields[k]);
    }
    assert forall k :: k in b <==> k in fields && (k != REF || RefName(fields, COMPONENTS).None?);
    hide Unfold, Rewrite;
    MapsEqual(a, b);
  }

  lemma MapsEqual<K, V>(a: map<K, V>, b: map<K, V>)
    requires a.Keys == b.Keys
    ensures a == b <==> forall k :: k in b ==> a[k] == b[k]
  {
  }

  lemma SameObject(n: nat, fields: map<string, Json>, components: map<string, Json>, own: map<string, Json>)
    requires var r := RefName(fields, COMPONENTS);
      r.Some? && n > 0 && r.value in components && r.value in own ==>
        (Unfold(n - 1, own[r.value], DEFS, own) == Unfold(n - 1, components[r.value], COMPONENTS, components))
        == !Differs(n - 1, components[r.value], components, own)
    requires forall k :: k in fields ==>
      (Unfold(n, Rewrite(fields[k]), DEFS, own) == Unfold(n, fields[k], COMPONENTS, components))
      == !Differs(n, fields[k], components, own)
    ensures Unfold(n, Rewrite(Obj(fields)), DEFS, own) == Unfold(n, Obj(fields), COMPONENTS, components)
            <==> !Differs(n, Obj(fields), components, own)
  {
    var a := Unfold(n, Rewrite(Obj(fields)), DEFS, own);
    var b := Unfold(n, Obj(fields), COMPONENTS, components);
    assert a.Node? && b.Node?;
    assert RefName(fields, COMPONENTS).Some? ==> !Differs(n, fields[REF], components, own);
    assert Differs(n, Obj(fields), components, own) <==>
      RefReadsDifferently(n, fields, components, own)
      || exists k :: k in fields && Differs(n, fields[k], components, own);
    hide Unfold, Rewrite, Differs;
    SameTarget(n, fields, components, own);
    if RefName(fields, DEFS).None? {
      SameFields(n, fields, components, own);
    }
  }

  /** No reference points into `$defs` already. */
  ghost predicate LocalRefFree(v: Json) {
    Refs(v, DEFS) == {}
  }

  lemma {:induction false} LocalRefDiffers(n: nat, v: Json, components: map<string, Json>, own: map<string, Json>)
    requires !LocalRefFree(v)
    ensures Differs(n, v, components, own)
    decreases v
  {
    match v
    case Obj(fields) =>
      if RefName(fields, DEFS).None? {
        var k :| k in fields && !LocalRefFree(fields[k]);
        LocalRefDiffers(n, fields[k], components, own);
      }
    case Arr(items) =>
      var i :| 0 <= i < |items| && !LocalRefFree(items[i]);
      LocalRefDiffers(n, items[i], components, own);
  }

  /** A difference behind a direct reference shows one level further up. */
  lemma {:induction false} RefDiffers(n: nat, v: Json, name: string, components: map<string, Json>,
                                      own: map<string, Json>)
    requires n > 0 && name in Refs(v, COMPONENTS)
    requires (name in components) != (name in own)
          || (name in components && Differs(n - 1, components[name], components, own))
    ensures Differs(n, v, components, own)
    decreases v
  {
    match v
    case Obj(fields) =>
      if RefName(fields, COMPONENTS) != Some(name) {
        var k :| k in fields && name in Refs(fields[k], COMPONENTS);
        RefDiffers(n, fields[k], name, components, own);
      }
    case Arr(items) =>
      var i :| 0 <= i < |items| && name in Refs(items[i], COMPONENTS);
      RefDiffers(n, items[i], name, components, own);
  }

  /** A reached name that reads differently shows as many levels up as the chain is long. */
  lemma {:induction false} ChainDiffers(p: seq<string>, v: Json, components: map<string, Json>, own: map<string, Json>)
    requires Chain(p, v, components)
    requires var name := p[|p| - 1];
      (name in components) != (name in own) || (name in components && !LocalRefFree(components[name]))
    ensures Differs(|p|, v, components, own)
    decreases |p|
  {
    if |p| > 1 {
      ChainDiffers(p[1..], components[p[0]], components, own);
    } else if p[0] in components && !LocalRefFree(components[p[0]]) {
      LocalRefDiffers(0, components[p[0]], components, own);
    }
    RefDiffers(|p|, v, p[0], components, own);
  }

  lemma {:induction false} NeverDiffers(n: nat, v: Json, components: map<string, Json>, own: map<string, Json>,
                                        names: set<string>)
    requires LocalRefFree(v) && Refs(v, COMPONENTS) <= names && Agrees(names, components, own)
    requires forall name :: name in names ==> (name in components <==> name in own)
    requires forall name :: name in names && name in components ==> LocalRefFree(components[name])
    ensures !Differs(n, v, components, own)
    decreases n, v
  {
    match v
    case Obj(fields) =>
      var r := RefName(fields, COMPONENTS);
      if r.Some? && n > 0 && r.value in components {
        NeverDiffers(n - 1, components[r.value], components, own, names);
      }
      forall k | k in fields
        ensures !Differs(n, fields[k], components, own)
      {
        NeverDiffers(n, fields[k], components, own, names);
      }
    case Arr(items) =>
      forall i | 0 <= i < |items|
        ensures !Differs(n, items[i], components, own)
      {
        NeverDiffers(n, items[i], components, own, names);
      }
    case _ =>
  }

  // ---------- When closing keeps the meaning ----------

  /** Whether the schema reaches anything the document defines. */
  ghost predicate ReachesDefinition(v: Json, components: map<string, Json>) {
    exists name :: Reachable(name, v, components) && name in components
  }

  /** What a caller has to check: no reference points into `$defs` yet, in the schema or in
      what it reaches; a schema that reaches a definition is an object, which can carry it; and
      a name the document does not define is not caught by definitions the schema brought. */
  ghost predicate Closable(schema: Json, components: map<string, Json>) {
    && LocalRefFree(Body(schema))
    && (forall name :: Reachable(name, Body(schema), components) ==>
         if name in components then schema.Obj? && LocalRefFree(components[name])
         else ReachesDefinition(schema, components) || name !in OwnDefs(schema))
  }

  lemma BodyReaches(schema: Json, components: map<string, Json>, name: string)
    requires Reachable(name, Body(schema), components)
    ensures Reachable(name, schema, components)
  {
    var p :| Chain(p, Body(schema), components) && p[|p| - 1] == name;
    if schema.Obj? {
      var fields := schema.fields;
      assert RefName(fields - {DEFS_KEY}, COMPONENTS) == RefName(fields, COMPONENTS);
      assert Refs(Body(schema), COMPONENTS) <= Refs(schema, COMPONENTS);
    }
    assert Chain(p, schema, components);
  }

  /** The names reached from the body, as a set, and closed under references. */
  lemma BodyNames(schema: Json, components: map<string, Json>, needed: set<string>) returns (names: set<string>)
    requires IsNeeded(needed, schema, components)
    ensures names <= needed && IsNeeded(names, Body(schema), components)
    ensures Refs(Body(schema), COMPONENTS) <= names
    ensures forall name :: name in names && name in components ==> Refs(components[name], COMPONENTS) <= names
  {
    names := set n | n in needed && Reachable(n, Body(schema), components);
    forall n | Reachable(n, Body(schema), components)
      ensures n in names
    {
      BodyReaches(schema, components, n);
    }
    forall n | n in Refs(Body(schema), COMPONENTS)
      ensures n in names
    {
      assert Chain([n], Body(schema), components) && [n][|[n]| - 1] == n;
    }
    forall name | name in names && name in components
      ensures Refs(components[name], COMPONENTS) <= names
    {
      StepReachable(Body(schema), components, name);
    }
  }

  lemma RewriteBody(schema: Json, components: map<string, Json>, needed: set<string>)
    ensures Body(Assemble(schema, components, needed)) == Rewrite(Body(schema))
  {
    if schema.Obj? {
      var fields := schema.fields;
      assert RefName(fields - {DEFS_KEY}, COMPONENTS) == RefName(fields, COMPONENTS);
      assert Rewrite(schema).fields - {DEFS_KEY} == Rewrite(Obj(fields - {DEFS_KEY})).fields;
      var closed := Assemble(schema, components, needed);
      assert closed.fields - {DEFS_KEY} == Rewrite(schema).fields - {DEFS_KEY};
    }
  }

  /** `$defs` of the result: exactly the reached names the document defines, rewritten. When
      there are none, whatever the schema brought is left there. */
  lemma DefsOfResult(schema: Json, components: map<string, Json>, needed: set<string>)
    ensures var own := OwnDefs(Assemble(schema, components, needed));
      if !schema.Obj? then own == map[]
      else if exists n :: n in needed && n in components then
        own == map n | n in needed && n in components :: Rewrite(components[n])
      else own.Keys == OwnDefs(schema).Keys
  {
    var defs := map n | n in needed && n in components :: Rewrite(components[n]);
    if schema.Obj? {
      if n :| n in needed && n in components {
        assert n in defs;
      } else {
        assert defs == map[];
        assert |REF| != |DEFS_KEY|;
        assert Assemble(schema, components, needed) == Rewrite(schema);
        if DEFS_KEY in schema.fields {
          assert Rewrite(schema).fields[DEFS_KEY] == Rewrite(schema.fields[DEFS_KEY]);
          if schema.fields[DEFS_KEY].Obj? {
            RewrittenRef(schema.fields[DEFS_KEY].fields);
          }
        }
      }
    }
  }

  /** How the definitions the result carries compare with the document's. */
  lemma OwnDefsAgree(schema: Json, components: map<string, Json>, needed: set<string>, names: set<string>)
    requires IsNeeded(needed, schema, components) && names <= needed
    requires forall name :: name in names && name in components ==> Refs(components[name], COMPONENTS) <= names
    ensures var own := OwnDefs(Assemble(schema, components, needed));
      && Agrees(names, components, own)
      && (forall name :: name in names ==>
           ((name in components) == (name in own))
           == (if name in components then schema.Obj?
               else ReachesDefinition(schema, components) || name !in OwnDefs(schema)))
  {
    hide Assemble, Refs, Rewrite, Chain, Reachable;
    DefsOfResult(schema, components, needed);
    assert ReachesDefinition(schema, components) <==> exists n :: n in needed && n in components;
  }

  /** At each depth the two readings agree unless something reads differently. */
  lemma ClosedReadings(schema: Json, components: map<string, Json>, needed: set<string>, names: set<string>, n: nat)
    requires IsNeeded(needed, schema, components) && Refs(Body(schema), COMPONENTS) <= names
    requires Agrees(names, components, OwnDefs(Assemble(schema, components, needed)))
    ensures var closed := Assemble(schema, components, needed);
      Unfold(n, Body(closed), DEFS, OwnDefs(closed)) == Unfold(n, Body(schema), COMPONENTS, components)
      <==> !Differs(n, Body(schema), components, OwnDefs(closed))
  {
    hide Unfold, Differs, Rewrite, Assemble, Refs, Agrees;
    RewriteBody(schema, components, needed);
    SameUnlessDiffers(n, Body(schema), components, OwnDefs(Assemble(schema, components, needed)), names);
  }

  ghost predicate MeansTheSame(schema: Json, components: map<string, Json>, closed: Json) {
    forall n: nat ::
      Unfold(n, Body(closed), DEFS, OwnDefs(closed)) == Unfold(n, Body(schema), COMPONENTS, components)
  }

  /** A name the schema's body reaches that the closed schema reads otherwise. */
  ghost predicate Misread(schema: Json, components: map<string, Json>, name: string) {
    && Reachable(name, Body(schema), components)
    && !(if name in components then schema.Obj? && LocalRefFree(components[name])
         else ReachesDefinition(schema, components) || name !in OwnDefs(schema))
  }

  lemma NotClosable(schema: Json, components: map<string, Json>)
    ensures Closable(schema, components) <==>
      LocalRefFree(Body(schema)) && forall name :: !Misread(schema, components, name)
  {
    hide LocalRefFree, Body, Reachable, ReachesDefinition, OwnDefs;
    if !Closable(schema, components) && LocalRefFree(Body(schema)) {
      var name :| Reachable(name, Body(schema), components)
        && !(if name in components then schema.Obj? && LocalRefFree(components[name])
             else ReachesDefinition(schema, components) || name !in OwnDefs(schema));
      assert Misread(schema, components, name);
    }
  }

  lemma ReachedByChain(name: string, v: Json, components: map<string, Json>) returns (p: seq<string>)
    requires Reachable(name, v, components)
    ensures p != [] && Chain(p, v, components) && p[|p| - 1] == name
  {
    p :| Chain(p, v, components) && p[|p| - 1] == name;
  }

  lemma ClosableKeepsMeaning(schema: Json, components: map<string, Json>, needed: set<string>, names: set<string>)
    requires IsNeeded(needed, schema, components) && IsNeeded(names, Body(schema), components)
    requires names <= needed && Refs(Body(schema), COMPONENTS) <= names
    requires forall name :: name in names && name in components ==> Refs(components[name], COMPONENTS) <= names
    requires Closable(schema, components)
    ensures MeansTheSame(schema, components, Assemble(schema, components, needed))
  {
    hide Unfold, Differs, Refs, Rewrite, LocalRefFree, Assemble, OwnDefs, Chain, Reachable;
    OwnDefsAgree(schema, components, needed, names);
    var own := OwnDefs(Assemble(schema, components, needed));
    forall n: nat
      ensures Unfold(n, Body(Assemble(schema, components, needed)), DEFS, own)
        == Unfold(n, Body(schema), COMPONENTS, components)
    {
      NeverDiffers(n, Body(schema), components, own, names);
      ClosedReadings(schema, components, needed, names, n);
    }
  }

  lemma MisreadChangesMeaning(schema: Json, components: map<string, Json>, needed: set<string>, names: set<string>,
                              name: string)
    requires IsNeeded(needed, schema, components) && IsNeeded(names, Body(schema), components)
    requires names <= needed && Refs(Body(schema), COMPONENTS) <= names
    requires forall name :: name in names && name in components ==> Refs(components[name], COMPONENTS) <= names
    requires Misread(schema, components, name)
    ensures !MeansTheSame(schema, components, Assemble(schema, components, needed))
  {
    hide Unfold, Differs, Refs, Rewrite, LocalRefFree, Assemble, OwnDefs, Chain, Reachable;
    OwnDefsAgree(schema, components, needed, names);
    var p := ReachedByChain(name, Body(schema), components);
    ChainDiffers(p, Body(schema), components, OwnDefs(Assemble(schema, components, needed)));
    ClosedReadings(schema, components, needed, names, |p|);
  }

  lemma LocalRefChangesMeaning(schema: Json, components: map<string, Json>, needed: set<string>, names: set<string>)
    requires IsNeeded(needed, schema, components) && names <= needed && Refs(Body(schema), COMPONENTS) <= names
    requires forall name :: name in names && name in components ==> Refs(components[name], COMPONENTS) <= names
    requires !LocalRefFree(Body(schema))
    ensures !MeansTheSame(schema, components, Assemble(schema, components, needed))
  {
    hide Unfold, Differs, Refs, Rewrite, LocalRefFree, Assemble, OwnDefs, Reachable;
    OwnDefsAgree(schema, components, needed, names);
    LocalRefDiffers(0, Body(schema), components, OwnDefs(Assemble(schema, components, needed)));
    ClosedReadings(schema, components, needed, names, 0);
  }

  /** For every schema and document: the closed schema, read on its own, means at every depth
      what the original means in its document, if and only if the schema is `Closable`. */
  lemma ClosingKeepsMeaning(schema: Json, components: map<string, Json>, needed: set<string>)
    requires IsNeeded(needed, schema, components)
    ensures MeansTheSame(schema, components, Assemble(schema, components, needed)) <==> Closable(schema, components)
  {
    hide *;
    var names := BodyNames(schema, components, needed);
    NotClosable(schema, components);
    if Closable(schema, components) {
      ClosableKeepsMeaning(schema, components, needed, names);
    } else if !LocalRefFree(Body(schema)) {
      LocalRefChangesMeaning(schema, components, needed, names);
    } else {
      var name :| Misread(schema, components, name);
      MisreadChangesMeaning(schema, components, needed, names, name);
    }
  }

  // ---------- What is left of the document's references ----------

  lemma {:induction false} RewriteDropsRefs(v: Json)
    ensures Refs(Rewrite(v), COMPONENTS) == {}
  {
    match v
    case Obj(fields) =>
      RewrittenRef(fields);
      var w := Rewrite(v).fields;
      forall k | k in w
        ensures Refs(w[k], COMPONENTS) == {}
      {
        if w[k] == Rewrite(fields[k]) {
          RewriteDropsRefs(fields[k]);
        }
      }
    case Arr(items) =>
      forall i | 0 <= i < |items|
        ensures Refs(Rewrite(v).items[i], COMPONENTS) == {}
      {
        RewriteDropsRefs(items[i]);
      }
    case _ =>
  }

  // ---------- When the result stands alone ----------

  /** No reference leads out of the value: none into the document, and every other one to a
      definition the value carries. */
  ghost predicate StandsAlone(v: Json) {
    Refs(v, COMPONENTS) == {} && Refs(v, DEFS) <= OwnDefs(v).Keys
  }

  /** Every name the value refers to, with either prefix, is among the names. */
  ghost predicate Answered(v: Json, names: set<string>) {
    Refs(v, COMPONENTS) + Refs(v, DEFS) <= names
  }

  /** Rewriting turns references into the document into local ones and keeps those. */
  lemma {:induction false} RewriteMovesRefs(v: Json)
    ensures Refs(Rewrite(v), DEFS) == Refs(v, COMPONENTS) + Refs(v, DEFS)
  {
    match v
    case Obj(fields) =>
      RewrittenRef(fields);
      var w := Rewrite(v).fields;
      forall k | k in fields
        ensures Refs(w[k], DEFS) == Refs(fields[k], COMPONENTS) + Refs(fields[k], DEFS)
      {
        RewriteMovesRefs(fields[k]);
        assert k == REF && RefName(fields, COMPONENTS).Some? ==> w[k].Str? && fields[k].Str?;
      }
      assert Rewrite(v) == Obj(w) && w.Keys == fields.Keys;
      assert OwnRef(w, DEFS) == OwnRef(fields, COMPONENTS) + OwnRef(fields, DEFS);
      hide Rewrite, OwnRef;
      FieldRefsMove(fields, w);
    case Arr(items) =>
      var w := Rewrite(v).items;
      forall i | 0 <= i < |items|
        ensures Refs(w[i], DEFS) == Refs(items[i], COMPONENTS) + Refs(items[i], DEFS)
      {
        RewriteMovesRefs(items[i]);
      }
      assert Rewrite(v) == Arr(w) && |w| == |items|;
      hide Rewrite;
      ItemRefsMove(items, w);
    case _ =>
  }

  lemma FieldRefsMove(fields: map<string, Json>, w: map<string, Json>)
    requires w.Keys == fields.Keys && OwnRef(w, DEFS) == OwnRef(fields, COMPONENTS) + OwnRef(fields, DEFS)
    requires forall k :: k in fields ==> Refs(w[k], DEFS) == Refs(fields[k], COMPONENTS) + Refs(fields[k], DEFS)
    ensures Refs(Obj(w), DEFS) == Refs(Obj(fields), COMPONENTS) + Refs(Obj(fields), DEFS)
  {
    hide OwnRef;
    forall k, n | k in fields && (n in Refs(fields[k], COMPONENTS) || n in Refs(fields[k], DEFS))
      ensures n in Refs(Obj(w), DEFS)
    {
      assert k in w && n in Refs(w[k], DEFS);
    }
  }

  lemma ItemRefsMove(items: seq<Json>, w: seq<Json>)
    requires |w| == |items|
    requires forall i :: 0 <= i < |items| ==> Refs(w[i], DEFS) == Refs(items[i], COMPONENTS) + Refs(items[i], DEFS)
    ensures Refs(Arr(w), DEFS) == Refs(Arr(items), COMPONENTS) + Refs(Arr(items), DEFS)
  {
    forall i, n | 0 <= i < |items| && (n in Refs(items[i], COMPONENTS) || n in Refs(items[i], DEFS))
      ensures n in Refs(Arr(w), DEFS)
    {
      assert n in Refs(w[i], DEFS);
    }
  }

  /** What a caller has to check. If definitions are copied: everything the schema's body and
      the copied definitions refer to is a copied definition, and no definition named `$ref`
      makes the table of definitions itself read as a reference that leads elsewhere. If none
      are: everything the schema refers to is a definition it brought. */
  ghost predicate SelfContained(schema: Json, components: map<string, Json>, needed: set<string>) {
    var copied := set n | n in needed && n in components;
    if schema.Obj? && copied != {} then
      && Answered(Body(schema), copied)
      && (forall n :: n in copied ==> Answered(components[n], copied))
      && (REF in copied ==> OwnRef(components, COMPONENTS) == {} && OwnRef(components, DEFS) <= copied)
    else
      Answered(schema, OwnDefs(schema).Keys)
  }

  /** The references of an object that carries definitions. */
  lemma RefsWithDefs(v: Json, prefix: string)
    requires v.Obj? && DEFS_KEY in v.fields
    ensures Refs(v, prefix) == Refs(Body(v), prefix) + Refs(v.fields[DEFS_KEY], prefix)
  {
    var fields := v.fields;
    var rest := fields - {DEFS_KEY};
    assert |REF| != |DEFS_KEY|;
    assert OwnRef(rest, prefix) == OwnRef(fields, prefix);
    hide OwnRef;
    forall n
      ensures n in Refs(v, prefix) <==> n in Refs(Body(v), prefix) || n in Refs(fields[DEFS_KEY], prefix)
    {
      if k :| k in fields && n in Refs(fields[k], prefix) {
        assert k in rest || k == DEFS_KEY;
      }
      if k :| k in rest && n in Refs(rest[k], prefix) {
        assert k in fields && fields[k] == rest[k];
      }
    }
  }

  lemma RefsWithin(fields: map<string, Json>, prefix: string, names: set<string>)
    ensures Refs(Obj(fields), prefix) <= names <==>
      OwnRef(fields, prefix) <= names && forall k :: k in fields ==> Refs(fields[k], prefix) <= names
  {
    FieldsRefer(fields, prefix);
  }

  /** The references of a table of rewritten definitions. */
  lemma TableRefs(components: map<string, Json>, copied: set<string>, defs: map<string, Json>, names: set<string>)
    requires defs.Keys == copied && forall n :: n in copied ==> n in components && defs[n] == Rewrite(components[n])
    ensures Refs(Obj(defs), DEFS) <= names <==>
      && (forall n :: n in copied ==> Answered(components[n], names))
      && (REF in copied ==> OwnRef(components, DEFS) <= names)
  {
    RefsWithin(defs, DEFS, names);
    assert OwnRef(defs, DEFS) == if REF in copied then OwnRef(components, DEFS) else {};
    hide Rewrite, Refs, OwnRef;
    forall n | n in copied
      ensures Refs(defs[n], DEFS) <= names <==> Answered(components[n], names)
    {
      RewriteMovesRefs(components[n]);
    }
  }

  lemma CopiedDefs(schema: Json, components: map<string, Json>, needed: set<string>, copied: set<string>)
    returns (defs: map<string, Json>)
    requires schema.Obj? && copied == (set n | n in needed && n in components) && copied != {}
    ensures defs.Keys == copied && forall n :: n in copied ==> n in components && defs[n] == Rewrite(components[n])
    ensures var closed := Assemble(schema, components, needed);
      && closed.Obj? && DEFS_KEY in closed.fields && closed.fields[DEFS_KEY] == Obj(defs)
      && OwnDefs(closed) == defs
  {
    var n :| n in copied;
    defs := map n | n in copied :: Rewrite(components[n]);
    assert n in defs;
    assert defs == map n | n in needed && n in components :: Rewrite(components[n]);
  }

  lemma NothingCopied(schema: Json, components: map<string, Json>, needed: set<string>)
    requires !schema.Obj? || forall n :: n in needed ==> n !in components
    ensures Assemble(schema, components, needed) == Rewrite(schema)
    ensures OwnDefs(Rewrite(schema)).Keys == OwnDefs(schema).Keys
  {
    if schema.Obj? {
      var defs := map n | n in needed && n in components :: Rewrite(components[n]);
      assert defs == map[];
      DefsOfResult(schema, components, needed);
    }
  }

  /** No reference into the document remains, unless a component itself named `$ref` is copied
      whose whole value is such a string: then the table of definitions reads as a reference. */
  lemma NoDocumentRefsRemain(schema: Json, components: map<string, Json>, needed: set<string>)
    ensures Refs(Assemble(schema, components, needed), COMPONENTS) == {} <==>
      !(schema.Obj? && REF in needed && REF in components && components[REF].Str? && COMPONENTS <= components[REF].s)
  {
    hide Refs, OwnDefs, Assemble, Body;
    var copied := set n | n in needed && n in components;
    if schema.Obj? && copied != {} {
      var closed := Assemble(schema, components, needed);
      var defs := CopiedDefs(schema, components, needed, copied);
      RewriteBody(schema, components, needed);
      RewriteDropsRefs(Body(schema));
      RefsWithDefs(closed, COMPONENTS);
      forall n | n in copied
        ensures Refs(defs[n], COMPONENTS) == {}
      {
        RewriteDropsRefs(components[n]);
      }
      RefsWithin(defs, COMPONENTS, {});
      assert REF in copied <==> REF in needed && REF in components;
    } else {
      assert forall n :: n in needed && n in components ==> n in copied;
      NothingCopied(schema, components, needed);
      RewriteDropsRefs(schema);
    }
  }

  /** The closed schema stands alone if and only if the schema is `SelfContained`. */
  lemma StandsAloneIff(schema: Json, components: map<string, Json>, needed: set<string>)
    ensures StandsAlone(Assemble(schema, components, needed)) <==> SelfContained(schema, components, needed)
  {
    hide Rewrite, Refs, OwnDefs, Assemble, Body;
    var copied := set n | n in needed && n in components;
    NoDocumentRefsRemain(schema, components, needed);
    if schema.Obj? && copied != {} {
      var defs := CopiedDefs(schema, components, needed, copied);
      RewriteBody(schema, components, needed);
      RewriteMovesRefs(Body(schema));
      var closed := Assemble(schema, components, needed);
      RefsWithDefs(closed, DEFS);
      TableRefs(components, copied, defs, copied);
      assert Refs(closed, COMPONENTS) == {} <==> (REF in copied ==> OwnRef(components, COMPONENTS) == {});
      assert Refs(closed, DEFS) <= copied <==> Answered(Body(schema), copied) && Refs(Obj(defs), DEFS) <= copied;
      assert OwnDefs(closed).Keys == copied;
    } else {
      assert forall n :: n in needed && n in components ==> n in copied;
      NothingCopied(schema, components, needed);
      RewriteMovesRefs(schema);
      RewriteDropsRefs(schema);
    }
  }

  /** A schema that is read differently once closed: its reference to the document's `Y` runs
      into the definition it brought under that name. */
  lemma ClosingCanChangeMeaning()
    ensures var y := Obj(map[REF := Str(COMPONENTS + "Y")]);
      var schema := Obj(map["p" := y, DEFS_KEY := Obj(map["Y" := Null])]);
      forall needed :: IsNeeded(needed, schema, map[]) ==> !MeansTheSame(schema, map[], Assemble(schema, map[], needed))
  {
    var y := Obj(map[REF := Str(COMPONENTS + "Y")]);
    var schema := Obj(map["p" := y, DEFS_KEY := Obj(map["Y" := Null])]);
    assert RefName(y.fields, COMPONENTS) == Some("Y") by {
      assert (COMPONENTS + "Y")[|COMPONENTS|..] == "Y";
    }
    var body := Body(schema);
    assert body.fields["p"] == y && "Y" in Refs(y, COMPONENTS) && "Y" in Refs(body, COMPONENTS);
    assert Chain(["Y"], body, map[]) && ["Y"][|["Y"]| - 1] == "Y";
    assert Reachable("Y", body, map[]) && "Y" in OwnDefs(schema);
    assert !Closable(schema, map[]);
    forall needed | IsNeeded(needed, schema, map[])
      ensures !MeansTheSame(schema, map[], Assemble(schema, map[], needed))
    {
      ClosingKeepsMeaning(schema, map[], needed);
    }
  }

  /** An object without references keeps its fields when it is rewritten. */
  lemma LeafTable(name: string)
    ensures var t := Obj(map[name := Null]);
      Rewrite(t) == t && Refs(t, DEFS) == {} && Refs(t, COMPONENTS) == {}
  {
    var t := Obj(map[name := Null]);
    assert Rewrite(t).fields == t.fields;
    assert Refs(Null, DEFS) == {} && Refs(Null, COMPONENTS) == {};
  }

  /** A schema that refers to its own definition and to nothing else. */
  function RefersToOwn(): Json {
    Obj(map[REF := Str(DEFS + "X"), DEFS_KEY := Obj(map["X" := Null])])
  }

  lemma RefNamesOfOwn()
    ensures var fields := RefersToOwn().fields;
      && RefName(fields, DEFS) == Some("X") && RefName(fields, COMPONENTS) == None
      && RefName(fields - {DEFS_KEY}, DEFS) == Some("X") && RefName(fields - {DEFS_KEY}, COMPONENTS) == None
  {
    assert |REF| != |DEFS_KEY| && COMPONENTS[2] != DEFS[2];
    assert (DEFS + "X")[|DEFS|..] == "X";
  }

  lemma ClosingOwnChangesNothing()
    ensures Assemble(RefersToOwn(), map[], {}) == RefersToOwn()
  {
    var fields := RefersToOwn().fields;
    RefNamesOfOwn();
    LeafTable("X");
    assert |REF| != |DEFS_KEY|;
    assert Rewrite(RefersToOwn()).fields == fields;
    NothingCopied(RefersToOwn(), map[], {});
  }

  lemma RefsOfOwn()
    ensures Refs(Body(RefersToOwn()), DEFS) == Refs(RefersToOwn(), DEFS) == {"X"}
    ensures Refs(RefersToOwn(), COMPONENTS) == {}
  {
    hide Rewrite, Refs;
    var v, fields := RefersToOwn(), RefersToOwn().fields;
    assert fields - {DEFS_KEY} == map[REF := Str(DEFS + "X")];
    RefNamesOfOwn();
    LeafTable("X");
    RefsWithDefs(v, DEFS);
    RefsWithDefs(v, COMPONENTS);
    SingleRef(DEFS + "X", DEFS);
    SingleRef(DEFS + "X", COMPONENTS);
  }

  /** Standing alone and meaning the same are different things: this schema is closed and
      stands alone, and is read otherwise in a document, where its reference leads nowhere. */
  lemma StandingAloneIsNotMeaningTheSame()
    ensures Assemble(RefersToOwn(), map[], {}) == RefersToOwn()
    ensures StandsAlone(RefersToOwn()) && !Closable(RefersToOwn(), map[])
  {
    hide Refs, Rewrite, Assemble, Reachable;
    ClosingOwnChangesNothing();
    RefsOfOwn();
    assert OwnDefs(RefersToOwn()).Keys == {"X"};
  }

  lemma SingleRef(target: string, prefix: string)
    ensures Refs(Obj(map[REF := Str(target)]), prefix) == OwnRef(map[REF := Str(target)], prefix)
  {
    assert Refs(Str(target), prefix) == {};
  }

  // ---------- The worklist ----------

  /** The worklist ends, on cyclic schemas too, with exactly the reachable names, and the
      result means what the schema means exactly when the schema is closable. */
  method CloseSchema(schema: Json, components: map<string, Json>) returns (r: Json)
    ensures exists names :: IsNeeded(names, schema, components) && r == Assemble(schema, components, names)
    ensures MeansTheSame(schema, components, r) <==> Closable(schema, components)
  {
    hide Explored, Refs, IsNeeded, AllRefs, Assemble, MeansTheSame, Closable;
    var needed := Refs(schema, COMPONENTS);
    ghost var universe := needed + AllRefs(components);
    var _, frontier := Discover(needed, {}, []);
    StartExplored(schema, components, frontier);
    while frontier != []
      invariant Explored(schema, components, needed, frontier)
      decreases |universe - needed|, |frontier|
    {
      ghost var before, frontier0 := needed, frontier;
      var name := frontier[|frontier| - 1];
      frontier := frontier[..|frontier| - 1];
      assert frontier0 == frontier + [name];
      if name in components {
        ghost var rest := frontier;
        needed, frontier := Discover(Refs(components[name], COMPONENTS), needed, frontier);
        StepExplored(schema, components, before, frontier0, name, rest, needed, frontier);
        Progress(schema, components, before, needed, frontier);
      } else {
        SkipExplored(schema, components, needed, frontier0, name, frontier);
      }
    }
    ExploredIsNeeded(schema, components, needed);
    ClosingKeepsMeaning(schema, components, needed);
    r := Assemble(schema, components, needed);
  }
}
