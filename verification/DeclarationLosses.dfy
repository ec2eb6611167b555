/** What the reader loses of the formatter's layout, and exactly when it loses nothing. */
module DeclarationLosses {
  import opened Reflector
  import opened Declarations
  import DeclarationReading

  // ---------- When that is everything ----------

  /** Two runs of documentation and attributes that say the same of a field, which is named on
      the wire by its `rename` option or else by `wire`. */
  predicate SayTheSame(docs: seq<string>, attrs: seq<Attribute>, wire: string,
                       docs': seq<string>, attrs': seq<Attribute>, wire': string) {
    && JoinDoc(docs) == JoinDoc(docs')
    && WireName(attrs, wire) == WireName(attrs', wire')
    && AttrFlag(attrs, "default") == AttrFlag(attrs', "default")
    && AttrFlag(attrs, "flatten") == AttrFlag(attrs', "flatten")
    && OrEmpty(AttrStr(attrs, "with")) == OrEmpty(AttrStr(attrs', "with"))
  }

  function WireName(attrs: seq<Attribute>, wire: string): string {
    var rename := AttrStr(attrs, "rename");
    if rename.Some? then rename.value else wire
  }

  /** The type stands beside the name, and what is left of a field's marks says what they all
      say. */
  predicate FieldIntact(f: SField, readPolicy: string, policy: string) {
    var (docs, attrs) := Kept(f.marks, false, [], []);
    && !f.wide
    && SayTheSame(docs, attrs, StructWire(f.name, readPolicy),
                  Docs(f.marks), Attrs(f.marks), StructWire(f.name, policy))
  }

  predicate StructIntact(fields: seq<SField>, readPolicy: string, policy: string) {
    fields == [] ||
    ((fields[0].isPub ==> FieldIntact(fields[0], readPolicy, policy)) && StructIntact(fields[1..], readPolicy, policy))
  }

  /** A field inside a variant: the type stands beside the name, and the opening lines of its
      attributes say what the attributes say. */
  predicate InnerFieldIntact(f: SField) {
    !f.wide && SayTheSame(Docs(f.marks), Openings(f.marks), f.name, Docs(f.marks), Attrs(f.marks), f.name)
  }

  predicate InnerIntact(fields: seq<SField>) {
    fields == [] || (InnerFieldIntact(fields[0]) && InnerIntact(fields[1..]))
  }

  predicate NoneWrapped(marks: seq<Mark>) {
    marks == [] || (!(marks[0].Tag? && marks[0].attr.Wrapped?) && NoneWrapped(marks[1..]))
  }

  predicate WireNameStays(v: SVariant, readPolicy: string, policy: string) {
    AttrStr(Attrs(v.marks), "rename").Some? || RenameAll(v.name, readPolicy) == RenameAll(v.name, policy)
  }

  /** Nothing above a variant is wrapped, its fields do not stay on one line, and they are intact. */
  predicate EnumIntact(variants: seq<SVariant>, readPolicy: string, policy: string) {
    variants == [] ||
    (NoneWrapped(variants[0].marks) && !OneLine(variants[0]) && WireNameStays(variants[0], readPolicy, policy)
     && InnerIntact(variants[0].fields) && EnumIntact(variants[1..], readPolicy, policy))
  }

  /** What is left of an item's marks says all that the reader takes from them, and its members
      are intact under the policy that is left. */
  predicate ItemIntact(it: SItem) {
    var (docs, attrs) := Kept(it.marks, true, [], []);
    var readPolicy, policy := Policy(attrs), Policy(Attrs(it.marks));
    && !it.IsEmpty()
    && JoinDoc(docs) == JoinDoc(Docs(it.marks))
    && OrEmpty(AttrStr(attrs, "tag")) == OrEmpty(AttrStr(Attrs(it.marks), "tag"))
    && AttrFlag(attrs, "deny_unknown_fields") == AttrFlag(Attrs(it.marks), "deny_unknown_fields")
    && if it.Struct? then StructIntact(it.fields, readPolicy, policy) else EnumIntact(it.variants, readPolicy, policy)
  }

  predicate AllIntact(items: seq<SItem>) {
    items == [] || (ItemIntact(items[0]) && AllIntact(items[1..]))
  }

  /** Lists that start alike are equal when the rest is. */
  lemma SameList<T>(a: T, s: seq<T>, b: T, t: seq<T>)
    ensures [a] + s == [b] + t <==> a == b && s == t
  {
    assert ([a] + s)[0] == a && ([a] + s)[1..] == s && ([b] + t)[0] == b && ([b] + t)[1..] == t;
  }

  lemma SameField(f: SField, wire: string, docs: seq<string>, attrs: seq<Attribute>,
                  wire': string, docs': seq<string>, attrs': seq<Attribute>)
    ensures FieldOf(f.name, f.ty, wire, docs, attrs) == FieldOf(f.name, f.ty, wire', docs', attrs')
      <==> SayTheSame(docs, attrs, wire, docs', attrs', wire')
  {
    hide JoinDoc, AttrStr, AttrFlag;
  }

  lemma FieldLosses(f: SField, readPolicy: string, policy: string)
    ensures FieldIntact(f, readPolicy, policy) <==> !f.wide && FieldRead(f, readPolicy) == FieldSaid(f, policy)
  {
    hide FieldOf, SayTheSame;
    var (docs, attrs) := Kept(f.marks, false, [], []);
    SameField(f, StructWire(f.name, readPolicy), docs, attrs,
              StructWire(f.name, policy), Docs(f.marks), Attrs(f.marks));
  }

  lemma {:induction false} StructLosses(fields: seq<SField>, readPolicy: string, policy: string)
    ensures |StructRead(fields, readPolicy)| <= |FieldsSaid(Public(fields), policy)|
    ensures StructRead(fields, readPolicy) == FieldsSaid(Public(fields), policy)
            <==> StructIntact(fields, readPolicy, policy)
  {
    hide FieldRead, FieldSaid, FieldIntact;
    if fields != [] {
      var f := fields[0];
      FieldLosses(f, readPolicy, policy);
      StructLosses(fields[1..], readPolicy, policy);
      PublicHead(fields, policy);
      var read, said := StructRead(fields[1..], readPolicy), FieldsSaid(Public(fields[1..]), policy);
      assert [] + read == read;
      SameList(FieldRead(f, readPolicy), read, FieldSaid(f, policy), said);
    }
  }

  lemma PublicHead(fields: seq<SField>, policy: string)
    requires fields != []
    ensures FieldsSaid(Public(fields), policy) ==
      if fields[0].isPub then [FieldSaid(fields[0], policy)] + FieldsSaid(Public(fields[1..]), policy)
      else FieldsSaid(Public(fields[1..]), policy)
  {
    hide FieldSaid;
    var rest := Public(fields[1..]);
    if fields[0].isPub {
      assert Public(fields) == [fields[0]] + rest && ([fields[0]] + rest)[1..] == rest;
    } else {
      assert Public(fields) == rest;
    }
  }

  lemma {:induction false} InnerCounted(fields: seq<SField>, docs: seq<string>, attrs: seq<Attribute>)
    ensures |InnerRead(fields, docs, attrs)| <= |fields| == |FieldsSaid(fields, "")|
    decreases |fields|
  {
    hide FieldOf, FieldSaid, TypeAlone;
    if fields != [] {
      InnerCounted(fields[1..], [], []);
      InnerCounted(fields[1..], docs + Docs(fields[0].marks), attrs + Openings(fields[0].marks));
    }
  }

  /** A type that reads as a field reads as one with a shorter type. */
  lemma PathIsNotTheType(ty: string)
    ensures TypeAlone(ty).Field? ==> |TypeAlone(ty).ty| < |ty|
  {
  }

  lemma {:induction false} InnerLosses(fields: seq<SField>)
    ensures InnerRead(fields, [], []) == FieldsSaid(fields, "") <==> InnerIntact(fields)
  {
    hide TypeAlone, JoinDoc, AttrStr, AttrFlag, SayTheSame;
    if fields != [] {
      var f := fields[0];
      SameField(f, f.name, Docs(f.marks), Openings(f.marks), f.name, Docs(f.marks), Attrs(f.marks));
      var docs, attrs := [] + Docs(f.marks), [] + Openings(f.marks);
      assert docs == Docs(f.marks) && attrs == Openings(f.marks);
      InnerLosses(fields[1..]);
      InnerCounted(fields[1..], docs, attrs);
      PathIsNotTheType(f.ty);
      var read, said := InnerRead(fields[1..], [], []), FieldsSaid(fields[1..], "");
      SameList(FieldOf(f.name, f.ty, f.name, docs, attrs), read, FieldSaid(f, ""), said);
      var t := TypeAlone(f.ty);
      if f.wide && t.Field? {
        SameList(FieldOf(t.name, t.ty, t.name, docs, attrs), read, FieldSaid(f, ""), said);
      }
    }
  }

  lemma {:induction false} NothingLeftOut(marks: seq<Mark>, policy: string, docs: seq<string>, attrs: seq<Attribute>)
    requires NoneWrapped(marks)
    ensures Kept(marks, false, docs, attrs) == (docs + Docs(marks), attrs + Attrs(marks))
    ensures Phantoms(marks, policy, docs, attrs) == []
    decreases |marks|
  {
    if marks == [] {
      assert docs + [] == docs && attrs + [] == attrs;
    } else {
      match marks[0]
      case Note(text) =>
        NothingLeftOut(marks[1..], policy, docs + [text], attrs);
        assert docs + [text] + Docs(marks[1..]) == docs + Docs(marks) && Attrs(marks) == Attrs(marks[1..]);
      case Tag(OnOneLine(whole)) =>
        NothingLeftOut(marks[1..], policy, docs, attrs + [whole]);
        assert attrs + [whole] + Attrs(marks[1..]) == attrs + Attrs(marks) && Docs(marks) == Docs(marks[1..]);
    }
  }

  lemma {:induction false} WrappedMakesPhantom(marks: seq<Mark>, policy: string, docs: seq<string>,
                                               attrs: seq<Attribute>)
    requires !NoneWrapped(marks)
    ensures |Phantoms(marks, policy, docs, attrs)| >= 1
    decreases |marks|
  {
    match marks[0]
    case Note(text) => WrappedMakesPhantom(marks[1..], policy, docs + [text], attrs);
    case Tag(OnOneLine(whole)) => WrappedMakesPhantom(marks[1..], policy, docs, attrs + [whole]);
    case Tag(Wrapped(_, _, _)) =>
  }

  lemma {:induction false} EnumCounted(variants: seq<SVariant>, readPolicy: string, policy: string)
    ensures |EnumRead(variants, readPolicy)| >= |variants| == |VariantsSaid(variants, policy)|
  {
    if variants != [] {
      EnumCounted(variants[1..], readPolicy, policy);
    }
  }

  lemma VariantLosses(v: SVariant, readPolicy: string, policy: string)
    requires NoneWrapped(v.marks)
    ensures VariantRead(v, readPolicy) == VariantSaid(v, policy)
      <==> !OneLine(v) && WireNameStays(v, readPolicy, policy) && InnerIntact(v.fields)
  {
    hide JoinDoc, RenameAll, InnerIntact, InnerRead;
    NothingLeftOut(v.marks, readPolicy, [], []);
    assert [] + Docs(v.marks) == Docs(v.marks) && [] + Attrs(v.marks) == Attrs(v.marks);
    InnerLosses(v.fields);
    if OneLine(v) {
      assert FieldsSaid(v.fields, "") != [];
    }
  }

  lemma {:induction false} EnumLosses(variants: seq<SVariant>, readPolicy: string, policy: string)
    ensures EnumRead(variants, readPolicy) == VariantsSaid(variants, policy)
            <==> EnumIntact(variants, readPolicy, policy)
  {
    hide VariantRead, VariantSaid, OneLine, WireNameStays, InnerIntact;
    if variants != [] {
      var v := variants[0];
      EnumLosses(variants[1..], readPolicy, policy);
      EnumCounted(variants[1..], readPolicy, policy);
      var read, said := EnumRead(variants[1..], readPolicy), VariantsSaid(variants[1..], policy);
      if NoneWrapped(v.marks) {
        NothingLeftOut(v.marks, readPolicy, [], []);
        assert [] + ([VariantRead(v, readPolicy)] + read) == [VariantRead(v, readPolicy)] + read;
        VariantLosses(v, readPolicy, policy);
        SameList(VariantRead(v, readPolicy), read, VariantSaid(v, policy), said);
      } else {
        WrappedMakesPhantom(v.marks, readPolicy, [], []);
      }
    }
  }

  lemma ItemLosses(it: SItem)
    requires !it.IsEmpty()
    ensures ItemRead(it) == ItemSaid(it) <==> ItemIntact(it)
  {
    hide JoinDoc, AttrStr, AttrFlag, StructRead, EnumRead, FieldsSaid, VariantsSaid, Public, Kept, Attrs, Docs,
      StructIntact, EnumIntact;
    var (docs, attrs) := Kept(it.marks, true, [], []);
    var readPolicy, policy := Policy(attrs), Policy(Attrs(it.marks));
    match it
    case Struct(_, _, fields) => StructLosses(fields, readPolicy, policy);
    case Enum(_, _, variants) => EnumLosses(variants, readPolicy, policy);
  }

  lemma {:induction false} ItemsCounted(items: seq<SItem>)
    ensures |ItemsRead(items)| <= |items| == |ItemsSaid(items)|
  {
    hide ItemRead, ItemSaid;
    if items != [] {
      ItemsCounted(items[1..]);
    }
  }

  lemma {:induction false} ItemsLosses(items: seq<SItem>)
    ensures ItemsRead(items) == ItemsSaid(items) <==> AllIntact(items)
  {
    hide ItemRead, ItemSaid;
    if items != [] {
      var it := items[0];
      ItemsLosses(items[1..]);
      ItemsCounted(items[1..]);
      if it.IsEmpty() {
        assert [] + ItemsRead(items[1..]) == ItemsRead(items[1..]);
      } else {
        ItemLosses(it);
        hide ItemIntact;
        SameList(ItemRead(it), ItemsRead(items[1..]), ItemSaid(it), ItemsSaid(items[1..]));
      }
    }
  }

  /** Reading undoes the layout, so that every declaration comes back, in order, with its
      public fields, variants, wire names and flags and with its documentation cut to the first
      paragraph, if and only if every item is intact. */
  lemma ReflectUndoesLayout(items: seq<SItem>)
    requires forall it :: it in items ==> it.name != ""
    ensures Reflect(Layout(items), [], []) == ItemsSaid(items) <==> AllIntact(items)
  {
    hide Reflect, Layout, ItemsRead, ItemsSaid, AllIntact;
    DeclarationReading.ReflectReadsLayout(items);
    ItemsLosses(items);
  }

  // ---------- A condition on shapes alone ----------

  predicate NoneWipesOut(marks: seq<Mark>) {
    marks == [] || (!(marks[0].Tag? && WipesOut(marks[0].attr, true)) && NoneWipesOut(marks[1..]))
  }

  /** No type on a line of its own, and no attribute over several lines. */
  predicate PlainFields(fields: seq<SField>) {
    fields == [] || (!fields[0].wide && NoneWrapped(fields[0].marks) && PlainFields(fields[1..]))
  }

  predicate PlainVariants(variants: seq<SVariant>) {
    variants == [] ||
    (NoneWrapped(variants[0].marks) && !OneLine(variants[0]) && PlainFields(variants[0].fields)
     && PlainVariants(variants[1..]))
  }

  /** Every item has members, each on lines of its own with each attribute on one line; the
      item's own attributes may go on over several lines, as long as no line inside one of them
      ends in a bracket. */
  predicate AllPlain(items: seq<SItem>) {
    items == [] ||
    (!items[0].IsEmpty() && NoneWipesOut(items[0].marks)
     && (if items[0].Struct? then PlainFields(items[0].fields) else PlainVariants(items[0].variants))
     && AllPlain(items[1..]))
  }

  lemma {:induction false} TopKeepsAll(marks: seq<Mark>, docs: seq<string>, attrs: seq<Attribute>)
    requires NoneWipesOut(marks)
    ensures Kept(marks, true, docs, attrs) == (docs + Docs(marks), attrs + Attrs(marks))
    decreases |marks|
  {
    if marks == [] {
      assert docs + [] == docs && attrs + [] == attrs;
    } else if marks[0].Note? {
      TopKeepsAll(marks[1..], docs + [marks[0].text], attrs);
      assert docs + [marks[0].text] + Docs(marks[1..]) == docs + Docs(marks) && Attrs(marks) == Attrs(marks[1..]);
    } else {
      TopKeepsAll(marks[1..], docs, attrs + [marks[0].attr.whole]);
      assert attrs + [marks[0].attr.whole] + Attrs(marks[1..]) == attrs + Attrs(marks);
      assert Docs(marks) == Docs(marks[1..]);
    }
  }

  lemma {:induction false} OpeningsSayAll(marks: seq<Mark>)
    requires NoneWrapped(marks)
    ensures Openings(marks) == Attrs(marks)
  {
    if marks != [] {
      OpeningsSayAll(marks[1..]);
      assert Openings(marks) == (if marks[0].Tag? then [marks[0].attr.whole] else []) + Openings(marks[1..]);
    }
  }

  lemma {:induction false} PlainFieldsIntact(fields: seq<SField>, policy: string)
    requires PlainFields(fields)
    ensures StructIntact(fields, policy, policy) && InnerIntact(fields)
  {
    hide JoinDoc, AttrStr, AttrFlag;
    if fields != [] {
      var marks := fields[0].marks;
      NothingLeftOut(marks, policy, [], []);
      assert [] + Docs(marks) == Docs(marks) && [] + Attrs(marks) == Attrs(marks);
      OpeningsSayAll(marks);
      PlainFieldsIntact(fields[1..], policy);
    }
  }

  lemma {:induction false} PlainVariantsIntact(variants: seq<SVariant>, policy: string)
    requires PlainVariants(variants)
    ensures EnumIntact(variants, policy, policy)
  {
    if variants != [] {
      PlainFieldsIntact(variants[0].fields, policy);
      PlainVariantsIntact(variants[1..], policy);
    }
  }

  lemma {:induction false} PlainIsIntact(items: seq<SItem>)
    requires AllPlain(items)
    ensures AllIntact(items)
  {
    hide JoinDoc, AttrStr, AttrFlag, StructIntact, EnumIntact;
    if items != [] {
      var it := items[0];
      TopKeepsAll(it.marks, [], []);
      assert [] + Docs(it.marks) == Docs(it.marks) && [] + Attrs(it.marks) == Attrs(it.marks);
      match it {
        case Struct(_, _, fields) => PlainFieldsIntact(fields, Policy(Attrs(it.marks)));
        case Enum(_, _, variants) => PlainVariantsIntact(variants, Policy(Attrs(it.marks)));
      }
      PlainIsIntact(items[1..]);
    }
  }

  // ---------- What the reader loses ----------

  /** An item without marks, read alone. */
  lemma ReadAlone(it: SItem)
    requires it.name != "" && it.marks == [] && !it.IsEmpty()
    ensures var r := Reflect(Layout([it]), [], []);
      && |r| == 1
      && (it.Struct? ==> r[0].fields == StructRead(it.fields, ""))
      && (it.Enum? ==> r[0].variants == EnumRead(it.variants, ""))
  {
    hide Reflect, Layout, StructRead, EnumRead;
    DeclarationReading.ReflectReadsLayout([it]);
    assert [it][1..] == [];
    assert Kept([], true, [], []) == ([], []) && Policy([]) == "";
  }

  lemma NoDocumentation()
    ensures JoinDoc([]) == ""
  {
  }

  lemma EnumOfOne(v: SVariant)
    ensures EnumRead([v], "") == Phantoms(v.marks, "", [], []) + [VariantRead(v, "")]
  {
    hide Phantoms, VariantRead;
    assert [v][1..] == [] && [VariantRead(v, "")] + [] == [VariantRead(v, "")];
  }

  lemma StructOfOne(f: SField)
    ensures StructRead([f], "") == if f.isPub && !f.wide then [FieldRead(f, "")] else []
  {
    hide FieldRead;
    assert [f][1..] == [] && [FieldRead(f, "")] + [] == [FieldRead(f, "")];
  }

  /** Documentation and a wrapped attribute: nothing is left of them, and the phantom has taken
      the documentation. */
  lemma WrappedMarks(doc: string, a: SAttr)
    requires a.Wrapped?
    ensures Kept([Note(doc), Tag(a)], false, [], []) == ([], [])
    ensures Phantoms([Note(doc), Tag(a)], "", [], []) == [VariantOf(Other(")]"), "", [doc], [a.first], [])]
  {
    hide VariantOf;
    var marks := [Note(doc), Tag(a)];
    assert marks[1..] == [Tag(a)] && [Tag(a)][1..] == [] && [] + [doc] == [doc] && [] + [a.first] == [a.first];
    assert Kept(marks, false, [], []) == Kept([Tag(a)], false, [doc], []);
    assert Kept([], false, [], []) == ([], []);
    assert Phantoms(marks, "", [], []) == Phantoms([Tag(a)], "", [doc], []);
    assert Phantoms([], "", [], []) == [];
    var phantom := VariantOf(Other(")]"), "", [doc], [a.first], []);
    assert [phantom] + [] == [phantom];
  }

  /** An attribute over several lines above a variant reads as a variant named `)]`, which takes
      the documentation of the one below it. */
  lemma WrappedAttributeReadsAsVariant(name: string, doc: string, variant: string, a: SAttr)
    requires name != "" && a.Wrapped? && "rename" !in a.first.values
    ensures var v := SVariant([Note(doc), Tag(a)], variant, [], false);
      var r := Reflect(Layout([Enum([], name, [v])]), [], []);
      |r| == 1 && r[0].variants == [RVariant(")]", JoinDoc([doc]), []), RVariant(variant, "", [])]
  {
    hide Reflect, Layout, JoinDoc, Kept, Phantoms, EnumRead;
    var v := SVariant([Note(doc), Tag(a)], variant, [], false);
    ReadAlone(Enum([], name, [v]));
    EnumOfOne(v);
    WrappedMarks(doc, a);
    NoDocumentation();
    assert [a.first][1..] == [];
  }

  /** In a struct it loses the field everything that stands above it: documentation, name on the
      wire and flags. */
  lemma WrappedAttributeWipesOutField(name: string, doc: string, field: string, ty: string, a: SAttr)
    requires name != "" && a.Wrapped?
    ensures var f := SField([Note(doc), Tag(a)], true, field, ty, false);
      var r := Reflect(Layout([Struct([], name, [f])]), [], []);
      |r| == 1 && r[0].fields == [RField(field, field, ty, "", false, false, "")]
  {
    hide Reflect, Layout, JoinDoc, Kept, StructRead;
    var f := SField([Note(doc), Tag(a)], true, field, ty, false);
    ReadAlone(Struct([], name, [f]));
    StructOfOne(f);
    WrappedMarks(doc, a);
    NoDocumentation();
  }

  /** The fields of a variant on one line are lost: `Count { count: u64 }` reads as a unit. */
  lemma OneLineVariantLosesItsFields(name: string, field: string, ty: string)
    requires name != ""
    ensures var v := SVariant([], "Count", [SField([], false, field, ty, false)], true);
      var r := Reflect(Layout([Enum([], name, [v])]), [], []);
      |r| == 1 && r[0].variants == [RVariant("Count", "", [])]
  {
    hide Reflect, Layout, JoinDoc, EnumRead;
    var f := SField([], false, field, ty, false);
    var v := SVariant([], "Count", [f], true);
    ReadAlone(Enum([], name, [v]));
    EnumOfOne(v);
    assert [f][1..] == [] && Bare([]);
    assert Bare([f]);
    NoDocumentation();
  }

  /** An item without members is lost. */
  lemma EmptyItemIsLost(name: string)
    requires name != ""
    ensures Reflect(Layout([Struct([], name, [])]), [], []) == []
  {
    hide Reflect, Layout;
    var it := Struct([], name, []);
    DeclarationReading.ReflectReadsLayout([it]);
    assert [it][1..] == [];
  }

  /** A field whose type stands on a line of its own is lost. */
  lemma WideFieldIsLost(name: string, field: string, ty: string)
    requires name != ""
    ensures var f := SField([], true, field, ty, true);
      var r := Reflect(Layout([Struct([], name, [f])]), [], []);
      |r| == 1 && r[0].fields == []
  {
    hide Reflect, Layout, StructRead;
    var f := SField([], true, field, ty, true);
    ReadAlone(Struct([], name, [f]));
    StructOfOne(f);
  }
}
