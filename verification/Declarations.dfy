/** The formatter's layout of struct and enum declarations, what they say, and what the reader of
    `Reflector` makes of them: `DeclarationReading` proves that it does, and `DeclarationLosses`
    when that is everything.

    What the formatter decides by width is left open, so every choice it could make is covered:
    which attributes go on over several lines, which struct-like variants stay on one line and
    which field types go to a line of their own. */
module Declarations {
  import opened Reflector

  // ---------- Declarations ----------

  /** A line inside an attribute: the word it starts with, and whether it ends in a bracket. */
  datatype Inside = Inside(word: string, ends: bool)

  /** An attribute on one line or, from an opening line to a closing `)]`, on several; `first` is
      what the opening line says alone. */
  datatype SAttr =
    | OnOneLine(whole: Attribute)
    | Wrapped(first: Attribute, whole: Attribute, inside: seq<Inside>)

  /** What stands above an item or a member, in order. */
  datatype Mark = Note(text: string) | Tag(attr: SAttr)

  /** `wide` says that the type stands on a line of its own, under the name. */
  datatype SField = SField(marks: seq<Mark>, isPub: bool, name: string, ty: string, wide: bool)

  /** A variant without fields is a unit variant. `short` says that the formatter finds its
      fields short enough for one line. */
  datatype SVariant = SVariant(marks: seq<Mark>, name: string, fields: seq<SField>, short: bool)

  datatype SItem =
    | Struct(marks: seq<Mark>, name: string, fields: seq<SField>)
    | Enum(marks: seq<Mark>, name: string, variants: seq<SVariant>)
  {
    /** An item without members, whose braces the formatter keeps on one line. */
    predicate IsEmpty() {
      if Struct? then fields == [] else variants == []
    }
  }

  function Text(m: Mark): seq<string> {
    if m.Note? then [m.text] else []
  }

  /** All documentation lines of a run of marks. */
  function Docs(marks: seq<Mark>): seq<string> {
    if marks == [] then [] else Text(marks[0]) + Docs(marks[1..])
  }

  /** All attributes of a run of marks, each with everything it says. */
  function Attrs(marks: seq<Mark>): seq<Attribute> {
    if marks == [] then [] else (if marks[0].Tag? then [marks[0].attr.whole] else []) + Attrs(marks[1..])
  }

  predicate Bare(fields: seq<SField>) {
    fields == [] || (fields[0].marks == [] && !fields[0].wide && Bare(fields[1..]))
  }

  /** A variant with fields that stays on one line; documentation and attributes need lines of
      their own. */
  predicate OneLine(v: SVariant) {
    v.fields != [] && v.short && Bare(v.fields)
  }

  // ---------- The formatter's layout ----------

  function InsideLines(indent: nat, inside: seq<Inside>): seq<Line> {
    if inside == [] then []
    else [Line(indent, Other(inside[0].word), inside[0].ends)] + InsideLines(indent, inside[1..])
  }

  function AttrEnd(indent: nat): Line {
    Line(indent, Other(")]"), true)
  }

  function MarkLines(indent: nat, m: Mark): seq<Line> {
    match m
    case Note(text) => [Line(indent, Doc(text), text != "" && text[|text| - 1] == ']')]
    case Tag(OnOneLine(whole)) => [Line(indent, Attr(whole, whole), true)]
    case Tag(Wrapped(first, whole, inside)) =>
      [Line(indent, Attr(first, whole), false)] + (InsideLines(indent + 4, inside) + [AttrEnd(indent)])
  }

  function Preamble(indent: nat, marks: seq<Mark>): seq<Line> {
    if marks == [] then [] else MarkLines(indent, marks[0]) + Preamble(indent, marks[1..])
  }

  predicate IsIdentifier(s: string) {
    s != "" && forall i :: 0 <= i < |s| ==>
      'a' <= s[i] <= 'z' || 'A' <= s[i] <= 'Z' || '0' <= s[i] <= '9' || s[i] == '_'
  }

  function UpToColon(s: string): (k: nat)
    ensures k <= |s|
  {
    if s == "" || s[0] == ':' then 0 else 1 + UpToColon(s[1..])
  }

  /** What a line that holds a type alone reads as: a field, if the type starts with a path. */
  function TypeAlone(ty: string): Token {
    var k := UpToColon(ty);
    if IsIdentifier(ty[..k]) && k + 1 < |ty| then Field(false, ty[..k], ty[k + 1..]) else Other(ty)
  }

  function OneField(indent: nat, inStruct: bool, f: SField): seq<Line> {
    var isPub := inStruct && f.isPub;
    if f.wide then
      [Line(indent, Other(if isPub then "pub" else f.name + ":"), false), Line(indent + 4, TypeAlone(f.ty), false)]
    else
      [Line(indent, Field(isPub, f.name, f.ty), false)]
  }

  function FieldLines(indent: nat, inStruct: bool, fields: seq<SField>): seq<Line> {
    if fields == [] then []
    else
      Preamble(indent, fields[0].marks)
      + (OneField(indent, inStruct, fields[0]) + FieldLines(indent, inStruct, fields[1..]))
  }

  /** The line a variant starts on: it ends in an open brace when its fields follow below. */
  function VariantHead(v: SVariant): Line {
    Line(4, Variant(v.name, v.fields != [] && !OneLine(v)), false)
  }

  /** The fields of a struct-like variant and the brace that closes it. */
  function InnerLines(v: SVariant): seq<Line> {
    if v.fields == [] || OneLine(v) then [] else FieldLines(8, false, v.fields) + [Line(4, Close, false)]
  }

  function VariantLines(variants: seq<SVariant>): seq<Line> {
    if variants == [] then []
    else
      var v := variants[0];
      Preamble(4, v.marks) + ([VariantHead(v)] + (InnerLines(v) + VariantLines(variants[1..])))
  }

  function MemberLines(it: SItem): seq<Line> {
    match it
    case Struct(_, _, fields) => FieldLines(4, true, fields)
    case Enum(_, _, variants) => VariantLines(variants)
  }

  const ITEM_END: Line := Line(0, Close, false)
  const BLANK_LINE: Line := Line(0, Blank, false)
  const EMPTY_ITEM: Line := Line(0, Other("pub"), false)

  /** Each item from column zero, its members at four, a closing brace and a blank line; an
      item without members on one line, which is no head, since it ends in a closing brace. */
  function Layout(items: seq<SItem>): seq<Line> {
    if items == [] then []
    else
      var it := items[0];
      Preamble(0, it.marks)
      + (if it.IsEmpty() then [EMPTY_ITEM, BLANK_LINE] + Layout(items[1..])
         else [Line(0, Head(it.Enum?, it.name, false), false)]
              + (MemberLines(it) + ([ITEM_END, BLANK_LINE] + Layout(items[1..]))))
  }

  // ---------- What should be read ----------

  function FieldSaid(f: SField, policy: string): RField {
    FieldOf(f.name, f.ty, StructWire(f.name, policy), Docs(f.marks), Attrs(f.marks))
  }

  function FieldsSaid(fields: seq<SField>, policy: string): seq<RField> {
    if fields == [] then [] else [FieldSaid(fields[0], policy)] + FieldsSaid(fields[1..], policy)
  }

  /** The fields a struct publishes. */
  function Public(fields: seq<SField>): seq<SField> {
    if fields == [] then [] else (if fields[0].isPub then [fields[0]] else []) + Public(fields[1..])
  }

  function VariantSaid(v: SVariant, policy: string): RVariant {
    VariantOf(Variant(v.name, false), policy, Docs(v.marks), Attrs(v.marks), FieldsSaid(v.fields, ""))
  }

  function VariantsSaid(variants: seq<SVariant>, policy: string): seq<RVariant> {
    if variants == [] then [] else [VariantSaid(variants[0], policy)] + VariantsSaid(variants[1..], policy)
  }

  function Policy(attrs: seq<Attribute>): string {
    OrEmpty(AttrStr(attrs, "rename_all"))
  }

  function ItemSaid(it: SItem): RItem {
    var attrs := Attrs(it.marks);
    ItemOf(Head(it.Enum?, it.name, false), Docs(it.marks), attrs,
           Body(if it.Struct? then FieldsSaid(Public(it.fields), Policy(attrs)) else [],
                if it.Enum? then VariantsSaid(it.variants, Policy(attrs)) else []))
  }

  function ItemsSaid(items: seq<SItem>): seq<RItem> {
    if items == [] then [] else [ItemSaid(items[0])] + ItemsSaid(items[1..])
  }

  // ---------- What is read ----------

  predicate AnyEnds(inside: seq<Inside>) {
    inside != [] && (inside[0].ends || AnyEnds(inside[1..]))
  }

  /** Whether the closing line of an attribute is taken for something of its own, which wipes out
      what stands above it: always at the level of members, and in column zero when a line inside
      the attribute already ends in a bracket. */
  predicate WipesOut(a: SAttr, top: bool) {
    a.Wrapped? && (!top || AnyEnds(a.inside))
  }

  /** The documentation and the attributes that are left after a run of marks. */
  function Kept(marks: seq<Mark>, top: bool, docs: seq<string>, attrs: seq<Attribute>): (seq<string>, seq<Attribute>) {
    if marks == [] then (docs, attrs)
    else
      match marks[0]
      case Note(text) => Kept(marks[1..], top, docs + [text], attrs)
      case Tag(a) =>
        if WipesOut(a, top) then Kept(marks[1..], top, [], []) else Kept(marks[1..], top, docs, attrs + [a.whole])
  }

  /** The variants read out of the closing lines of attributes in an enum, named `)]` unless the
      opening line says otherwise, each with the documentation that stands above it. */
  function Phantoms(marks: seq<Mark>, policy: string, docs: seq<string>, attrs: seq<Attribute>): seq<RVariant> {
    if marks == [] then []
    else
      match marks[0]
      case Note(text) => Phantoms(marks[1..], policy, docs + [text], attrs)
      case Tag(OnOneLine(whole)) => Phantoms(marks[1..], policy, docs, attrs + [whole])
      case Tag(Wrapped(first, _, _)) =>
        [VariantOf(Other(")]"), policy, docs, attrs + [first], [])] + Phantoms(marks[1..], policy, [], [])
  }

  /** The opening line of an attribute, as a list. */
  function Opening(m: Mark): seq<Attribute> {
    match m
    case Note(_) => []
    case Tag(OnOneLine(whole)) => [whole]
    case Tag(Wrapped(first, _, _)) => [first]
  }

  /** Inside a struct-like variant only the opening line of an attribute is read. */
  function Openings(marks: seq<Mark>): seq<Attribute> {
    if marks == [] then [] else Opening(marks[0]) + Openings(marks[1..])
  }

  function FieldRead(f: SField, policy: string): RField {
    var (docs, attrs) := Kept(f.marks, false, [], []);
    FieldOf(f.name, f.ty, StructWire(f.name, policy), docs, attrs)
  }

  function StructRead(fields: seq<SField>, policy: string): seq<RField> {
    if fields == [] then []
    else
      (if fields[0].isPub && !fields[0].wide then [FieldRead(fields[0], policy)] else [])
      + StructRead(fields[1..], policy)
  }

  /** The fields of a struct-like variant. A name without its type is not read, and what stands
      above it goes to the next thing that reads as a field: the type, if it starts with a path,
      or else the field after it. */
  function InnerRead(fields: seq<SField>, docs: seq<string>, attrs: seq<Attribute>): seq<RField> {
    if fields == [] then []
    else
      var f := fields[0];
      var docs, attrs := docs + Docs(f.marks), attrs + Openings(f.marks);
      if !f.wide then [FieldOf(f.name, f.ty, f.name, docs, attrs)] + InnerRead(fields[1..], [], [])
      else
        var t := TypeAlone(f.ty);
        if t.Field? then [FieldOf(t.name, t.ty, t.name, docs, attrs)] + InnerRead(fields[1..], [], [])
        else InnerRead(fields[1..], docs, attrs)
  }

  function VariantRead(v: SVariant, policy: string): RVariant {
    var (docs, attrs) := Kept(v.marks, false, [], []);
    VariantOf(Variant(v.name, false), policy, docs, attrs, if OneLine(v) then [] else InnerRead(v.fields, [], []))
  }

  function EnumRead(variants: seq<SVariant>, policy: string): seq<RVariant> {
    if variants == [] then []
    else
      Phantoms(variants[0].marks, policy, [], [])
      + ([VariantRead(variants[0], policy)] + EnumRead(variants[1..], policy))
  }

  function ItemRead(it: SItem): RItem {
    var (docs, attrs) := Kept(it.marks, true, [], []);
    ItemOf(Head(it.Enum?, it.name, false), docs, attrs,
           Body(if it.Struct? then StructRead(it.fields, Policy(attrs)) else [],
                if it.Enum? then EnumRead(it.variants, Policy(attrs)) else []))
  }

  /** An item without members is not read at all. */
  function ItemsRead(items: seq<SItem>): seq<RItem> {
    if items == [] then []
    else (if items[0].IsEmpty() then [] else [ItemRead(items[0])]) + ItemsRead(items[1..])
  }
}
