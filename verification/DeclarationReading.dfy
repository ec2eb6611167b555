/** Whatever the formatter decides by width, the reader of `Reflector` makes of its layout what
    `Declarations.ItemsRead` says. */
module DeclarationReading {
  import opened Reflector
  import opened Declarations

  // ---------- Marks ----------

  lemma {:induction false} InsideIsSkipped(inside: seq<Inside>, rest: seq<Line>, docs: seq<string>,
                                           attrs: seq<Attribute>)
    ensures Reflect(InsideLines(4, inside) + rest, docs, attrs) == Reflect(rest, docs, attrs)
  {
    var ls := InsideLines(4, inside) + rest;
    if inside == [] {
      assert ls == rest;
    } else {
      assert ls[1..] == InsideLines(4, inside[1..]) + rest;
      InsideIsSkipped(inside[1..], rest, docs, attrs);
    }
  }

  lemma TopEndWipesOut(rest: seq<Line>, docs: seq<string>, attrs: seq<Attribute>)
    ensures Reflect([AttrEnd(0)] + rest, docs, attrs) == Reflect(rest, [], [])
  {
    assert ([AttrEnd(0)] + rest)[1..] == rest;
  }

  /** In column zero the reader gathers an attribute up to the first line that ends in a bracket;
      when that is not the last one, the last one wipes out what it has gathered. */
  lemma {:induction false} TopAttribute(l: Line, inside: seq<Inside>, rest: seq<Line>, docs: seq<string>,
                                        attrs: seq<Attribute>)
    requires !l.ends
    ensures Reflect(AfterAttribute([l] + (InsideLines(4, inside) + ([AttrEnd(0)] + rest))), docs, attrs)
         == if AnyEnds(inside) then Reflect(rest, [], []) else Reflect(rest, docs, attrs)
    decreases |inside|
  {
    hide Reflect;
    var tail := [AttrEnd(0)] + rest;
    var more := InsideLines(4, inside) + tail;
    assert ([l] + more)[1..] == more;
    if inside == [] {
      assert more == tail && tail[1..] == rest;
    } else {
      var next := Line(4, Other(inside[0].word), inside[0].ends);
      assert more == [next] + (InsideLines(4, inside[1..]) + tail);
      assert more[1..] == InsideLines(4, inside[1..]) + tail;
      if inside[0].ends {
        InsideIsSkipped(inside[1..], tail, docs, attrs);
        TopEndWipesOut(rest, docs, attrs);
      } else {
        TopAttribute(next, inside[1..], rest, docs, attrs);
      }
    }
  }

  /** What a single mark above an item leaves, by its shape. */
  lemma KeptOfTopMark(m: Mark, docs: seq<string>, attrs: seq<Attribute>)
    ensures m.Note? ==> Kept([m], true, docs, attrs) == (docs + [m.text], attrs)
    ensures m.Tag? ==>
      Kept([m], true, docs, attrs)
      == if m.attr.Wrapped? && AnyEnds(m.attr.inside) then ([], []) else (docs, attrs + [m.attr.whole])
  {
    hide AnyEnds;
    assert [m][1..] == [];
  }

  lemma TopLine(m: Mark, rest: seq<Line>, docs: seq<string>, attrs: seq<Attribute>)
    requires m.Note? || m.attr.OnOneLine?
    ensures Reflect(MarkLines(0, m) + rest, docs, attrs)
         == Reflect(rest, if m.Note? then docs + [m.text] else docs, if m.Note? then attrs else attrs + [m.attr.whole])
  {
    var ls := MarkLines(0, m) + rest;
    assert ls[1..] == rest;
  }

  lemma TopWrapped(a: SAttr, rest: seq<Line>, docs: seq<string>, attrs: seq<Attribute>)
    requires a.Wrapped?
    ensures Reflect(MarkLines(0, Tag(a)) + rest, docs, attrs)
         == if AnyEnds(a.inside) then Reflect(rest, [], []) else Reflect(rest, docs, attrs + [a.whole])
  {
    hide InsideLines, AnyEnds, AfterAttribute;
    var l := Line(0, Attr(a.first, a.whole), false);
    assert MarkLines(0, Tag(a)) + rest == [l] + (InsideLines(4, a.inside) + ([AttrEnd(0)] + rest));
    TopAttribute(l, a.inside, rest, docs, attrs + [a.whole]);
  }

  lemma TopMark(m: Mark, rest: seq<Line>, docs: seq<string>, attrs: seq<Attribute>)
    ensures var (docs', attrs') := Kept([m], true, docs, attrs);
      Reflect(MarkLines(0, m) + rest, docs, attrs) == Reflect(rest, docs', attrs')
  {
    hide Reflect, MarkLines, Kept, AnyEnds;
    KeptOfTopMark(m, docs, attrs);
    if m.Tag? && m.attr.Wrapped? {
      TopWrapped(m.attr, rest, docs, attrs);
    } else {
      TopLine(m, rest, docs, attrs);
    }
  }

  lemma {:induction false} KeptStep(marks: seq<Mark>, top: bool, docs: seq<string>, attrs: seq<Attribute>)
    requires marks != []
    ensures var (docs', attrs') := Kept([marks[0]], top, docs, attrs);
      Kept(marks, top, docs, attrs) == Kept(marks[1..], top, docs', attrs')
  {
    assert [marks[0]][1..] == [];
  }

  lemma {:induction false} TopPreamble(marks: seq<Mark>, rest: seq<Line>, docs: seq<string>, attrs: seq<Attribute>)
    ensures var (docs', attrs') := Kept(marks, true, docs, attrs);
      Reflect(Preamble(0, marks) + rest, docs, attrs) == Reflect(rest, docs', attrs')
    decreases |marks|
  {
    hide Reflect, MarkLines;
    if marks == [] {
      assert Preamble(0, marks) + rest == rest;
    } else {
      var tail := Preamble(0, marks[1..]) + rest;
      assert Preamble(0, marks) + rest == MarkLines(0, marks[0]) + tail;
      TopMark(marks[0], tail, docs, attrs);
      KeptStep(marks, true, docs, attrs);
      var (docs', attrs') := Kept([marks[0]], true, docs, attrs);
      TopPreamble(marks[1..], rest, docs', attrs');
    }
  }

  lemma {:induction false} InsideIsSkippedInBody(inside: seq<Inside>, rest: seq<Line>, isEnum: bool, policy: string,
                                                 docs: seq<string>, attrs: seq<Attribute>)
    ensures ReadBody(InsideLines(8, inside) + rest, isEnum, policy, docs, attrs)
         == ReadBody(rest, isEnum, policy, docs, attrs)
    decreases |inside|
  {
    var ls := InsideLines(8, inside) + rest;
    if inside == [] {
      assert ls == rest;
    } else {
      assert ls[1..] == InsideLines(8, inside[1..]) + rest;
      InsideIsSkippedInBody(inside[1..], rest, isEnum, policy, docs, attrs);
    }
  }

  /** A body with variants read earlier put in front. */
  function Behind(variants: seq<RVariant>, r: (Body, seq<Line>)): (Body, seq<Line>) {
    (Body(r.0.fields, variants + r.0.variants), r.1)
  }

  lemma BehindNothing(r: (Body, seq<Line>))
    ensures Behind([], r) == r
  {
    assert [] + r.0.variants == r.0.variants;
  }

  lemma BehindBoth(a: seq<RVariant>, b: seq<RVariant>, r: (Body, seq<Line>))
    ensures Behind(a, Behind(b, r)) == Behind(a + b, r)
  {
    assert a + (b + r.0.variants) == a + b + r.0.variants;
  }

  function MemberPhantoms(isEnum: bool, marks: seq<Mark>, policy: string, docs: seq<string>, attrs: seq<Attribute>)
    : seq<RVariant>
  {
    if isEnum then Phantoms(marks, policy, docs, attrs) else []
  }

  /** The closing line of an attribute above a member: a variant in an enum, nothing that can be
      read in a struct, and the end of what stands above it in both. */
  lemma EndInBody(rest: seq<Line>, isEnum: bool, policy: string, docs: seq<string>, attrs: seq<Attribute>)
    ensures ReadBody([AttrEnd(4)] + rest, isEnum, policy, docs, attrs)
         == Behind(if isEnum then [VariantOf(Other(")]"), policy, docs, attrs, [])] else [],
                   ReadBody(rest, isEnum, policy, [], []))
  {
    hide VariantOf;
    var ls := [AttrEnd(4)] + rest;
    assert ls[1..] == rest;
    BehindNothing(ReadBody(rest, isEnum, policy, [], []));
  }

  lemma WrappedInBody(a: SAttr, rest: seq<Line>, isEnum: bool, policy: string, docs: seq<string>, attrs: seq<Attribute>)
    requires a.Wrapped?
    ensures ReadBody(MarkLines(4, Tag(a)) + rest, isEnum, policy, docs, attrs)
         == Behind(if isEnum then [VariantOf(Other(")]"), policy, docs, attrs + [a.first], [])] else [],
                   ReadBody(rest, isEnum, policy, [], []))
  {
    hide VariantOf, Behind;
    var ls, tail := MarkLines(4, Tag(a)) + rest, [AttrEnd(4)] + rest;
    assert ls[1..] == InsideLines(8, a.inside) + tail;
    InsideIsSkippedInBody(a.inside, tail, isEnum, policy, docs, attrs + [a.first]);
    EndInBody(rest, isEnum, policy, docs, attrs + [a.first]);
  }

  /** A mark on one line above a member adds what it says and gives no variant. */
  lemma LineInBody(m: Mark, rest: seq<Line>, isEnum: bool, policy: string, docs: seq<string>, attrs: seq<Attribute>)
    requires m.Note? || m.attr.OnOneLine?
    ensures ReadBody(MarkLines(4, m) + rest, isEnum, policy, docs, attrs)
         == ReadBody(rest, isEnum, policy, if m.Note? then docs + [m.text] else docs,
                     if m.Note? then attrs else attrs + [m.attr.whole])
  {
    var ls := MarkLines(4, m) + rest;
    assert ls[1..] == rest && ls[0].indent == 4;
  }

  /** What a single mark leaves and gives, by its shape. */
  lemma OfOneMark(m: Mark, policy: string, docs: seq<string>, attrs: seq<Attribute>)
    ensures m.Note? ==> Kept([m], false, docs, attrs) == (docs + [m.text], attrs)
    ensures m.Tag? && m.attr.OnOneLine? ==> Kept([m], false, docs, attrs) == (docs, attrs + [m.attr.whole])
    ensures m.Tag? && m.attr.Wrapped? ==> Kept([m], false, docs, attrs) == ([], [])
    ensures Phantoms([m], policy, docs, attrs) == if m.Tag? && m.attr.Wrapped?
      then [VariantOf(Other(")]"), policy, docs, attrs + [m.attr.first], [])] else []
  {
    hide VariantOf;
    assert [m][1..] == [];
    if m.Tag? && m.attr.Wrapped? {
      var phantom := VariantOf(Other(")]"), policy, docs, attrs + [m.attr.first], []);
      assert Phantoms([], policy, [], []) == [] && [phantom] + [] == [phantom];
    }
  }

  lemma MemberMark(m: Mark, rest: seq<Line>, isEnum: bool, policy: string, docs: seq<string>, attrs: seq<Attribute>)
    ensures var (docs', attrs') := Kept([m], false, docs, attrs);
      ReadBody(MarkLines(4, m) + rest, isEnum, policy, docs, attrs)
      == Behind(MemberPhantoms(isEnum, [m], policy, docs, attrs), ReadBody(rest, isEnum, policy, docs', attrs'))
  {
    hide VariantOf, Behind, ReadBody, MarkLines, Kept, Phantoms;
    OfOneMark(m, policy, docs, attrs);
    var (docs', attrs') := Kept([m], false, docs, attrs);
    if m.Tag? && m.attr.Wrapped? {
      WrappedInBody(m.attr, rest, isEnum, policy, docs, attrs);
    } else {
      LineInBody(m, rest, isEnum, policy, docs, attrs);
      BehindNothing(ReadBody(rest, isEnum, policy, docs', attrs'));
    }
  }

  lemma PhantomsStep(marks: seq<Mark>, policy: string, docs: seq<string>, attrs: seq<Attribute>)
    requires marks != []
    ensures var (docs', attrs') := Kept([marks[0]], false, docs, attrs);
      Phantoms(marks, policy, docs, attrs)
      == Phantoms([marks[0]], policy, docs, attrs) + Phantoms(marks[1..], policy, docs', attrs')
  {
    hide VariantOf, Kept;
    OfOneMark(marks[0], policy, docs, attrs);
    var (docs', attrs') := Kept([marks[0]], false, docs, attrs);
    assert [] + Phantoms(marks[1..], policy, docs', attrs') == Phantoms(marks[1..], policy, docs', attrs');
  }

  lemma {:induction false} MemberPreamble(marks: seq<Mark>, rest: seq<Line>, isEnum: bool, policy: string,
                                          docs: seq<string>, attrs: seq<Attribute>)
    ensures var (docs', attrs') := Kept(marks, false, docs, attrs);
      ReadBody(Preamble(4, marks) + rest, isEnum, policy, docs, attrs)
      == Behind(MemberPhantoms(isEnum, marks, policy, docs, attrs), ReadBody(rest, isEnum, policy, docs', attrs'))
    decreases |marks|
  {
    hide ReadBody, MarkLines, Behind;
    if marks == [] {
      assert Preamble(4, marks) + rest == rest;
      BehindNothing(ReadBody(rest, isEnum, policy, docs, attrs));
    } else {
      var tail := Preamble(4, marks[1..]) + rest;
      var (docs', attrs') := Kept([marks[0]], false, docs, attrs);
      var (docs2, attrs2) := Kept(marks, false, docs, attrs);
      assert Preamble(4, marks) + rest == MarkLines(4, marks[0]) + tail;
      MemberMark(marks[0], tail, isEnum, policy, docs, attrs);
      KeptStep(marks, false, docs, attrs);
      PhantomsStep(marks, policy, docs, attrs);
      MemberPreamble(marks[1..], rest, isEnum, policy, docs', attrs');
      BehindBoth(MemberPhantoms(isEnum, [marks[0]], policy, docs, attrs),
                 MemberPhantoms(isEnum, marks[1..], policy, docs', attrs'),
                 ReadBody(rest, isEnum, policy, docs2, attrs2));
      assert MemberPhantoms(isEnum, [marks[0]], policy, docs, attrs)
          + MemberPhantoms(isEnum, marks[1..], policy, docs', attrs')
          == MemberPhantoms(isEnum, marks, policy, docs, attrs);
    }
  }

  lemma {:induction false} InsideIsSkippedInVariant(inside: seq<Inside>, rest: seq<Line>, docs: seq<string>,
                                                    attrs: seq<Attribute>)
    ensures ReadVariant(InsideLines(12, inside) + rest, docs, attrs) == ReadVariant(rest, docs, attrs)
    decreases |inside|
  {
    var ls := InsideLines(12, inside) + rest;
    if inside == [] {
      assert ls == rest;
    } else {
      assert ls[1..] == InsideLines(12, inside[1..]) + rest;
      InsideIsSkippedInVariant(inside[1..], rest, docs, attrs);
    }
  }

  lemma WrappedInVariant(a: SAttr, rest: seq<Line>, docs: seq<string>, attrs: seq<Attribute>)
    requires a.Wrapped?
    ensures ReadVariant(MarkLines(8, Tag(a)) + rest, docs, attrs) == ReadVariant(rest, docs, attrs + [a.first])
  {
    var ls, tail := MarkLines(8, Tag(a)) + rest, [AttrEnd(8)] + rest;
    assert ls[1..] == InsideLines(12, a.inside) + tail && tail[1..] == rest;
    InsideIsSkippedInVariant(a.inside, tail, docs, attrs + [a.first]);
  }

  lemma LineInVariant(m: Mark, rest: seq<Line>, docs: seq<string>, attrs: seq<Attribute>)
    requires m.Note? || m.attr.OnOneLine?
    ensures ReadVariant(MarkLines(8, m) + rest, docs, attrs)
         == ReadVariant(rest, if m.Note? then docs + [m.text] else docs,
                        if m.Note? then attrs else attrs + [m.attr.whole])
  {
    var ls := MarkLines(8, m) + rest;
    assert ls[1..] == rest;
  }

  lemma InnerMark(m: Mark, rest: seq<Line>, docs: seq<string>, attrs: seq<Attribute>)
    ensures ReadVariant(MarkLines(8, m) + rest, docs, attrs) == ReadVariant(rest, docs + Text(m), attrs + Opening(m))
  {
    hide ReadVariant, MarkLines;
    assert docs + [] == docs && attrs + [] == attrs;
    if m.Tag? && m.attr.Wrapped? {
      WrappedInVariant(m.attr, rest, docs, attrs);
    } else {
      LineInVariant(m, rest, docs, attrs);
    }
  }

  lemma MarksSplit(marks: seq<Mark>)
    requires marks != []
    ensures Docs(marks) == Text(marks[0]) + Docs(marks[1..])
    ensures Openings(marks) == Opening(marks[0]) + Openings(marks[1..])
  {
  }

  lemma {:induction false} InnerPreamble(marks: seq<Mark>, rest: seq<Line>, docs: seq<string>, attrs: seq<Attribute>)
    ensures ReadVariant(Preamble(8, marks) + rest, docs, attrs)
         == ReadVariant(rest, docs + Docs(marks), attrs + Openings(marks))
    decreases |marks|
  {
    hide ReadVariant, MarkLines, Text, Opening;
    if marks == [] {
      assert Preamble(8, marks) + rest == rest && docs + Docs(marks) == docs && attrs + Openings(marks) == attrs;
    } else {
      var tail := Preamble(8, marks[1..]) + rest;
      assert Preamble(8, marks) + rest == MarkLines(8, marks[0]) + tail;
      InnerMark(marks[0], tail, docs, attrs);
      MarksSplit(marks);
      InnerPreamble(marks[1..], rest, docs + Text(marks[0]), attrs + Opening(marks[0]));
      assert docs + Text(marks[0]) + Docs(marks[1..]) == docs + Docs(marks);
      assert attrs + Opening(marks[0]) + Openings(marks[1..]) == attrs + Openings(marks);
    }
  }

  // ---------- Members ----------

  lemma FieldInBody(f: SField, tail: seq<Line>, policy: string, docs: seq<string>, attrs: seq<Attribute>)
    ensures ReadBody(OneField(4, true, f) + tail, false, policy, docs, attrs) ==
      var r := ReadBody(tail, false, policy, [], []);
      if f.isPub && !f.wide
      then (Body([FieldOf(f.name, f.ty, StructWire(f.name, policy), docs, attrs)] + r.0.fields, r.0.variants), r.1)
      else r
  {
    hide FieldOf, StructWire, TypeAlone;
    var ls := OneField(4, true, f) + tail;
    if f.wide {
      var below := [Line(8, TypeAlone(f.ty), false)] + tail;
      assert ls[1..] == below && below[1..] == tail;
      TypeIsNotBlank(f.ty);
    } else {
      assert ls[1..] == tail;
    }
  }

  lemma TypeIsNotBlank(ty: string)
    ensures TypeAlone(ty).Field? || TypeAlone(ty).Other?
  {
  }

  /** The fields of a struct come back in order, the public ones that do not have their type on a
      line of its own, with what is left of their marks. */
  lemma {:induction false} StructReadsBack(fields: seq<SField>, policy: string, rest: seq<Line>)
    requires rest != [] && rest[0].ClosesItem()
    ensures ReadBody(FieldLines(4, true, fields) + rest, false, policy, [], [])
         == (Body(StructRead(fields, policy), []), rest)
  {
    hide OneField, Preamble, Behind;
    if fields == [] {
      assert FieldLines(4, true, fields) + rest == rest;
    } else {
      hide ReadBody;
      var f, tail := fields[0], FieldLines(4, true, fields[1..]) + rest;
      assert FieldLines(4, true, fields) + rest == Preamble(4, f.marks) + (OneField(4, true, f) + tail);
      MemberPreamble(f.marks, OneField(4, true, f) + tail, false, policy, [], []);
      var (docs, attrs) := Kept(f.marks, false, [], []);
      BehindNothing(ReadBody(OneField(4, true, f) + tail, false, policy, docs, attrs));
      FieldInBody(f, tail, policy, docs, attrs);
      StructReadsBack(fields[1..], policy, rest);
      assert [] + StructRead(fields[1..], policy) == StructRead(fields[1..], policy);
    }
  }

  lemma FieldInVariant(f: SField, tail: seq<Line>, docs: seq<string>, attrs: seq<Attribute>)
    ensures ReadVariant(OneField(8, false, f) + tail, docs, attrs) ==
      var r, t := ReadVariant(tail, [], []), TypeAlone(f.ty);
      if !f.wide then ([FieldOf(f.name, f.ty, f.name, docs, attrs)] + r.0, r.1)
      else if t.Field? then ([FieldOf(t.name, t.ty, t.name, docs, attrs)] + r.0, r.1)
      else ReadVariant(tail, docs, attrs)
  {
    hide FieldOf, TypeAlone;
    var ls := OneField(8, false, f) + tail;
    if f.wide {
      var below := [Line(12, TypeAlone(f.ty), false)] + tail;
      assert ls[1..] == below && below[1..] == tail;
      TypeIsNotBlank(f.ty);
    } else {
      assert ls[1..] == tail;
    }
  }

  lemma {:induction false} VariantFieldsReadBack(fields: seq<SField>, rest: seq<Line>, docs: seq<string>,
                                                 attrs: seq<Attribute>)
    requires rest != [] && rest[0].token.Close?
    ensures ReadVariant(FieldLines(8, false, fields) + rest, docs, attrs) == (InnerRead(fields, docs, attrs), rest)
    decreases |fields|
  {
    hide OneField, Preamble, FieldOf, TypeAlone;
    if fields == [] {
      assert FieldLines(8, false, fields) + rest == rest;
    } else {
      hide ReadVariant;
      var f, tail := fields[0], FieldLines(8, false, fields[1..]) + rest;
      var docs', attrs' := docs + Docs(f.marks), attrs + Openings(f.marks);
      assert FieldLines(8, false, fields) + rest == Preamble(8, f.marks) + (OneField(8, false, f) + tail);
      InnerPreamble(f.marks, OneField(8, false, f) + tail, docs, attrs);
      FieldInVariant(f, tail, docs', attrs');
      TypeIsNotBlank(f.ty);
      if f.wide && TypeAlone(f.ty).Other? {
        VariantFieldsReadBack(fields[1..], rest, docs', attrs');
      } else {
        VariantFieldsReadBack(fields[1..], rest, [], []);
      }
    }
  }

  lemma OneVariantReadsBack(v: SVariant, policy: string, tail: seq<Line>, docs: seq<string>, attrs: seq<Attribute>)
    ensures ReadBody([VariantHead(v)] + (InnerLines(v) + tail), true, policy, docs, attrs)
         == Behind([VariantOf(Variant(v.name, false), policy, docs, attrs,
                              if OneLine(v) then [] else InnerRead(v.fields, [], []))],
                   ReadBody(tail, true, policy, [], []))
  {
    hide JoinDoc, ReadVariant, Bare, FieldLines;
    var ls := [VariantHead(v)] + (InnerLines(v) + tail);
    assert ls[1..] == InnerLines(v) + tail;
    if v.fields == [] || OneLine(v) {
      assert InnerLines(v) + tail == tail && InnerRead([], [], []) == [];
    } else {
      var closed := [Line(4, Close, false)] + tail;
      assert InnerLines(v) + tail == FieldLines(8, false, v.fields) + closed && closed[1..] == tail;
      VariantFieldsReadBack(v.fields, closed, [], []);
    }
  }

  lemma RestGoesLast<T>(a: seq<T>, b: seq<T>, c: seq<T>, d: seq<T>, rest: seq<T>)
    ensures (a + (b + (c + d))) + rest == a + (b + (c + (d + rest)))
  {
  }

  /** The variants of an enum come back in order, each behind the phantoms its wrapped attributes
      read as. */
  lemma {:induction false} EnumReadsBack(variants: seq<SVariant>, policy: string, rest: seq<Line>)
    requires rest != [] && rest[0].ClosesItem()
    ensures ReadBody(VariantLines(variants) + rest, true, policy, [], [])
         == (Body([], EnumRead(variants, policy)), rest)
  {
    hide Preamble, InnerLines, VariantHead, VariantOf, InnerRead, Phantoms, OneLine;
    if variants == [] {
      assert VariantLines(variants) + rest == rest;
    } else {
      hide ReadBody;
      var v, tail := variants[0], VariantLines(variants[1..]) + rest;
      RestGoesLast(Preamble(4, v.marks), [VariantHead(v)], InnerLines(v), VariantLines(variants[1..]), rest);
      MemberPreamble(v.marks, [VariantHead(v)] + (InnerLines(v) + tail), true, policy, [], []);
      var (docs, attrs) := Kept(v.marks, false, [], []);
      OneVariantReadsBack(v, policy, tail, docs, attrs);
      EnumReadsBack(variants[1..], policy, rest);
      assert Behind([VariantRead(v, policy)], (Body([], EnumRead(variants[1..], policy)), rest))
          == (Body([], [VariantRead(v, policy)] + EnumRead(variants[1..], policy)), rest);
    }
  }

  lemma MembersReadBack(it: SItem, policy: string, rest: seq<Line>)
    requires rest != [] && rest[0].ClosesItem()
    ensures ReadBody(MemberLines(it) + rest, it.Enum?, policy, [], []) ==
      (Body(if it.Struct? then StructRead(it.fields, policy) else [],
            if it.Enum? then EnumRead(it.variants, policy) else []), rest)
  {
    match it
    case Struct(_, _, fields) => StructReadsBack(fields, policy, rest);
    case Enum(_, _, variants) => EnumReadsBack(variants, policy, rest);
  }

  // ---------- Items ----------

  /** For any list of structs with named fields and enums with unit or struct-like variants,
      whatever the formatter decides by width: this is what comes back. */
  lemma {:induction false} ReflectReadsLayout(items: seq<SItem>)
    requires forall it :: it in items ==> it.name != ""
    ensures Reflect(Layout(items), [], []) == ItemsRead(items)
  {
    hide Reflect, Preamble, MemberLines, ItemRead;
    if items == [] {
      NothingReflected();
    } else {
      var it, next := items[0], Layout(items[1..]);
      assert items == [it] + items[1..];
      ReflectReadsLayout(items[1..]);
      if it.IsEmpty() {
        EmptyItemIsSkipped(it, next);
        assert ItemsRead(items) == ItemsRead(items[1..]);
      } else {
        ItemReadsBack(it, next);
      }
    }
  }

  lemma NothingReflected()
    ensures Reflect([], [], []) == []
  {
  }

  lemma EmptyItemIsSkipped(it: SItem, next: seq<Line>)
    ensures Reflect(Preamble(0, it.marks) + ([EMPTY_ITEM, BLANK_LINE] + next), [], []) == Reflect(next, [], [])
  {
    var ls := [EMPTY_ITEM, BLANK_LINE] + next;
    TopPreamble(it.marks, ls, [], []);
    assert ls[1..] == [BLANK_LINE] + next && ls[1..][1..] == next;
  }

  lemma ItemReadsBack(it: SItem, next: seq<Line>)
    requires it.name != ""
    ensures Reflect(Preamble(0, it.marks)
                    + ([Line(0, Head(it.Enum?, it.name, false), false)]
                       + (MemberLines(it) + ([ITEM_END, BLANK_LINE] + next))), [], [])
         == [ItemRead(it)] + Reflect(next, [], [])
  {
    hide AttrStr, MemberLines, Preamble, ReadBody, StructRead, EnumRead, Kept, ItemOf;
    var head := Line(0, Head(it.Enum?, it.name, false), false);
    var tail := [ITEM_END, BLANK_LINE] + next;
    var (docs, attrs) := Kept(it.marks, true, [], []);
    TopPreamble(it.marks, [head] + (MemberLines(it) + tail), [], []);
    assert ([head] + (MemberLines(it) + tail))[1..] == MemberLines(it) + tail;
    MembersReadBack(it, Policy(attrs), tail);
    AfterItem(next);
  }

  lemma AfterItem(next: seq<Line>)
    ensures Reflect([ITEM_END, BLANK_LINE] + next, [], []) == Reflect(next, [], [])
  {
    var ls := [ITEM_END, BLANK_LINE] + next;
    assert ls[1..] == [BLANK_LINE] + next && ls[1..][1..] == next;
  }
}
