/** Reading struct and enum declarations back out of formatted source.

    Lines arrive classified: how far each is indented and what it holds. `Reflect` is what the
    reading loop computes. */
module Reflector {
  import opened Wrappers

  // ---------- Lines ----------

  /** What the text of an attribute says. `values` gives, for a key, the quoted text after the first
      `key = "` (the end of a longer option name counts too); `words` are the options between
      parentheses and commas. Only serde's own attributes count as flags. */
  datatype Attribute = Attribute(serde: bool, values: map<string, string>, words: set<string>)

  /** A line that starts an attribute has two readings: `attr`, what the line says alone, and
      `whole`, what it says together with the lines after it up to the first that ends in a
      bracket. `Other` keeps the word it starts with. */
  datatype Token =
    | Blank
    | Doc(text: string)
    | Attr(attr: Attribute, whole: Attribute)
    | Comment
    | Head(isEnum: bool, name: string, generic: bool)
    | Field(isPub: bool, name: string, ty: string)
    | Variant(name: string, opens: bool)
    | Close
    | Other(word: string)

  /** `ends` says that the line ends in a closing bracket, as an attribute does. */
  datatype Line = Line(indent: nat, token: Token, ends: bool) {
    /** A closing brace in column zero. */
    predicate ClosesItem() {
      indent == 0 && token.Close?
    }
  }

  // ---------- Results ----------

  datatype RField = RField(rustName: string, wireName: string, ty: string, doc: string,
                           hasDefault: bool, flatten: bool, with_: string)

  datatype RVariant = RVariant(wireName: string, doc: string, fields: seq<RField>)

  datatype RItem = RItem(name: string, doc: string, isEnum: bool, tag: string, denyUnknown: bool,
                         fields: seq<RField>, variants: seq<RVariant>)

  // ---------- Names, attributes and documentation ----------

  function ToLower(c: char): char {
    if 'A' <= c <= 'Z' then c + ('a' - 'A') else c
  }

  function Lowered(s: string): string {
    if s == "" then "" else [ToLower(s[0])] + Lowered(s[1..])
  }

  function Separated(s: string, separator: char, first: bool): string {
    if s == "" then ""
    else
      (if 'A' <= s[0] <= 'Z' then (if first then "" else [separator]) + [ToLower(s[0])] else [s[0]])
      + Separated(s[1..], separator, false)
  }

  function RenameAll(name: string, policy: string): string {
    if policy == "lowercase" then Lowered(name)
    else if policy == "kebab-case" then Separated(name, '-', true)
    else if policy == "snake_case" then Separated(name, '_', true)
    else name
  }

  /** The value of the first attribute that gives the key one. */
  function AttrStr(attrs: seq<Attribute>, key: string): Option<string> {
    if attrs == [] then None
    else if key in attrs[0].values then Some(attrs[0].values[key])
    else AttrStr(attrs[1..], key)
  }

  /** Whether some serde attribute has the word, bare or with a value. */
  predicate AttrFlag(attrs: seq<Attribute>, key: string) {
    attrs != [] &&
    ((attrs[0].serde && (key in attrs[0].words || key in attrs[0].values)) || AttrFlag(attrs[1..], key))
  }

  function OrEmpty(o: Option<string>): string {
    if o.Some? then o.value else ""
  }

  /** The first paragraph of a run of documentation lines, on one line. */
  function FirstParagraph(docs: seq<string>, out: string): string {
    if docs == [] then out
    else if docs[0] == "" then (if out == "" then FirstParagraph(docs[1..], out) else out)
    else FirstParagraph(docs[1..], if out == "" then docs[0] else out + " " + docs[0])
  }

  function ReplacePair(s: string, a: char, b: char, c: char): string {
    if |s| < 2 then s
    else if s[0] == a && s[1] == b then [c] + ReplacePair(s[2..], a, b, c)
    else [s[0]] + ReplacePair(s[1..], a, b, c)
  }

  function JoinDoc(docs: seq<string>): string {
    ReplacePair(ReplacePair(FirstParagraph(docs, ""), '[', '`', '`'), '`', ']', '`')
  }

  function FieldOf(name: string, ty: string, wire: string, docs: seq<string>, attrs: seq<Attribute>): RField {
    RField(name, if AttrStr(attrs, "rename").Some? then AttrStr(attrs, "rename").value else wire, ty, JoinDoc(docs),
           AttrFlag(attrs, "default"), AttrFlag(attrs, "flatten"), OrEmpty(AttrStr(attrs, "with")))
  }

  function StructWire(name: string, policy: string): string {
    if policy == "" then name else RenameAll(name, policy)
  }

  // ---------- What the reading loops compute ----------

  /** The fields of a struct-like variant, up to its closing brace, and the lines from there. */
  function ReadVariant(ls: seq<Line>, docs: seq<string>, attrs: seq<Attribute>): (seq<RField>, seq<Line>) {
    if ls == [] || ls[0].token.Close? then ([], ls)
    else
      var t := ls[0].token;
      if t.Doc? then ReadVariant(ls[1..], docs + [t.text], attrs)
      else if t.Attr? then ReadVariant(ls[1..], docs, attrs + [t.attr])
      else if t.Field? then
        var (fields, rest) := ReadVariant(ls[1..], [], []);
        ([FieldOf(t.name, t.ty, t.name, docs, attrs)] + fields, rest)
      else ReadVariant(ls[1..], docs, attrs)
  }

  lemma {:induction false} ReadVariantShortens(ls: seq<Line>, docs: seq<string>, attrs: seq<Attribute>)
    ensures |ReadVariant(ls, docs, attrs).1| <= |ls|
  {
    if ls != [] && !ls[0].token.Close? {
      var t := ls[0].token;
      if t.Doc? {
        ReadVariantShortens(ls[1..], docs + [t.text], attrs);
      } else if t.Attr? {
        ReadVariantShortens(ls[1..], docs, attrs + [t.attr]);
      } else if t.Field? {
        ReadVariantShortens(ls[1..], [], []);
      } else {
        ReadVariantShortens(ls[1..], docs, attrs);
      }
    }
  }

  datatype Body = Body(fields: seq<RField>, variants: seq<RVariant>)

  /** What stands at the level of an enum's members when it is no documentation, attribute or
      comment is taken for a variant, whatever it is: this is the word it is named by. */
  function MemberName(t: Token): string {
    match t
    case Variant(name, _) => name
    case Field(isPub, name, _) => if isPub then "pub" else name + ":"
    case Head(_, _, _) => "pub"
    case Close => "}"
    case Other(word) => word
    case _ => ""
  }

  function VariantOf(t: Token, policy: string, docs: seq<string>, attrs: seq<Attribute>, fields: seq<RField>)
    : RVariant
  {
    var rename := AttrStr(attrs, "rename");
    RVariant(if rename.Some? then rename.value else RenameAll(MemberName(t), policy), JoinDoc(docs), fields)
  }

  /** The members of an item, up to the closing brace at column zero, and the lines from
      there. */
  function ReadBody(ls: seq<Line>, isEnum: bool, policy: string, docs: seq<string>, attrs: seq<Attribute>)
    : (Body, seq<Line>)
    decreases |ls|
  {
    if ls == [] || ls[0].ClosesItem() then (Body([], []), ls)
    else
      var t := ls[0].token;
      if t.Blank? then ReadBody(ls[1..], isEnum, policy, if docs == [] then docs else docs + [""], attrs)
      else if ls[0].indent != 4 then ReadBody(ls[1..], isEnum, policy, docs, attrs)
      else if t.Doc? then ReadBody(ls[1..], isEnum, policy, docs + [t.text], attrs)
      else if t.Attr? then ReadBody(ls[1..], isEnum, policy, docs, attrs + [t.attr])
      else if t.Comment? then ReadBody(ls[1..], isEnum, policy, docs, attrs)
      else if isEnum then
        var (fields, rest) := if t.Variant? && t.opens then ReadVariant(ls[1..], [], []) else ([], ls);
        ReadVariantShortens(ls[1..], [], []);
        var (body, after) := ReadBody(if rest == [] then [] else rest[1..], isEnum, policy, [], []);
        (Body(body.fields, [VariantOf(t, policy, docs, attrs, fields)] + body.variants), after)
      else
        var (body, after) := ReadBody(ls[1..], isEnum, policy, [], []);
        if t.Field? && t.isPub then
          (Body([FieldOf(t.name, t.ty, StructWire(t.name, policy), docs, attrs)] + body.fields, body.variants), after)
        else (body, after)
  }

  lemma {:induction false} ReadBodyShortens(ls: seq<Line>, isEnum: bool, policy: string, docs: seq<string>,
                                            attrs: seq<Attribute>)
    ensures |ReadBody(ls, isEnum, policy, docs, attrs).1| <= |ls|
    decreases |ls|
  {
    if ls != [] && !ls[0].ClosesItem() {
      var t := ls[0].token;
      if t.Blank? {
        ReadBodyShortens(ls[1..], isEnum, policy, if docs == [] then docs else docs + [""], attrs);
      } else if ls[0].indent != 4 || t.Comment? {
        ReadBodyShortens(ls[1..], isEnum, policy, docs, attrs);
      } else if t.Doc? {
        ReadBodyShortens(ls[1..], isEnum, policy, docs + [t.text], attrs);
      } else if t.Attr? {
        ReadBodyShortens(ls[1..], isEnum, policy, docs, attrs + [t.attr]);
      } else if isEnum && t.Variant? && t.opens {
        var rest := ReadVariant(ls[1..], [], []).1;
        ReadVariantShortens(ls[1..], [], []);
        ReadBodyShortens(if rest == [] then [] else rest[1..], isEnum, policy, [], []);
      } else {
        ReadBodyShortens(ls[1..], isEnum, policy, [], []);
      }
    }
  }

  function ItemOf(h: Token, docs: seq<string>, attrs: seq<Attribute>, body: Body): RItem
    requires h.Head?
  {
    RItem(h.name, JoinDoc(docs), h.isEnum, OrEmpty(AttrStr(attrs, "tag")), AttrFlag(attrs, "deny_unknown_fields"),
          body.fields, body.variants)
  }

  /** The lines behind an attribute in column zero, which may go on over several lines: it ends
      with the first that ends in a bracket, or with the file. */
  function AfterAttribute(ls: seq<Line>): (rest: seq<Line>)
    requires ls != []
    ensures |rest| < |ls|
  {
    if ls[0].ends || |ls| == 1 then ls[1..] else AfterAttribute(ls[1..])
  }

  function Reflect(ls: seq<Line>, docs: seq<string>, attrs: seq<Attribute>): seq<RItem>
    decreases |ls|
  {
    if ls == [] then []
    else
      var t := ls[0].token;
      if t.Blank? then Reflect(ls[1..], if docs == [] then docs else docs + [""], attrs)
      else if ls[0].indent > 0 then Reflect(ls[1..], docs, attrs)
      else if t.Doc? then Reflect(ls[1..], docs + [t.text], attrs)
      else if t.Attr? then Reflect(AfterAttribute(ls), docs, attrs + [t.whole])
      else if t.Comment? then Reflect(ls[1..], docs, attrs)
      else if t.Head? then
        var policy := OrEmpty(AttrStr(attrs, "rename_all"));
        var (body, rest) := ReadBody(ls[1..], t.isEnum, policy, [], []);
        ReadBodyShortens(ls[1..], t.isEnum, policy, [], []);
        (if !t.generic && t.name != "" then [ItemOf(t, docs, attrs, body)] else []) + Reflect(rest, [], [])
      else Reflect(ls[1..], [], [])
  }

  // ---------- The reading loops ----------

  /** A list of fields with fields read earlier put in front. */
  function AfterFields(fields: seq<RField>, r: (seq<RField>, seq<Line>)): (seq<RField>, seq<Line>) {
    (fields + r.0, r.1)
  }

  lemma AfterOneField(fields: seq<RField>, f: RField, r: (seq<RField>, seq<Line>))
    ensures AfterFields(fields, ([f] + r.0, r.1)) == AfterFields(fields + [f], r)
  {
    assert fields + ([f] + r.0) == fields + [f] + r.0;
  }

  lemma AfterNoFields(r: (seq<RField>, seq<Line>))
    ensures AfterFields([], r) == r
  {
    assert [] + r.0 == r.0;
  }

  lemma NoFieldsAfter(fields: seq<RField>, rest: seq<Line>)
    ensures AfterFields(fields, ([], rest)) == (fields, rest)
  {
    assert fields + [] == fields;
  }

  method ReflectVariant(lines: seq<Line>, start: nat) returns (fields: seq<RField>, i: nat)
    requires start <= |lines|
    ensures start <= i <= |lines|
    ensures (fields, lines[i..]) == ReadVariant(lines[start..], [], [])
  {
    hide FieldOf, AfterFields;
    i, fields := start, [];
    var docs: seq<string>, attrs: seq<Attribute> := [], [];
    AfterNoFields(ReadVariant(lines[start..], [], []));
    while i < |lines| && !lines[i].token.Close?
      invariant start <= i <= |lines|
      invariant ReadVariant(lines[start..], [], []) == AfterFields(fields, ReadVariant(lines[i..], docs, attrs))
      decreases |lines| - i
    {
      var t := lines[i].token;
      assert lines[i..][1..] == lines[i + 1..];
      if t.Doc? {
        docs := docs + [t.text];
      } else if t.Attr? {
        attrs := attrs + [t.attr];
      } else if t.Field? {
        var f := FieldOf(t.name, t.ty, t.name, docs, attrs);
        AfterOneField(fields, f, ReadVariant(lines[i + 1..], [], []));
        fields := fields + [f];
        docs, attrs := [], [];
      }
      i := i + 1;
    }
    NoFieldsAfter(fields, lines[i..]);
  }

  /** A result with members read earlier put in front. */
  function After(fields: seq<RField>, variants: seq<RVariant>, r: (Body, seq<Line>)): (Body, seq<Line>) {
    (Body(fields + r.0.fields, variants + r.0.variants), r.1)
  }

  lemma AfterField(fields: seq<RField>, variants: seq<RVariant>, f: RField, r: (Body, seq<Line>))
    ensures After(fields, variants, (Body([f] + r.0.fields, r.0.variants), r.1)) == After(fields + [f], variants, r)
  {
    assert fields + ([f] + r.0.fields) == fields + [f] + r.0.fields;
  }

  lemma AfterVariant(fields: seq<RField>, variants: seq<RVariant>, v: RVariant, r: (Body, seq<Line>))
    ensures After(fields, variants, (Body(r.0.fields, [v] + r.0.variants), r.1)) == After(fields, variants + [v], r)
  {
    assert variants + ([v] + r.0.variants) == variants + [v] + r.0.variants;
  }

  lemma AfterNothing(r: (Body, seq<Line>))
    ensures After([], [], r) == r
  {
    assert [] + r.0.fields == r.0.fields && [] + r.0.variants == r.0.variants;
  }

  lemma NothingAfter(fields: seq<RField>, variants: seq<RVariant>, rest: seq<Line>)
    ensures After(fields, variants, (Body([], []), rest)) == (Body(fields, variants), rest)
  {
    assert fields + [] == fields && variants + [] == variants;
  }

  method ReflectBody(lines: seq<Line>, start: nat, isEnum: bool, policy: string) returns (body: Body, i: nat)
    requires start <= |lines|
    ensures start <= i <= |lines|
    ensures (body, lines[i..]) == ReadBody(lines[start..], isEnum, policy, [], [])
  {
    hide FieldOf, VariantOf, StructWire, ReadVariant, After;
    i := start;
    var fields: seq<RField>, variants: seq<RVariant> := [], [];
    var docs: seq<string>, attrs: seq<Attribute> := [], [];
    AfterNothing(ReadBody(lines[start..], isEnum, policy, [], []));
    while i < |lines| && !lines[i].ClosesItem()
      invariant start <= i <= |lines|
      invariant ReadBody(lines[start..], isEnum, policy, [], [])
             == After(fields, variants, ReadBody(lines[i..], isEnum, policy, docs, attrs))
      decreases |lines| - i
    {
      var t := lines[i].token;
      assert lines[i..][1..] == lines[i + 1..];
      if t.Blank? {
        if docs != [] {
          docs := docs + [""];
        }
        i := i + 1;
      } else if lines[i].indent != 4 {
        i := i + 1;
      } else if t.Doc? {
        docs := docs + [t.text];
        i := i + 1;
      } else if t.Attr? {
        attrs := attrs + [t.attr];
        i := i + 1;
      } else if t.Comment? {
        i := i + 1;
      } else if isEnum {
        var inner: seq<RField> := [];
        if t.Variant? && t.opens {
          inner, i := ReflectVariant(lines, i + 1);
        }
        if i < |lines| {
          assert lines[i..][1..] == lines[i + 1..];
          i := i + 1;
        }
        var v := VariantOf(t, policy, docs, attrs, inner);
        AfterVariant(fields, variants, v, ReadBody(lines[i..], isEnum, policy, [], []));
        variants := variants + [v];
        docs, attrs := [], [];
      } else {
        if t.Field? && t.isPub {
          var f := FieldOf(t.name, t.ty, StructWire(t.name, policy), docs, attrs);
          AfterField(fields, variants, f, ReadBody(lines[i + 1..], isEnum, policy, [], []));
          fields := fields + [f];
        }
        docs, attrs := [], [];
        i := i + 1;
      }
      assert ReadBody(lines[start..], isEnum, policy, [], [])
          == After(fields, variants, ReadBody(lines[i..], isEnum, policy, docs, attrs));
    }
    NothingAfter(fields, variants, lines[i..]);
    body := Body(fields, variants);
  }

  method ReflectFile(lines: seq<Line>) returns (items: seq<RItem>)
    ensures items == Reflect(lines, [], [])
  {
    hide ItemOf, ReadBody, AttrStr;
    items := [];
    var docs: seq<string>, attrs: seq<Attribute> := [], [];
    var i := 0;
    assert lines[0..] == lines && [] + Reflect(lines, [], []) == Reflect(lines, [], []);
    while i < |lines|
      invariant 0 <= i <= |lines|
      invariant Reflect(lines, [], []) == items + Reflect(lines[i..], docs, attrs)
      decreases |lines| - i
    {
      var t := lines[i].token;
      assert lines[i..][1..] == lines[i + 1..];
      if t.Blank? {
        if docs != [] {
          docs := docs + [""];
        }
        i := i + 1;
      } else if lines[i].indent > 0 {
        i := i + 1;
      } else if t.Doc? {
        docs := docs + [t.text];
        i := i + 1;
      } else if t.Attr? {
        ghost var rest := AfterAttribute(lines[i..]);
        while !lines[i].ends && i + 1 < |lines|
          invariant i < |lines| && AfterAttribute(lines[i..]) == rest
        {
          assert lines[i..][1..] == lines[i + 1..];
          i := i + 1;
        }
        assert lines[i..][1..] == lines[i + 1..];
        attrs := attrs + [t.whole];
        i := i + 1;
      } else if t.Comment? {
        i := i + 1;
      } else if t.Head? {
        var body;
        body, i := ReflectBody(lines, i + 1, t.isEnum, OrEmpty(AttrStr(attrs, "rename_all")));
        assert items + ([ItemOf(t, docs, attrs, body)] + Reflect(lines[i..], [], []))
            == items + [ItemOf(t, docs, attrs, body)] + Reflect(lines[i..], [], []);
        assert [] + Reflect(lines[i..], [], []) == Reflect(lines[i..], [], []);
        if !t.generic && t.name != "" {
          items := items + [ItemOf(t, docs, attrs, body)];
        }
        docs, attrs := [], [];
      } else {
        docs, attrs := [], [];
        i := i + 1;
      }
    }
    assert items + [] == items;
  }

  // ---------- What names, options and documentation come to ----------

  /** Attribute `i` is the first that gives the key a value. */
  ghost predicate FirstWith(attrs: seq<Attribute>, i: nat, key: string)
    requires i < |attrs|
  {
    key in attrs[i].values && forall j :: 0 <= j < i ==> key !in attrs[j].values
  }

  /** An option has the value the first attribute that mentions it gives. */
  lemma {:induction false} FirstValueCounts(attrs: seq<Attribute>, key: string)
    ensures AttrStr(attrs, key) == None <==> forall a :: a in attrs ==> key !in a.values
    ensures AttrStr(attrs, key).Some? ==>
      exists i :: 0 <= i < |attrs| && FirstWith(attrs, i, key) && attrs[i].values[key] == AttrStr(attrs, key).value
  {
    if attrs != [] {
      assert attrs == [attrs[0]] + attrs[1..];
      FirstValueCounts(attrs[1..], key);
      if key in attrs[0].values {
        assert FirstWith(attrs, 0, key);
      } else if AttrStr(attrs[1..], key).Some? {
        var i :| 0 <= i < |attrs[1..]| && FirstWith(attrs[1..], i, key)
          && attrs[1..][i].values[key] == AttrStr(attrs, key).value;
        assert forall j :: 0 < j <= i + 1 ==> attrs[j] == attrs[1..][j - 1];
        assert FirstWith(attrs, i + 1, key);
      }
    }
  }

  lemma {:induction false} AnyAttributeFlags(attrs: seq<Attribute>, key: string)
    ensures AttrFlag(attrs, key) <==> exists a :: a in attrs && a.serde && (key in a.words || key in a.values)
  {
    if attrs != [] {
      assert attrs == [attrs[0]] + attrs[1..];
      AnyAttributeFlags(attrs[1..], key);
    }
  }

  /** A field keeps its name and type; its wire name is the `rename` option or else the one
      the policy gives, and each flag is set by any serde attribute that has it. */
  lemma AboutField(name: string, ty: string, wire: string, docs: seq<string>, attrs: seq<Attribute>)
    ensures var f := FieldOf(name, ty, wire, docs, attrs);
      && f.rustName == name && f.ty == ty
      && ((forall a :: a in attrs ==> "rename" !in a.values) ==> f.wireName == wire)
      && (forall i :: 0 <= i < |attrs| && FirstWith(attrs, i, "rename") ==> f.wireName == attrs[i].values["rename"])
      && (f.hasDefault <==> exists a :: a in attrs && a.serde && ("default" in a.words || "default" in a.values))
      && (f.flatten <==> exists a :: a in attrs && a.serde && ("flatten" in a.words || "flatten" in a.values))
  {
    hide AttrStr, AttrFlag, JoinDoc;
    FirstValueCounts(attrs, "rename");
    AnyAttributeFlags(attrs, "default");
    AnyAttributeFlags(attrs, "flatten");
    forall i | 0 <= i < |attrs| && FirstWith(attrs, i, "rename")
      ensures AttrStr(attrs, "rename") == Some(attrs[i].values["rename"])
    {
      assert attrs[i] in attrs;
      var k :| 0 <= k < |attrs| && FirstWith(attrs, k, "rename")
        && attrs[k].values["rename"] == AttrStr(attrs, "rename").value;
      assert i == k;
    }
  }

  function Joined(paragraph: seq<string>): string {
    if paragraph == [] then ""
    else if |paragraph| == 1 then paragraph[0]
    else paragraph[0] + (" " + Joined(paragraph[1..]))
  }

  predicate AllBlank(lines: seq<string>) {
    lines == [] || (lines[0] == "" && AllBlank(lines[1..]))
  }

  predicate NoneBlank(lines: seq<string>) {
    lines == [] || (lines[0] != "" && NoneBlank(lines[1..]))
  }

  lemma FirstParagraphStep(line: string, docs: seq<string>, out: string)
    ensures FirstParagraph([line] + docs, out) ==
      if line == "" then (if out == "" then FirstParagraph(docs, out) else out)
      else FirstParagraph(docs, if out == "" then line else out + " " + line)
  {
    assert ([line] + docs)[1..] == docs;
  }

  lemma {:induction false} RestOfParagraph(out: string, paragraph: seq<string>, rest: seq<string>)
    requires out != "" && NoneBlank(paragraph) && (rest == [] || rest[0] == "")
    ensures FirstParagraph(paragraph + rest, out) == if paragraph == [] then out else out + (" " + Joined(paragraph))
    decreases |paragraph|
  {
    if paragraph == [] {
      assert paragraph + rest == rest;
    } else {
      var line, more := paragraph[0], paragraph[1..];
      assert paragraph + rest == [line] + (more + rest);
      FirstParagraphStep(line, more + rest, out);
      RestOfParagraph(out + " " + line, more, rest);
      hide FirstParagraph;
      assert out + " " + line == out + (" " + line);
      assert more != [] ==>
        out + " " + line + (" " + Joined(more)) == out + (" " + (line + (" " + Joined(more))));
    }
  }

  /** Documentation comes to its first paragraph on one line: blank lines before it and all
      that follows the blank line after it are dropped. */
  lemma {:induction false} FirstParagraphOnly(blanks: seq<string>, paragraph: seq<string>, rest: seq<string>)
    requires AllBlank(blanks) && NoneBlank(paragraph)
    requires rest == [] || (paragraph != [] && rest[0] == "")
    ensures FirstParagraph(blanks + paragraph + rest, "") == Joined(paragraph)
    decreases |blanks|
  {
    if blanks != [] {
      assert blanks + paragraph + rest == [""] + (blanks[1..] + paragraph + rest);
      FirstParagraphStep("", blanks[1..] + paragraph + rest, "");
      FirstParagraphOnly(blanks[1..], paragraph, rest);
    } else if paragraph != [] {
      assert blanks + paragraph + rest == [paragraph[0]] + (paragraph[1..] + rest);
      FirstParagraphStep(paragraph[0], paragraph[1..] + rest, "");
      RestOfParagraph(paragraph[0], paragraph[1..], rest);
    }
  }

  predicate PairFree(s: string, a: char, b: char) {
    |s| < 2 || (!(s[0] == a && s[1] == b) && PairFree(s[1..], a, b))
  }

  lemma ReplaceStep(x: char, s: string, a: char, b: char, c: char)
    requires !(x == a && s != "" && s[0] == b)
    ensures ReplacePair([x] + s, a, b, c) == [x] + ReplacePair(s, a, b, c)
  {
    assert ([x] + s)[1..] == s;
  }

  lemma ReplaceHere(t: string, a: char, b: char, c: char)
    ensures ReplacePair([a, b] + t, a, b, c) == [c] + ReplacePair(t, a, b, c)
  {
    assert ([a, b] + t)[2..] == t;
  }

  /** Replacing a pair of different characters replaces each occurrence, and nothing else. */
  lemma {:induction false} EachPairIsReplaced(s: string, t: string, a: char, b: char, c: char)
    requires a != b && PairFree(s, a, b)
    ensures ReplacePair(s, a, b, c) == s
    ensures ReplacePair(s + ([a, b] + t), a, b, c) == s + ([c] + ReplacePair(t, a, b, c))
  {
    ReplaceHere(t, a, b, c);
    var pair, replaced := [a, b] + t, [c] + ReplacePair(t, a, b, c);
    if s == "" {
      hide ReplacePair;
      assert s + pair == pair && s + replaced == replaced;
      NothingToReplace(s, a, b, c);
    } else {
      var x, more := s[0], s[1..];
      EachPairIsReplaced(more, t, a, b, c);
      assert more == "" ==> more + pair == pair;
      ReplaceStep(x, more, a, b, c);
      ReplaceStep(x, more + pair, a, b, c);
      hide ReplacePair;
      assert s == [x] + more;
      assert s + pair == [x] + (more + pair) && s + replaced == [x] + (more + replaced);
    }
  }

  lemma NothingToReplace(s: string, a: char, b: char, c: char)
    requires s == ""
    ensures ReplacePair(s, a, b, c) == s
  {
  }

  function ToUpper(c: char): char {
    if 'a' <= c <= 'z' then c - ('a' - 'A') else c
  }

  /** A separator and the letter after it become that letter in upper case. */
  function Camel(s: string, separator: char): string {
    if s == "" then ""
    else if s[0] == separator && |s| > 1 then [ToUpper(s[1])] + Camel(s[2..], separator)
    else [s[0]] + Camel(s[1..], separator)
  }

  lemma {:induction false} SeparatedIsUndone(s: string, separator: char)
    requires separator !in s && !('A' <= separator <= 'Z') && !('a' <= separator <= 'z')
    ensures Camel(Separated(s, separator, false), separator) == s
  {
    if s != "" {
      assert s == [s[0]] + s[1..];
      SeparatedIsUndone(s[1..], separator);
      var rest := Separated(s[1..], separator, false);
      if 'A' <= s[0] <= 'Z' {
        assert Separated(s, separator, false) == [separator, ToLower(s[0])] + rest;
        assert ([separator, ToLower(s[0])] + rest)[2..] == rest;
      } else {
        assert Separated(s, separator, false)[1..] == rest;
      }
    }
  }

  lemma SeparatedHead(m: string, separator: char)
    requires m != "" && 'A' <= m[0] <= 'Z'
    ensures Separated(m, separator, true) == [ToLower(m[0])] + Separated(m[1..], separator, false)
  {
    assert "" + [ToLower(m[0])] == [ToLower(m[0])];
  }

  lemma LowerDiffers(a: char, b: char)
    requires 'A' <= a <= 'Z' && 'A' <= b <= 'Z' && ToLower(a) == ToLower(b)
    ensures a == b
  {
  }

  lemma SeparatedDiffers(m: string, n: string, separator: char)
    requires !('A' <= separator <= 'Z') && !('a' <= separator <= 'z')
    requires m != "" && 'A' <= m[0] <= 'Z' && separator !in m
    requires n != "" && 'A' <= n[0] <= 'Z' && separator !in n
    requires Separated(m, separator, true) == Separated(n, separator, true)
    ensures m == n
  {
    hide Separated, Camel, ToLower;
    var a, b := Separated(m[1..], separator, false), Separated(n[1..], separator, false);
    SeparatedHead(m, separator);
    SeparatedHead(n, separator);
    assert [ToLower(m[0])] + a == [ToLower(n[0])] + b;
    assert a == ([ToLower(m[0])] + a)[1..] && b == ([ToLower(n[0])] + b)[1..];
    LowerDiffers(m[0], n[0]);
    SeparatedIsUndone(m[1..], separator);
    SeparatedIsUndone(n[1..], separator);
    assert m == [m[0]] + m[1..] && n == [n[0]] + n[1..];
  }

  lemma PolicySeparator(name: string, policy: string)
    requires policy == "kebab-case" || policy == "snake_case"
    ensures RenameAll(name, policy) == Separated(name, if policy == "kebab-case" then '-' else '_', true)
  {
    hide Separated, Lowered;
    assert |"lowercase"| == 9 && |"kebab-case"| == |"snake_case"| == 10 && "snake_case"[0] != "kebab-case"[0];
  }

  /** Kebab-case and snake_case wire names keep what a name that starts in upper case says:
      two such names, free of the separator, never get the same one. */
  lemma WireNamesDiffer(m: string, n: string, policy: string)
    requires policy == "kebab-case" || policy == "snake_case"
    requires m != "" && 'A' <= m[0] <= 'Z' && (if policy == "kebab-case" then '-' else '_') !in m
    requires n != "" && 'A' <= n[0] <= 'Z' && (if policy == "kebab-case" then '-' else '_') !in n
    ensures RenameAll(m, policy) == RenameAll(n, policy) <==> m == n
  {
    hide Separated, RenameAll;
    PolicySeparator(m, policy);
    PolicySeparator(n, policy);
    if RenameAll(m, policy) == RenameAll(n, policy) {
      SeparatedDiffers(m, n, if policy == "kebab-case" then '-' else '_');
    }
  }
}
