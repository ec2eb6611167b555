/** Making specification prose safe inside documentation attributes of generated code: runs of
    blanks become one space and code fences are dropped. */
module DocComments {
  import opened Wrappers
  import opened Texts

  const OPENING: string := "#[doc = \""
  const CLOSING: string := "\"]"

  // ---------- The content of one attribute ----------

  /** A backslash and the character it escapes. */
  predicate IsEscape(s: string) {
    |s| > 1 && s[0] == '\\'
  }

  /** An escaped tab, line feed or carriage return. */
  predicate IsBlankEscape(s: string) {
    IsEscape(s) && (s[1] == 't' || s[1] == 'n' || s[1] == 'r')
  }

  predicate IsFence(s: string) {
    |s| > 2 && s[0] == '`' && s[1] == '`' && s[2] == '`'
  }

  function SpaceUnless(blanks: bool): string {
    if blanks then "" else " "
  }

  /** What the cleaning loop computes; `blanks` says whether a run of blanks is under way. */
  function Clean(s: string, blanks: bool): string {
    if s == "" then ""
    else if IsBlankEscape(s) then SpaceUnless(blanks) + Clean(s[2..], true)
    else if IsEscape(s) then [s[0], s[1]] + Clean(s[2..], false)
    else if s[0] == ' ' then SpaceUnless(blanks) + Clean(s[1..], true)
    else if IsFence(s) then Clean(s[3..], false)
    else [s[0]] + Clean(s[1..], false)
  }

  lemma CleanHead(s: string, blanks: bool)
    requires s != ""
    ensures Clean(s, blanks) ==
      if IsBlankEscape(s) then SpaceUnless(blanks) + Clean(s[2..], true)
      else if IsEscape(s) then [s[0], s[1]] + Clean(s[2..], false)
      else if s[0] == ' ' then SpaceUnless(blanks) + Clean(s[1..], true)
      else if IsFence(s) then Clean(s[3..], false)
      else [s[0]] + Clean(s[1..], false)
  {
  }

  lemma AppendTwice(a: string, b: string, c: string)
    ensures a + (b + c) == (a + b) + c
  {
  }

  method CleanContent(content: string) returns (cleaned: string)
    ensures cleaned == Clean(content, false)
  {
    hide Clean;
    cleaned := "";
    var spaces: nat := 0;
    var i := 0;
    assert content[0..] == content && "" + Clean(content, false) == Clean(content, false);
    while i < |content|
      invariant 0 <= i <= |content|
      invariant Clean(content, false) == cleaned + Clean(content[i..], spaces > 0)
    {
      var c := content[i];
      ghost var rest, before, start := content[i..], cleaned, i;
      CleanHead(rest, spaces > 0);
      if c == '\\' && i + 1 < |content| && (content[i + 1] == 't' || content[i + 1] == 'n' || content[i + 1] == 'r') {
        i := i + 2;
        spaces := spaces + 1;
        if spaces == 1 {
          cleaned := cleaned + " ";
        }
        AppendTwice(before, SpaceUnless(spaces > 1), Clean(content[i..], true));
      } else if c == '\\' {
        cleaned := cleaned + [c];
        i := i + 1;
        if i < |content| {
          cleaned := cleaned + [content[i]];
          i := i + 1;
          assert cleaned == before + [rest[0], rest[1]];
        }
        spaces := 0;
        AppendTwice(before, if |rest| > 1 then [rest[0], rest[1]] else [rest[0]], Clean(content[i..], false));
      } else if c == ' ' {
        i := i + 1;
        spaces := spaces + 1;
        if spaces == 1 {
          cleaned := cleaned + " ";
        }
        AppendTwice(before, SpaceUnless(spaces > 1), Clean(content[i..], true));
      } else {
        spaces := 0;
        if c == '`' && i + 2 < |content| && content[i + 1] == '`' && content[i + 2] == '`' {
          i := i + 3;
        } else {
          cleaned := cleaned + [c];
          i := i + 1;
          AppendTwice(before, [c], Clean(content[i..], false));
        }
      }
      assert rest[i - start..] == content[i..];
    }
    CleanNothing(content[i..], spaces > 0);
    assert cleaned + "" == cleaned;
  }

  lemma CleanNothing(s: string, blanks: bool)
    requires s == ""
    ensures Clean(s, blanks) == ""
  {
  }

  // ---------- No text is lost ----------

  /** The content without blanks and backticks. */
  function Words(s: string): string {
    if s == "" then ""
    else if IsBlankEscape(s) then Words(s[2..])
    else if IsEscape(s) then [s[0], s[1]] + Words(s[2..])
    else if s[0] == ' ' || s[0] == '`' then Words(s[1..])
    else [s[0]] + Words(s[1..])
  }

  lemma WordsPastFence(s: string)
    requires IsFence(s)
    ensures Words(s) == Words(s[3..])
  {
    assert s[1..][1..] == s[2..] && s[2..][1..] == s[3..];
    assert Words(s[1..]) == Words(s[2..]) && Words(s[2..]) == Words(s[3..]);
  }

  /** Cleaning takes away blanks and backticks and nothing else. */
  lemma {:induction false} WordsAreKept(s: string, blanks: bool)
    ensures Words(Clean(s, blanks)) == Words(s)
    decreases |s|
  {
    if s != "" {
      var t := Clean(s, blanks);
      if IsBlankEscape(s) {
        WordsAreKept(s[2..], true);
        assert if blanks then t == Clean(s[2..], true) else t[0] == ' ' && t[1..] == Clean(s[2..], true);
      } else if IsEscape(s) {
        WordsAreKept(s[2..], false);
        assert t[2..] == Clean(s[2..], false);
      } else if s[0] == ' ' {
        WordsAreKept(s[1..], true);
        assert if blanks then t == Clean(s[1..], true) else t[0] == ' ' && t[1..] == Clean(s[1..], true);
      } else if IsFence(s) {
        WordsAreKept(s[3..], false);
        WordsPastFence(s);
      } else {
        WordsAreKept(s[1..], false);
        assert t[1..] == Clean(s[1..], false);
      }
    }
  }

  /** A string literal stays one: no quote is left bare and no backslash escapes its end. */
  predicate Literal(s: string) {
    s == "" || (if s[0] == '\\' then |s| > 1 && Literal(s[2..]) else s[0] != '"' && Literal(s[1..]))
  }

  lemma LiteralPastFence(s: string)
    requires IsFence(s)
    ensures Literal(s) <==> Literal(s[3..])
  {
    assert s[1..][1..] == s[2..] && s[2..][1..] == s[3..];
    assert Literal(s[1..]) == Literal(s[2..]) && Literal(s[2..]) == Literal(s[3..]);
  }

  lemma {:induction false} LiteralsStayWellFormed(s: string, blanks: bool)
    ensures Literal(Clean(s, blanks)) <==> Literal(s)
    decreases |s|
  {
    if s != "" {
      var t := Clean(s, blanks);
      if IsBlankEscape(s) {
        LiteralsStayWellFormed(s[2..], true);
        assert if blanks then t == Clean(s[2..], true) else t[0] == ' ' && t[1..] == Clean(s[2..], true);
      } else if IsEscape(s) {
        LiteralsStayWellFormed(s[2..], false);
        assert t[2..] == Clean(s[2..], false);
      } else if s[0] == ' ' {
        LiteralsStayWellFormed(s[1..], true);
        assert if blanks then t == Clean(s[1..], true) else t[0] == ' ' && t[1..] == Clean(s[1..], true);
      } else if IsFence(s) {
        LiteralsStayWellFormed(s[3..], false);
        LiteralPastFence(s);
      } else {
        LiteralsStayWellFormed(s[1..], false);
        assert t[1..] == Clean(s[1..], false);
      }
    }
  }

  // ---------- Fences ----------

  predicate HasFence(s: string) {
    s != "" && (IsFence(s) || HasFence(s[1..]))
  }

  /** How many backticks a text starts with. */
  function Ticks(s: string): nat {
    if s != "" && s[0] == '`' then 1 + Ticks(s[1..]) else 0
  }

  lemma {:induction false} TicksLeft(s: string)
    ensures Ticks(Clean(s, false)) == Ticks(s) % 3
  {
    if s != "" && s[0] == '`' {
      if IsFence(s) {
        TicksLeft(s[3..]);
        assert s[1..][1..] == s[2..] && s[2..][1..] == s[3..];
        assert Ticks(s) == 3 + Ticks(s[3..]);
      } else {
        TicksLeft(s[1..]);
        assert Clean(s, false)[1..] == Clean(s[1..], false);
        assert |s| > 1 ==> s[1..][1..] == s[2..];
      }
    }
  }

  /** An escaped backtick stands before a run of backticks of which two are left over. This is
      no escape of the language, but nothing stops the loop from reading it. */
  predicate EscapedTickBeforeTwo(s: string) {
    s != "" &&
    (if IsEscape(s) then (s[1] == '`' && Ticks(s[2..]) % 3 == 2) || EscapedTickBeforeTwo(s[2..])
     else EscapedTickBeforeTwo(s[1..]))
  }

  lemma NoEscapeInFence(s: string)
    requires IsFence(s)
    ensures EscapedTickBeforeTwo(s) <==> EscapedTickBeforeTwo(s[3..])
  {
    assert s[1..][1..] == s[2..] && s[2..][1..] == s[3..];
    assert EscapedTickBeforeTwo(s[1..]) == EscapedTickBeforeTwo(s[2..]);
    assert EscapedTickBeforeTwo(s[2..]) == EscapedTickBeforeTwo(s[3..]);
  }

  lemma FenceAtFront(c: char, t: string)
    ensures HasFence([c] + t) <==> (c == '`' && Ticks(t) >= 2) || HasFence(t)
  {
    var s := [c] + t;
    assert s[1..] == t;
    if |t| > 1 {
      assert t[1..][0] == t[1];
    }
  }

  /** A fence is left exactly where an escaped backtick completes one. */
  lemma {:induction false} FencesAreDropped(s: string, blanks: bool)
    ensures HasFence(Clean(s, blanks)) <==> EscapedTickBeforeTwo(s)
    decreases |s|
  {
    if s != "" {
      if IsBlankEscape(s) {
        FencesAreDropped(s[2..], true);
        FenceAtFront(' ', Clean(s[2..], true));
        assert "" + Clean(s[2..], true) == Clean(s[2..], true);
      } else if IsEscape(s) {
        FencesAreDropped(s[2..], false);
        TicksLeft(s[2..]);
        var t := Clean(s[2..], false);
        assert [s[0], s[1]] + t == [s[0]] + ([s[1]] + t);
        FenceAtFront(s[1], t);
        FenceAtFront(s[0], [s[1]] + t);
      } else if s[0] == ' ' {
        FencesAreDropped(s[1..], true);
        FenceAtFront(' ', Clean(s[1..], true));
        assert "" + Clean(s[1..], true) == Clean(s[1..], true);
      } else if IsFence(s) {
        FencesAreDropped(s[3..], false);
        NoEscapeInFence(s);
      } else {
        FencesAreDropped(s[1..], false);
        TicksLeft(s[1..]);
        FenceAtFront(s[0], Clean(s[1..], false));
        assert s[0] == '`' && |s| > 1 ==> s[1..][1..] == s[2..];
      }
    }
  }

  /** Every escape is one the language has. */
  predicate LanguageEscapes(s: string) {
    s == "" ||
    (if IsEscape(s) then s[1] in "nrt\\0\'\"xu" && LanguageEscapes(s[2..]) else LanguageEscapes(s[1..]))
  }

  /** So in any literal of the language every fence is dropped. */
  lemma {:induction false} NoFenceInLiterals(s: string)
    requires LanguageEscapes(s)
    ensures !HasFence(Clean(s, false))
  {
    FencesAreDropped(s, false);
    NoEscapedTick(s);
  }

  lemma {:induction false} NoEscapedTick(s: string)
    requires LanguageEscapes(s)
    ensures !EscapedTickBeforeTwo(s)
  {
    if s != "" {
      if IsEscape(s) {
        NoEscapedTick(s[2..]);
      } else {
        NoEscapedTick(s[1..]);
      }
    }
  }

  /** Outside the language a fence can survive. */
  lemma EscapedTickKeepsAFence()
    ensures Clean("\\```", false) == "\\```" && HasFence(Clean("\\```", false))
  {
    assert Clean("`", false) == "`" by { assert "`"[1..] == ""; }
    assert Clean("``", false) == "``" by { assert "``"[1..] == "`"; }
    assert "\\```"[2..] == "``" && "\\```"[1..] == "```";
  }

  // ---------- Runs of blanks ----------

  predicate HasTwoSpaces(s: string) {
    |s| > 1 && ((s[0] == ' ' && s[1] == ' ') || HasTwoSpaces(s[1..]))
  }

  predicate IsBlank(s: string) {
    IsBlankEscape(s) || (s != "" && s[0] == ' ')
  }

  /** A blank comes next, perhaps after fences. */
  predicate BlankNext(s: string) {
    IsBlank(s) || (IsFence(s) && BlankNext(s[3..]))
  }

  predicate FenceThenBlank(s: string) {
    IsFence(s) && BlankNext(s[3..])
  }

  /** Fences stand between two blanks, or an escaped space stands before a blank. */
  predicate BlankFenceBlank(s: string) {
    if s == "" then false
    else if IsBlankEscape(s) then FenceThenBlank(s[2..]) || BlankFenceBlank(s[2..])
    else if IsEscape(s) then (s[1] == ' ' && BlankNext(s[2..])) || BlankFenceBlank(s[2..])
    else if s[0] == ' ' then FenceThenBlank(s[1..]) || BlankFenceBlank(s[1..])
    else if IsFence(s) then BlankFenceBlank(s[3..])
    else BlankFenceBlank(s[1..])
  }

  predicate StartsWithSpace(s: string) {
    s != "" && s[0] == ' '
  }

  lemma {:induction false} SpaceNext(s: string)
    ensures StartsWithSpace(Clean(s, false)) <==> BlankNext(s)
  {
    if IsFence(s) {
      SpaceNext(s[3..]);
    }
  }

  lemma TwoSpacesAtFront(c: char, t: string)
    ensures HasTwoSpaces([c] + t) <==> (c == ' ' && StartsWithSpace(t)) || HasTwoSpaces(t)
  {
    assert ([c] + t)[1..] == t;
  }

  /** Two spaces are left exactly across a dropped fence or behind an escaped space. */
  lemma {:induction false} BlankRunsCollapse(s: string)
    ensures HasTwoSpaces(Clean(s, false)) <==> BlankFenceBlank(s)
    decreases |s|, 0
  {
    if s != "" {
      if IsBlankEscape(s) {
        BlankRunGoesOn(s[2..]);
      } else if IsEscape(s) {
        BlankRunsCollapse(s[2..]);
        SpaceNext(s[2..]);
        var t := Clean(s[2..], false);
        assert [s[0], s[1]] + t == [s[0]] + ([s[1]] + t);
        TwoSpacesAtFront(s[1], t);
        TwoSpacesAtFront(s[0], [s[1]] + t);
      } else if s[0] == ' ' {
        BlankRunGoesOn(s[1..]);
      } else if IsFence(s) {
        BlankRunsCollapse(s[3..]);
      } else {
        BlankRunsCollapse(s[1..]);
        TwoSpacesAtFront(s[0], Clean(s[1..], false));
      }
    }
  }

  lemma {:induction false} BlankRunGoesOn(s: string)
    ensures HasTwoSpaces(" " + Clean(s, true)) <==> FenceThenBlank(s) || BlankFenceBlank(s)
    decreases |s|, 1
  {
    if s != "" {
      if IsBlankEscape(s) {
        BlankRunGoesOn(s[2..]);
        assert "" + Clean(s[2..], true) == Clean(s[2..], true);
      } else if IsEscape(s) {
        BlankRunsCollapse(s);
        TwoSpacesAtFront(' ', Clean(s, true));
      } else if s[0] == ' ' {
        BlankRunGoesOn(s[1..]);
        assert "" + Clean(s[1..], true) == Clean(s[1..], true);
      } else if IsFence(s) {
        BlankRunsCollapse(s[3..]);
        SpaceNext(s[3..]);
        TwoSpacesAtFront(' ', Clean(s[3..], false));
      } else {
        BlankRunsCollapse(s[1..]);
        TwoSpacesAtFront(s[0], Clean(s[1..], false));
        TwoSpacesAtFront(' ', Clean(s, true));
      }
    }
  }

  /** One pass need not be enough: a fence between two spaces leaves both. */
  lemma OnePassIsNotEnough()
    ensures Clean("a ``` b", false) == "a  b" && Clean("a  b", false) == "a b"
  {
    assert Clean("b", false) == "b" by { assert "b"[1..] == ""; }
    assert Clean(" b", false) == " b" && Clean(" b", true) == "b" by { assert " b"[1..] == "b"; }
    assert Clean("``` b", true) == " b" by { assert "``` b"[3..] == " b"; }
    assert Clean(" ``` b", false) == "  b" by { assert " ``` b"[1..] == "``` b"; }
    assert Clean("  b", false) == " b" by { assert "  b"[1..] == " b"; }
    assert "a ``` b"[1..] == " ``` b" && "a  b"[1..] == "  b";
  }

  // ---------- Lines ----------

  /** The indentation and the content of a documentation attribute that fills its line. */
  function DocLine(line: string): Option<(string, string)> {
    var trimmed := TrimStart(line);
    if OPENING <= trimmed && |trimmed| >= |OPENING| + |CLOSING| && trimmed[|trimmed| - |CLOSING|..] == CLOSING
    then Some((line[..|line| - |trimmed|], trimmed[|OPENING|..|trimmed| - |CLOSING|]))
    else None
  }

  method SanitiseLine(line: string) returns (r: string)
    ensures DocLine(line).None? ==> r == line
    ensures DocLine(line).Some? ==>
      DocLine(r) == Some((DocLine(line).value.0, Clean(DocLine(line).value.1, false)))
  {
    match DocLine(line) {
      case None => return line;
      case Some((indent, content)) =>
        var cleaned := CleanContent(content);
        r := indent + (OPENING + (cleaned + CLOSING));
        IndentIsSpace(line);
        ReadsAsDocLine(indent, cleaned);
    }
  }

  predicate AllSpace(s: string) {
    s == "" || (IsSpace(s[0]) && AllSpace(s[1..]))
  }

  lemma {:induction false} IndentIsSpace(line: string)
    ensures |TrimStart(line)| <= |line| && AllSpace(line[..|line| - |TrimStart(line)|])
  {
    if line != "" && IsSpace(line[0]) {
      IndentIsSpace(line[1..]);
      var k := |line| - |TrimStart(line)|;
      assert line[..k][1..] == line[1..][..k - 1];
    }
  }

  lemma {:induction false} TrimStartDrops(indent: string, rest: string)
    requires AllSpace(indent) && rest != "" && !IsSpace(rest[0])
    ensures TrimStart(indent + rest) == rest
  {
    if indent == "" {
      assert indent + rest == rest;
    } else {
      assert (indent + rest)[1..] == indent[1..] + rest;
      TrimStartDrops(indent[1..], rest);
    }
  }

  lemma FrameOf(content: string)
    ensures var rest := OPENING + (content + CLOSING);
      && rest != "" && !IsSpace(rest[0]) && OPENING <= rest
      && rest[|rest| - |CLOSING|..] == CLOSING && rest[|OPENING|..|rest| - |CLOSING|] == content
  {
    var rest := OPENING + (content + CLOSING);
    assert rest[0] == '#';
  }

  lemma ReadsAsDocLine(indent: string, content: string)
    requires AllSpace(indent)
    ensures DocLine(indent + (OPENING + (content + CLOSING))) == Some((indent, content))
  {
    hide TrimStart, AllSpace, IsSpace;
    var rest := OPENING + (content + CLOSING);
    FrameOf(content);
    TrimStartDrops(indent, rest);
    assert (indent + rest)[..|indent|] == indent;
  }

  /** Line for line: a documentation attribute keeps its place and its indentation and has its
      content cleaned; every other line is copied. */
  method Sanitise(lines: seq<string>) returns (out: seq<string>)
    ensures |out| == |lines|
    ensures forall i :: 0 <= i < |lines| && DocLine(lines[i]).None? ==> out[i] == lines[i]
    ensures forall i :: 0 <= i < |lines| && DocLine(lines[i]).Some? ==>
      DocLine(out[i]) == Some((DocLine(lines[i]).value.0, Clean(DocLine(lines[i]).value.1, false)))
  {
    out := [];
    for k := 0 to |lines|
      invariant |out| == k
      invariant forall i :: 0 <= i < k && DocLine(lines[i]).None? ==> out[i] == lines[i]
      invariant forall i :: 0 <= i < k && DocLine(lines[i]).Some? ==>
        DocLine(out[i]) == Some((DocLine(lines[i]).value.0, Clean(DocLine(lines[i]).value.1, false)))
    {
      var line := SanitiseLine(lines[k]);
      out := out + [line];
    }
  }
}
