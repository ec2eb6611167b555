/** Tool names and method names: when the mangling can be undone. */
module ToolNames {
  /** Every dot becomes two underscores. */
  function ToolName(method_: string): (tool: string)
    ensures forall i :: 0 <= i < |tool| ==> tool[i] != '.'
  {
    if method_ == "" then ""
    else if method_[0] == '.' then "__" + ToolName(method_[1..])
    else [method_[0]] + ToolName(method_[1..])
  }

  /** Every pair of underscores, taken from the left, becomes a dot. */
  function MethodName(tool: string): string {
    if tool == "" then ""
    else if |tool| >= 2 && tool[0] == '_' && tool[1] == '_' then "." + MethodName(tool[2..])
    else [tool[0]] + MethodName(tool[1..])
  }

  /** No underscore is followed by another one or by a dot. */
  predicate Invertible(method_: string) {
    forall i :: 0 <= i < |method_| - 1 && method_[i] == '_' ==> method_[i + 1] != '_' && method_[i + 1] != '.'
  }

  lemma InvertibleTail(m: string)
    requires m != ""
    ensures Invertible(m) <==>
      Invertible(m[1..]) && (|m| >= 2 && m[0] == '_' ==> m[1] != '_' && m[1] != '.')
  {
    if Invertible(m[1..]) {
      forall i | 0 < i < |m| - 1 && m[i] == '_'
        ensures m[i + 1] != '_' && m[i + 1] != '.'
      {
        assert m[1..][i - 1] == m[i] && m[1..][i] == m[i + 1];
      }
    }
  }

  /** The mapping is undone exactly for the names in which no `__` and no `_.` occurs. */
  lemma {:induction false} MangleRoundTrip(m: string)
    ensures MethodName(ToolName(m)) == m <==> Invertible(m)
  {
    if m != "" {
      InvertibleTail(m);
      var rest := m[1..];
      MangleRoundTrip(rest);
      assert m == [m[0]] + rest;
      if m[0] == '.' {
        assert ToolName(m)[2..] == ToolName(rest);
        assert MethodName(ToolName(m)) == "." + MethodName(ToolName(rest));
      } else if m[0] == '_' && rest != "" && (rest[0] == '_' || rest[0] == '.') {
        assert ToolName(rest)[0] == '_';
        assert ToolName(m)[1] == '_';
        assert MethodName(ToolName(m))[0] == '.';
      } else {
        assert rest != "" && m[0] == '_' ==> ToolName(m)[1] == rest[0];
        assert ToolName(m)[1..] == ToolName(rest);
        assert MethodName(ToolName(m)) == [m[0]] + MethodName(ToolName(rest));
        assert ([m[0]] + MethodName(ToolName(rest)))[1..] == MethodName(ToolName(rest));
      }
    }
  }

  /** The rule "no method contains `__`" is not enough: these two share a tool name. */
  lemma NoDoubleUnderscoreIsNotEnough()
    ensures ToolName("a_.b") == ToolName("a._b") == "a___b"
    ensures MethodName(ToolName("a_.b")) != "a_.b"
  {
    assert ToolName("a_.b") == "a" + ToolName("_.b") && ToolName("_.b") == "_" + ToolName(".b");
    assert ToolName("a._b") == "a" + ToolName("._b") && ToolName("._b") == "__" + ToolName("_b");
    MangleRoundTrip("a_.b");
    assert "a_.b"[1] == '_' && "a_.b"[2] == '.';
  }

  lemma ToolNamesDiffer(m: string, n: string)
    requires Invertible(m) && Invertible(n) && ToolName(m) == ToolName(n)
    ensures m == n
  {
    MangleRoundTrip(m);
    MangleRoundTrip(n);
  }
}
