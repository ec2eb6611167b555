/** The tools a copilot has: which method each forwards to and what calling it does. */
module ToolSurface {
  import opened Wrappers
  import opened ToolNames

  const MUTATING: seq<string> := [
    "run.start", "run.pause", "run.resume", "run.step", "run.seek", "run.speed", "run.stop",
    "scenario.set", "scenario.save", "scenario.load", "world.import_osm", "world.generate",
    "events.set", "export.dataset", "export.recording", "experiment.define", "experiment.run"]

  const VIEW_SCOPED: seq<string> := ["view.follow", "view.camera", "overlay.set"]

  datatype Effect = Read | View | Mutate

  function EffectOf(method_: string): Effect {
    if method_ in MUTATING then Mutate else if method_ in VIEW_SCOPED then View else Read
  }

  /** A tool forwards to a method, or is answered in process when it has none. */
  datatype ToolSpec = ToolSpec(name: string, method_: Option<string>, effect: Effect)

  function SpecOf(method_: string): ToolSpec {
    ToolSpec(ToolName(method_), Some(method_), EffectOf(method_))
  }

  datatype Surface = Surface(tools: seq<ToolSpec>, byName: map<string, nat>) {
    /** The index holds, for each name, the first tool that has it. */
    ghost predicate Valid() {
      && (forall i :: 0 <= i < |tools| ==> tools[i].name in byName)
      && (forall name :: name in byName ==>
           && byName[name] < |tools| && tools[byName[name]].name == name
           && forall i :: 0 <= i < byName[name] ==> tools[i].name != name)
    }

    function Get(name: string): Option<ToolSpec> {
      if name in byName && byName[name] < |tools| then Some(tools[byName[name]]) else None
    }

    /** Every tool that forwards to a method is classed as that method is. */
    ghost predicate Classified() {
      forall i :: 0 <= i < |tools| && tools[i].method_.Some? ==> tools[i].effect == EffectOf(tools[i].method_.value)
    }

    /** The names offered to the model: without mutation, no tool that changes the run. */
    function Offered(allowMutation: bool): seq<string> {
      OfferedFrom(tools, allowMutation)
    }
  }

  function OfferedFrom(tools: seq<ToolSpec>, allowMutation: bool): seq<string> {
    if tools == [] then []
    else (if allowMutation || tools[0].effect != Mutate then [tools[0].name] else [])
         + OfferedFrom(tools[1..], allowMutation)
  }

  method FromSpecs(tools: seq<ToolSpec>) returns (s: Surface)
    ensures s.tools == tools && s.Valid()
  {
    var byName: map<string, nat> := map[];
    for i := 0 to |tools|
      invariant Surface(tools[..i], byName).Valid()
    {
      var t := tools[i];
      assert tools[..i + 1] == tools[..i] + [t];
      if t.name !in byName {
        byName := byName[t.name := i];
      }
    }
    assert tools[..|tools|] == tools;
    s := Surface(tools, byName);
  }

  /** Looking a name up finds the first tool with that name, and nothing exactly when there is
      none. */
  lemma GetFindsTheFirst(s: Surface, name: string)
    requires s.Valid()
    ensures s.Get(name) == None <==> forall i :: 0 <= i < |s.tools| ==> s.tools[i].name != name
    ensures s.Get(name).Some? ==>
      exists i :: 0 <= i < |s.tools| && s.tools[i] == s.Get(name).value && s.tools[i].name == name
        && forall j :: 0 <= j < i ==> s.tools[j].name != name
  {
    if name in s.byName {
      assert s.tools[s.byName[name]].name == name;
    }
  }

  lemma {:induction false} ReadOnlyOffersNoMutation(tools: seq<ToolSpec>, allowMutation: bool, name: string)
    ensures name in OfferedFrom(tools, allowMutation) <==>
      exists i :: 0 <= i < |tools| && tools[i].name == name && (allowMutation || tools[i].effect != Mutate)
  {
    if tools != [] {
      ReadOnlyOffersNoMutation(tools[1..], allowMutation, name);
      assert forall i :: 0 <= i < |tools[1..]| ==> tools[1..][i] == tools[i + 1];
      if i :| 0 <= i < |tools| && tools[i].name == name && (allowMutation || tools[i].effect != Mutate) {
        if i > 0 {
          assert tools[1..][i - 1] == tools[i];
        }
      }
    }
  }

  /** The tools of a document: one for each method it lists, then the ones answered in
      process, which forward to nothing. */
  function DocumentTools(methods: seq<string>, locals: seq<ToolSpec>): seq<ToolSpec> {
    seq(|methods|, i requires 0 <= i < |methods| => SpecOf(methods[i])) + locals
  }

  /** Every method of a document is reached by its own tool name, and by the effect it is
      classed with, as long as the names can be mangled without loss. */
  lemma EveryMethodIsFound(s: Surface, methods: seq<string>, locals: seq<ToolSpec>)
    requires s.Valid() && s.tools == DocumentTools(methods, locals)
    requires forall m :: m in methods ==> Invertible(m)
    requires forall t :: t in locals ==> t.method_ == None
    ensures s.Classified()
    ensures forall i :: 0 <= i < |methods| ==> s.Get(ToolName(methods[i])) == Some(SpecOf(methods[i]))
  {
    hide EffectOf, ToolName, Invertible;
    forall i | 0 <= i < |methods|
      ensures s.Get(ToolName(methods[i])) == Some(SpecOf(methods[i]))
    {
      assert s.tools[i] == SpecOf(methods[i]);
      var first := s.byName[ToolName(methods[i])];
      assert first <= i && s.tools[first] == SpecOf(methods[first]);
      assert methods[first] in methods && methods[i] in methods;
      ToolNamesDiffer(methods[first], methods[i]);
    }
  }
}
