/** Applying a module to a project: definitions become libraries, plugins become
    plugins, and a configurable wrapper is replaced by the module it wraps. */
module Materializer {
  import opened TernModel

  /** The definition or plugin at the bottom of a module's chain of wrappers. */
  function Leaf(m: Module): (r: Module)
    requires Finite(m)
    ensures !r.Configurable?
    decreases DepthOf(m)
  {
    match m
    case Configurable(c) => Leaf(c.wrapped)
    case _ => m
  }

  /** The wrappers met on the way down, outermost first. */
  ghost function Chain(m: Module): (r: seq<ModuleConfigurable>)
    requires Finite(m)
    decreases DepthOf(m)
  {
    if m.Configurable? then [m.conf] + Chain(m.conf.wrapped) else []
  }

  /** The same wrappers as a set, the objects a materialization reads. */
  ghost function ChainObjects(m: Module): set<object>
    requires Finite(m)
  {
    set c | c in Chain(m)
  }

  /** The options a plugin receives: those of the innermost wrapper, or the
      caller's when the module is not wrapped at all. */
  ghost function ForwardedOptions(m: Module, options: Option<JsonObject>): Option<JsonObject>
    requires Finite(m)
    reads ChainObjects(m)
  {
    var chain := Chain(m);
    if chain == [] then options else Some(chain[|chain| - 1].options)
  }

  /** The call update(module, options, project) makes on the project, following
      the source's recursion: a wrapper passes its own options down. */
  function Materialized(m: Module, options: Option<JsonObject>): ProjectEvent
    requires Finite(m)
    reads ChainObjects(m)
    decreases DepthOf(m)
  {
    match m
    case Def(_) => AddLib(m)
    case Plugin(_) => AddPlugin(m, options)
    case Configurable(c) =>
      Materialized(c.wrapped, Some(c.options))
  }

  /** Whatever the depth of wrapping, the project receives the bottom module
      (the same one the list form appends), as a library exactly when it is a
      definition, and a plugin receives the innermost wrapper's options. */
  lemma {:induction false} MaterializedIsLeaf(m: Module, options: Option<JsonObject>)
    requires Finite(m)
    ensures Materialized(m, options) ==
              if Leaf(m).Def? then AddLib(Leaf(m)) else AddPlugin(Leaf(m), ForwardedOptions(m, options))
    decreases DepthOf(m)
  {
    match m
    case Def(_) =>
    case Plugin(_) =>
    case Configurable(c) =>
      MaterializedIsLeaf(c.wrapped, Some(c.options));
      var inner := Chain(c.wrapped);
      assert Chain(m) == [c] + inner;
      if inner != [] {
        assert Chain(m)[|Chain(m)| - 1] == inner[|inner| - 1];
      }
  }

  /** TernModuleHelper.update(defs, plugins, module): the bottom module is
      appended to the list of its kind and the other list is left alone. */
  method UpdateLists(defs: JavaList<TernDef>, plugins: JavaList<TernPlugin>, m: Module)
    requires Finite(m)
    modifies defs, plugins
    ensures Leaf(m).Def? ==> defs.elems == old(defs.elems) + [Leaf(m)] && plugins.elems == old(plugins.elems)
    ensures Leaf(m).Plugin? ==> plugins.elems == old(plugins.elems) + [Leaf(m)] && defs.elems == old(defs.elems)
    decreases DepthOf(m)
  {
    match m {
      case Def(_) =>
        defs.Add(m);
      case Plugin(_) =>
        plugins.Add(m);
      case Configurable(c) =>
        UpdateLists(defs, plugins, c.wrapped);
    }
  }

  /** TernModuleHelper.update(module, options, project). */
  method UpdateProjectWithOptions(m: Module, options: Option<JsonObject>, project: TernProject)
    requires Finite(m)
    modifies project
    ensures project.events == old(project.events) + [Materialized(m, options)]
    decreases DepthOf(m)
  {
    match m {
      case Def(_) =>
        project.AddLib(m);
      case Plugin(_) =>
        project.AddPlugin(m, options);
      case Configurable(c) =>
        UpdateProjectWithOptions(c.wrapped, Some(c.options), project);
    }
  }

  /** TernModuleHelper.update(module, project): no options of the caller's own. */
  method UpdateProject(m: Module, project: TernProject)
    requires Finite(m)
    modifies project
    ensures project.events == old(project.events) + [Materialized(m, None)]
  {
    UpdateProjectWithOptions(m, None, project);
  }
}
