/** The module model that tern's module helper works on.

    Definitions and plugins are immutable values. The configurable wrapper, which
    groups the versions of one module family and whose version, options and member
    list are changed after it is created, is a heap object. */
module TernModel {

  datatype Option<+T> = None | Some(value: T)

  /** A JSON document. The helper never looks inside an options payload: it only
      asks whether a value is an object, and copies it. */
  datatype JsonValue =
    | JNull
    | JBool(b: bool)
    | JNumber(n: int)
    | JString(s: string)
    | JArray(items: seq<JsonValue>)
    | JObject(members: seq<(string, JsonValue)>)

  type JsonObject = v: JsonValue | v.JObject? witness JObject([])

  const EmptyObject: JsonObject := JObject([])

  /** The registry record of a module; only its options map matters here. */
  datatype ModuleMetadata = ModuleMetadata(name: string, options: map<string, JsonValue>)

  /** What a definition or a plugin carries: its name, its type (the grouping key
      of its family), an optional version and optional metadata. */
  datatype ModuleInfo = ModuleInfo(
    name: string,
    typeName: string,
    version: Option<string>,
    metadata: Option<ModuleMetadata>)

  /** ITernModule with its three module types. */
  datatype Module =
    | Def(info: ModuleInfo)
    | Plugin(info: ModuleInfo)
    | Configurable(conf: ModuleConfigurable)

  type TernDef = m: Module | m.Def? witness Def(ModuleInfo("", "", None, None))
  type TernPlugin = m: Module | m.Plugin? witness Plugin(ModuleInfo("", "", None, None))

  function NameOf(m: Module): string {
    match m
    case Def(i) => i.name
    case Plugin(i) => i.name
    case Configurable(c) => c.name
  }

  function TypeOf(m: Module): string {
    match m
    case Def(i) => i.typeName
    case Plugin(i) => i.typeName
    case Configurable(c) => c.typeName
  }

  function MetadataOf(m: Module): Option<ModuleMetadata> {
    match m
    case Def(i) => i.metadata
    case Plugin(i) => i.metadata
    case Configurable(c) => c.metadata
  }

  /** The objects whose state a module's observable fields depend on. */
  function ModuleFrame(m: Module): set<object> {
    if m.Configurable? then {m.conf} else {}
  }

  function VersionOf(m: Module): Option<string>
    reads ModuleFrame(m)
  {
    match m
    case Def(i) => i.version
    case Plugin(i) => i.version
    case Configurable(c) => c.version
  }

  /** The number of options the module's metadata declares (none without metadata). */
  function OptionCount(m: Module): nat {
    match MetadataOf(m)
    case None => 0
    case Some(md) => |md.options|
  }

  /** The wrappers held by the modules of a list. */
  ghost function Confs(ms: seq<Module>): set<ModuleConfigurable> {
    set m | m in ms && m.Configurable? :: m.conf
  }

  /** StringUtils.isEmpty: a null or zero-length string. */
  predicate IsEmpty(s: Option<string>) {
    s.None? || |s.value| == 0
  }

  /** How many wrappers a module sits under; a wrapper is always one deeper than
      the module it wraps, because it is built around an existing module. */
  function DepthOf(m: Module): nat {
    if m.Configurable? then m.conf.depth else 0
  }

  /** The chain of wrappers from a module down to a definition or plugin is finite. */
  ghost predicate Finite(m: Module)
    decreases DepthOf(m)
  {
    m.Configurable? ==> DepthOf(m.conf.wrapped) < m.conf.depth && Finite(m.conf.wrapped)
  }

  /** TernModuleConfigurable: wraps the first module met of a family and collects
      the others; its version and options can be set after it is built. */
  class ModuleConfigurable {
    const wrapped: Module
    const name: string
    const typeName: string
    const metadata: Option<ModuleMetadata>
    const depth: nat
    var modules: seq<Module>
    var version: Option<string>
    var options: JsonObject

    constructor (m: Module)
      ensures wrapped == m && name == NameOf(m) && typeName == TypeOf(m) && metadata == MetadataOf(m)
      ensures depth == DepthOf(m) + 1 && (Finite(m) ==> Finite(Configurable(this)))
      ensures modules == [m] && version == VersionOf(m) && options == EmptyObject
    {
      wrapped := m;
      name := NameOf(m);
      typeName := TypeOf(m);
      metadata := MetadataOf(m);
      depth := DepthOf(m) + 1;
      modules := [m];
      version := VersionOf(m);
      options := EmptyObject;
    }

    method AddModule(m: Module)
      modifies this
      ensures modules == old(modules) + [m]
      ensures version == old(version) && options == old(options)
    {
      modules := modules + [m];
    }

    method SetVersion(v: string)
      modifies this
      ensures version == Some(v)
      ensures modules == old(modules) && options == old(options)
    {
      version := Some(v);
    }

    method SetOptions(o: JsonObject)
      modifies this
      ensures options == o
      ensures modules == old(modules) && version == old(version)
    {
      options := o;
    }
  }

  /** A java.util.List owned by a caller, to which the helper appends. */
  class JavaList<T> {
    var elems: seq<T>

    constructor ()
      ensures elems == []
    {
      elems := [];
    }

    method Add(x: T)
      modifies this
      ensures elems == old(elems) + [x]
    {
      elems := elems + [x];
    }
  }

  /** A call the helper makes on a tern project. */
  datatype ProjectEvent =
    | AddLib(lib: TernDef)
    | AddPlugin(plugin: TernPlugin, options: Option<JsonObject>)

  /** ITernProject as seen by the helper: the sequence of calls it received. */
  class TernProject {
    var events: seq<ProjectEvent>

    constructor ()
      ensures events == []
    {
      events := [];
    }

    method AddLib(d: TernDef)
      modifies this
      ensures events == old(events) + [ProjectEvent.AddLib(d)]
    {
      events := events + [ProjectEvent.AddLib(d)];
    }

    method AddPlugin(p: TernPlugin, options: Option<JsonObject>)
      modifies this
      ensures events == old(events) + [ProjectEvent.AddPlugin(p, options)]
    {
      events := events + [ProjectEvent.AddPlugin(p, options)];
    }
  }
}
