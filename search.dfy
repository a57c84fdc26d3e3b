/** Linear searches of the helper over a list of modules. */
module ModuleSearch {
  import opened TernModel

  /** f is the wrapper of the family of type t. Type names are compared as
      values here; the source compares the two String references with ==. */
  predicate IsWrapperOf(f: Module, t: string) {
    f.Configurable? && TypeOf(f) == t
  }

  /** TernModuleHelper.findConfigurable: the first wrapper of the module's family
      in allModules, on which the module's version (when it has one) and a copy of
      the options (when they are a JSON object) are imprinted. */
  method FindConfigurable(m: Module, options: JsonValue, allModules: seq<Module>)
    returns (r: Option<ModuleConfigurable>)
    modifies Confs(allModules)
    ensures r.None? <==> forall j :: 0 <= j < |allModules| ==> !IsWrapperOf(allModules[j], TypeOf(m))
    ensures r.Some? ==> exists k :: 0 <= k < |allModules| && allModules[k] == Configurable(r.value)
                                  && IsWrapperOf(allModules[k], TypeOf(m))
                                  && forall j :: 0 <= j < k ==> !IsWrapperOf(allModules[j], TypeOf(m))
    ensures r.Some? ==> r.value.version == if IsEmpty(old(VersionOf(m))) then old(r.value.version)
                                           else old(VersionOf(m))
    ensures r.Some? ==> r.value.options == if options.JObject? then options else old(r.value.options)
    ensures r.Some? ==> r.value.modules == old(r.value.modules)
    ensures forall c :: c in Confs(allModules) && r != Some(c) ==> unchanged(c)
  {
    var version := VersionOf(m);
    var i := 0;
    while i < |allModules|
      invariant 0 <= i <= |allModules|
      invariant forall j :: 0 <= j < i ==> !IsWrapperOf(allModules[j], TypeOf(m))
      invariant unchanged(Confs(allModules))
    {
      var f := allModules[i];
      if f.Configurable? && TypeOf(f) == TypeOf(m) {
        if !IsEmpty(version) {
          f.conf.SetVersion(version.value);
        }
        if options.JObject? {
          // the wrapper receives a copy; a value here cannot alias the caller's
          f.conf.SetOptions(options);
        }
        return Some(f.conf);
      }
      i := i + 1;
    }
    return None;
  }

  /** TernModuleHelper.getModuleIndex: the position of the first module with the
      given name, or nothing when no module has it. */
  method GetModuleIndex(name: string, modules: seq<Module>) returns (r: Option<nat>)
    ensures r.Some? ==> r.value < |modules| && NameOf(modules[r.value]) == name
    ensures r.Some? ==> forall j :: 0 <= j < r.value ==> NameOf(modules[j]) != name
    ensures r.None? <==> forall j :: 0 <= j < |modules| ==> NameOf(modules[j]) != name
  {
    var i := 0;
    while i < |modules|
      invariant 0 <= i <= |modules|
      invariant forall j :: 0 <= j < i ==> NameOf(modules[j]) != name
    {
      if NameOf(modules[i]) == name {
        return Some(i);
      }
      i := i + 1;
    }
    return None;
  }
}
