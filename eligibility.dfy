/** Which modules the helper treats as configurable. */
module Eligibility {
  import opened TernModel

  /** TernModuleHelper.hasOptions: a null module, or one without metadata, has
      no options; otherwise it has options when its metadata declares any. */
  function HasOptions(m: Option<Module>): (r: bool)
    ensures m.None? ==> !r
    ensures m.Some? && MetadataOf(m.value).None? ==> !r
    ensures r <==> m.Some? && OptionCount(m.value) > 0
  {
    if m.None? || MetadataOf(m.value).None? then false
    else |MetadataOf(m.value).value.options| > 0
  }

  /** TernModuleHelper.isConfigurableModule: a module whose version can be chosen
      or which has options gets wrapped by the grouper. */
  function IsConfigurableModule(m: Module): (r: bool)
    reads ModuleFrame(m)
    ensures r <==> !IsEmpty(VersionOf(m)) || HasOptions(Some(m))
  {
    var metadata := MetadataOf(m);
    !IsEmpty(VersionOf(m)) || (metadata.Some? && |metadata.value.options| > 0)
  }
}
