/** The mapping between a module and the name of the file that holds it. */
module FilenameCodec {
  import opened TernModel

  /** The three constants of ExtensionUtils the codec depends on. */
  datatype Conventions = Conventions(ternSuffix: string, jsonExtension: string, jsExtension: string)

  /** The values tern uses: plugin files may be named "tern-<name>", definitions
      are "<name>.json" and plugins "<name>.js". */
  const Standard := Conventions("tern-", "json", "js")

  /** Conventions under which a file name can be read back: no constant holds the
      dot that separates name and extension, and the two extensions differ. */
  ghost predicate WellFormedConventions(c: Conventions) {
    && '.' !in c.ternSuffix
    && '.' !in c.jsonExtension
    && '.' !in c.jsExtension
    && c.jsonExtension != c.jsExtension
  }

  /** tern's own values meet those conditions. */
  lemma StandardConventionsWellFormed()
    ensures WellFormedConventions(Standard)
  {
  }

  /** The built-in tables TernDef.getTernDef and TernPlugin.getTernPlugin consult. */
  datatype BuiltIns = BuiltIns(defs: map<string, ModuleInfo>, plugins: map<string, ModuleInfo>)

  /** Every built-in entry is filed under its own name. */
  ghost predicate WellFormedBuiltIns(b: BuiltIns) {
    && (forall n :: n in b.defs ==> b.defs[n].name == n)
    && (forall n :: n in b.plugins ==> b.plugins[n].name == n)
  }

  /** What BasicTernDef and BasicTernPlugin carry: a name and nothing else. */
  function BasicInfo(name: string): ModuleInfo {
    ModuleInfo(name, name, None, None)
  }

  predicate StartsWith(s: string, prefix: string) {
    |prefix| <= |s| && s[..|prefix|] == prefix
  }

  /** String.lastIndexOf: the last position of c in s, or -1. */
  function LastIndexOf(s: string, c: char): (r: int)
    ensures -1 <= r < |s|
    ensures r >= 0 ==> s[r] == c && forall j :: r < j < |s| ==> s[j] != c
    ensures r == -1 ==> forall j :: 0 <= j < |s| ==> s[j] != c
  {
    if |s| == 0 then -1
    else if s[|s| - 1] == c then |s| - 1
    else LastIndexOf(s[..|s| - 1], c)
  }

  /** The built-in definition of that name, or a bare one carrying the name. */
  function GetDef(b: BuiltIns, name: string): (r: TernDef)
    ensures WellFormedBuiltIns(b) ==> NameOf(r) == name
    ensures name in b.defs ==> r.info == b.defs[name]
    ensures name !in b.defs ==> MetadataOf(r).None? && VersionOf(r).None?
  {
    if name in b.defs then Def(b.defs[name]) else Def(BasicInfo(name))
  }

  /** The built-in plugin of that name, or a bare one carrying the name. */
  function GetPlugin(b: BuiltIns, name: string): (r: TernPlugin)
    ensures WellFormedBuiltIns(b) ==> NameOf(r) == name
    ensures name in b.plugins ==> r.info == b.plugins[name]
    ensures name !in b.plugins ==> MetadataOf(r).None? && VersionOf(r).None?
  {
    if name in b.plugins then Plugin(b.plugins[name]) else Plugin(BasicInfo(name))
  }

  /** TernModuleHelper.getModule: the module a file name stands for, if any. */
  function GetModule(c: Conventions, b: BuiltIns, filename: string): (r: Option<Module>)
    ensures r.Some? ==> !r.value.Configurable?
    ensures StartsWith(filename, c.ternSuffix) ==> r.Some? && r.value.Plugin?
    ensures !StartsWith(filename, c.ternSuffix) && '.' !in filename ==> r.None?
  {
    if StartsWith(filename, c.ternSuffix) then
      Some(GetPlugin(b, filename[|c.ternSuffix|..]))
    else
      var index := LastIndexOf(filename, '.');
      if index == -1 then None
      else
        var extension := filename[index + 1..];
        if extension == c.jsonExtension then Some(GetDef(b, filename[..index]))
        else if extension == c.jsExtension then Some(GetPlugin(b, filename[..index]))
        else None
  }

  /** TernModuleHelper.getFileName: "<name>.json" for a definition, "<name>.js"
      for every other module. */
  function GetFileName(c: Conventions, m: Module): (r: string)
    ensures |r| == |NameOf(m)| + 1 + |if m.Def? then c.jsonExtension else c.jsExtension|
    ensures r[..|NameOf(m)|] == NameOf(m) && r[|NameOf(m)|] == '.'
    ensures m.Def? ==> r[|NameOf(m)| + 1..] == c.jsonExtension
    ensures !m.Def? ==> r[|NameOf(m)| + 1..] == c.jsExtension
  {
    if m.Def? then NameOf(m) + "." + c.jsonExtension
    else NameOf(m) + "." + c.jsExtension
  }

  /** A file name built from a name with no tern prefix does not have the prefix. */
  lemma NoPrefixAfterAppending(c: Conventions, name: string, rest: string)
    requires '.' !in c.ternSuffix
    requires !StartsWith(name, c.ternSuffix)
    ensures !StartsWith(name + "." + rest, c.ternSuffix)
  {
    var f := name + "." + rest;
    if |name| < |c.ternSuffix| {
      assert f[|name|] == '.';
    }
  }

  /** Writing a definition or plugin to its file name and reading the name back
      gives a module of the same kind and name. */
  lemma FileNameRoundTrip(c: Conventions, b: BuiltIns, m: Module)
    requires WellFormedConventions(c) && WellFormedBuiltIns(b)
    requires !m.Configurable?
    requires !StartsWith(NameOf(m), c.ternSuffix)
    ensures var r := GetModule(c, b, GetFileName(c, m));
            r.Some? && NameOf(r.value) == NameOf(m) && r.value.Def? == m.Def?
  {
    var name := NameOf(m);
    var ext := if m.Def? then c.jsonExtension else c.jsExtension;
    var f := GetFileName(c, m);
    assert f == name + "." + ext;
    NoPrefixAfterAppending(c, name, ext);
    var index := LastIndexOf(f, '.');
    assert f[|name|] == '.';
    assert forall j :: |name| < j < |f| ==> f[j] == ext[j - |name| - 1];
    assert f[index + 1..] == ext;
    assert f[..index] == name;
  }

  /** Conversely, a file name the codec accepts is the file name of the module it
      yields, or the tern prefix followed by that module's name. */
  lemma GetModuleInverse(c: Conventions, b: BuiltIns, filename: string)
    requires WellFormedBuiltIns(b)
    requires GetModule(c, b, filename).Some?
    ensures var m := GetModule(c, b, filename).value;
            if StartsWith(filename, c.ternSuffix) then filename == c.ternSuffix + NameOf(m)
            else filename == GetFileName(c, m)
  {
    var m := GetModule(c, b, filename).value;
    if StartsWith(filename, c.ternSuffix) {
      assert filename == filename[..|c.ternSuffix|] + filename[|c.ternSuffix|..];
    } else {
      var index := LastIndexOf(filename, '.');
      assert filename == filename[..index] + "." + filename[index + 1..];
    }
  }

  /** An example definition file, with no built-ins. */
  lemma DefinitionFileExample()
    ensures GetModule(Standard, BuiltIns(map[], map[]), "underscore.json") == Some(Def(BasicInfo("underscore")))
  {
    var f := "underscore.json";
    assert f[..5][0] != "tern-"[0];
    assert f[10] == '.' && forall j :: 10 < j < |f| ==> f[j] != '.';
    assert f[..10] == "underscore" && f[11..] == "json";
  }

  /** An example plugin file, with no built-ins. */
  lemma PluginFileExample()
    ensures GetModule(Standard, BuiltIns(map[], map[]), "angular.js") == Some(Plugin(BasicInfo("angular")))
  {
    var f := "angular.js";
    assert f[..5][0] != "tern-"[0];
    assert f[7] == '.' && forall j :: 7 < j < |f| ==> f[j] != '.';
    assert f[..7] == "angular" && f[8..] == "js";
  }

  /** A prefixed plugin file and a file with no extension, with no built-ins. */
  lemma PrefixAndNoExtensionExamples()
    ensures GetModule(Standard, BuiltIns(map[], map[]), "tern-node") == Some(Plugin(BasicInfo("node")))
    ensures GetModule(Standard, BuiltIns(map[], map[]), "README") == None
  {
    assert "tern-node"[..5] == "tern-" && "tern-node"[5..] == "node";
    assert "README"[..5][0] != "tern-"[0];
  }
}
