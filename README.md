# tern module helper, modelled in Dafny

This project models `TernModuleHelper` of tern.java, the helper that the tern
IDE integrations use to handle tern modules. A tern module is a JSON type
definition (a *def*), a tern server plugin, or a *configurable* wrapper. A
wrapper collects every version of one module family (the modules of one type)
and carries the version and the options the user chose for that family.

The helper does the following:

- it decides which modules are configurable (`isConfigurableModule`, `hasOptions`);
- it collapses a flat list of modules into one wrapper per configurable type (`groupByType`);
- it applies a module to a pair of def/plugin lists, or to a tern project, by
  looking through the wrappers (`update`);
- it finds the wrapper of a module's family and sets its version and options
  (`findConfigurable`);
- it maps a module to the name of its file, and a file name back to a module
  (`getFileName`, `getModule`, `getDef`, `getPlugin`);
- it looks a module up by name in a list (`getModuleIndex`).

The files and their modules:

- `model.dfy` (`TernModel`): the data model.
  - Defs and plugins are immutable values.
  - `ModuleConfigurable` is a class. Its version, options and member list are
    fields that the helper updates in place.
  - The caller's `java.util.List` is the class `JavaList`, to which the helper appends.
  - A tern project is the class `TernProject`, which records the calls it receives.
- `eligibility.dfy` (`Eligibility`): `hasOptions` and `isConfigurableModule`.
- `grouper.dfy` (`Grouper`): `groupByType`.
  - The loop is a method over the heap.
  - It is proved against `Grouped`, a function that mirrors the loop one
    iteration at a time.
  - `Grouped` in turn is proved equal to `Reference`, an independent
    left-to-right description: "the first configurable module of a type stands
    for all modules of that type".
- `materializer.dfy` (`Materializer`): both `update` forms, as recursive methods.
  They are proved against the function `Materialized` and the bottom module `Leaf`.
- `search.dfy` (`ModuleSearch`): `findConfigurable` and `getModuleIndex`, as loops.
- `codec.dfy` (`FilenameCodec`): `getModule`, `getDef`, `getPlugin` and
  `getFileName`, with the file-name round trip.
  - The three `ExtensionUtils` constants are a `Conventions` parameter;
    `Standard` holds tern's values `"tern-"`, `"json"` and `"js"`.
  - The built-in tables of `TernDef` and `TernPlugin` are maps keyed by name.

## Model

| member | source | states |
|---|---|---|
| Eligibility.HasOptions | core/tern.core/src/tern/utils/TernModuleHelper.java:207-212 | No module or no metadata means no options. Otherwise the result is true exactly when the metadata declares at least one option. |
| Eligibility.IsConfigurableModule | core/tern.core/src/tern/utils/TernModuleHelper.java:86-90 | A module is configurable exactly when its version is non-empty or `hasOptions` holds for it. |
| Grouper.FamilyIndex | core/tern.core/src/tern/utils/TernModuleHelper.java:68 | The lookup of the wrapper map: it gives a position holding the family of that type, and nothing exactly when no family of that type exists. |
| Grouper.GroupByType | core/tern.core/src/tern/utils/TernModuleHelper.java:55-78 | The list's earlier contents are kept and new entries are only appended. These entries correspond one to one to `Grouped(modules)` on the input state. A plain slot is the module itself. A family slot is a freshly created wrapper. It wraps the family's first member and holds all members in input order. It has that member's name, type and metadata, one more level of wrapping, empty options, and the version the slot records. When every input module has a finite chain of wrappers, so does every appended entry. |
| Grouper.GroupedFamilyVersion | core/tern.core/src/tern/utils/TernModuleHelper.java:69-72 | Every family of the grouped list is non-empty, and the version it records is the version of its first member. This is the version the wrapper is built with. |
| Grouper.GroupedConserves | core/tern.core/src/tern/utils/TernModuleHelper.java:55-78 | The plain entries and the members of all wrappers together are exactly the input modules, each as often as it occurs in the input. |
| Grouper.StepConserves | core/tern.core/src/tern/utils/TernModuleHelper.java:58-76 | One iteration adds exactly the module it reads to the modules the grouped list stands for. |
| Grouper.StepIsAbsorbAndTail | core/tern.core/src/tern/utils/TernModuleHelper.java:58-76 | One iteration on the grouped prefix: a configurable module joins the family of its type when there is one, and otherwise adds what the left-to-right description adds for it. |
| Grouper.GroupModule | core/tern.core/src/tern/utils/TernModuleHelper.java:58-76 | One iteration takes the appended entries and the type-to-wrapper map from the state for the slots to the state for `Step(slots, m)`. Only existing wrappers change; any new wrapper is fresh. If m and the earlier entries have finite chains of wrappers, so have the entries after it. |
| Grouper.AppendPlain | core/tern.core/src/tern/utils/TernModuleHelper.java:59-61 | A module that is not configurable is appended unchanged as a new plain slot, which is `Step` for it. The state invariant is kept. |
| Grouper.OpenFamily | core/tern.core/src/tern/utils/TernModuleHelper.java:69-72 | The first configurable module of a type gets a fresh wrapper, which is appended and recorded for that type. The wrapper wraps the module and takes its version. The new family slot is `Step` for the module. The state invariant is kept. |
| Grouper.JoinFamily | core/tern.core/src/tern/utils/TernModuleHelper.java:73-75 | A later module of a wrapped type is added to the end of that type's wrapper, and nothing is appended. The slots change as `Step` says. The state invariant is kept. |
| Grouper.GroupedIsReference | core/tern.core/src/tern/utils/TernModuleHelper.java:55-78 | The loop's result equals the left-to-right description. Plain modules stay in input order. Each configurable type yields one entry, at the place of its first module, and that entry holds all modules of the type. |
| Grouper.GroupedFamilies | core/tern.core/src/tern/utils/TernModuleHelper.java:65-72 | A type has a wrapper in the result exactly when some configurable module of that type is in the input. |
| Grouper.GroupedFamilyTypesDistinct | core/tern.core/src/tern/utils/TernModuleHelper.java:68-72 | No two wrappers in the result share a type. |
| Grouper.GroupedLength | core/tern.core/src/tern/utils/TernModuleHelper.java:55-78 | The number of appended entries is the number of non-configurable modules plus the number of distinct types among the configurable ones. |
| Grouper.MembersOfAbsentType | core/tern.core/src/tern/utils/TernModuleHelper.java:68-71 | A type with no configurable module in the list has no members. |
| Grouper.ReferenceSnoc | core/tern.core/src/tern/utils/TernModuleHelper.java:58-76 | One more module at the end of the input adds its own entry, or a new family, or nothing, depending on the types already met. |
| Grouper.ReferenceAbsorbs | core/tern.core/src/tern/utils/TernModuleHelper.java:73-75 | A later configurable module joins its type's existing family. |
| Materializer.Leaf | core/tern.core/src/tern/utils/TernModuleHelper.java:126-131 | Following the wrappers down always ends at a def or a plugin, never at a wrapper. |
| Materializer.MaterializedIsLeaf | core/tern.core/src/tern/utils/TernModuleHelper.java:152-169 | At any depth of wrapping, the project receives the bottom module: as a library exactly when it is a def, otherwise as a plugin. A plugin receives the innermost wrapper's options, or the caller's options when it is not wrapped. |
| Materializer.UpdateLists | core/tern.core/src/tern/utils/TernModuleHelper.java:102-134 | Exactly one list grows by exactly one element, the bottom module: `defs` for a def, `plugins` for a plugin. The other list is unchanged. |
| Materializer.UpdateProjectWithOptions | core/tern.core/src/tern/utils/TernModuleHelper.java:152-169 | The project receives exactly one call, `Materialized(m, options)`. By `MaterializedIsLeaf`, this is the module the list form appends. |
| Materializer.UpdateProject | core/tern.core/src/tern/utils/TernModuleHelper.java:142-144 | Same as the form with options, with no options of the caller's own. |
| ModuleSearch.FindConfigurable | core/tern.core/src/tern/utils/TernModuleHelper.java:181-199 | The result is the first wrapper of the module's type in `allModules`, and nothing exactly when there is none. The found wrapper's version becomes the module's version only when that version is non-empty. Its options become the given ones only when they are a JSON object. Its members and every other wrapper stay unchanged. |
| ModuleSearch.GetModuleIndex | core/tern.core/src/tern/utils/TernModuleHelper.java:317-326 | The result is the smallest index whose module has the name, and nothing exactly when no module has it. |
| FilenameCodec.LastIndexOf | core/tern.core/src/tern/utils/TernModuleHelper.java:220 | The result is the last position of the character, or -1 exactly when it does not occur. |
| FilenameCodec.GetDef | core/tern.core/src/tern/utils/TernModuleHelper.java:235-241 | A hit returns the built-in def. A miss returns a bare def with no version and no metadata. Either way the result carries the requested name. |
| FilenameCodec.GetPlugin | core/tern.core/src/tern/utils/TernModuleHelper.java:249-255 | A hit returns the built-in plugin. A miss returns a bare plugin with no version and no metadata. Either way the result carries the requested name. |
| FilenameCodec.GetFileName | core/tern.core/src/tern/utils/TernModuleHelper.java:277-286 | A def gives its name, a dot and the JSON extension. Every other module, a wrapper included, gives its name, a dot and the JS extension. |
| FilenameCodec.StandardConventionsWellFormed | core/tern.core/src/tern/utils/TernModuleHelper.java:215-230 | tern's own prefix and extensions contain no dot, and the two extensions differ. So the file-name round trip holds for them. |
| FilenameCodec.GetModule | core/tern.core/src/tern/utils/TernModuleHelper.java:214-233 | The prefix test wins: a prefixed name is always a plugin. A name with neither the prefix nor a dot gives nothing. A module is never a wrapper. |
| FilenameCodec.FileNameRoundTrip | core/tern.core/src/tern/utils/TernModuleHelper.java:277-286 | Take a def or a plugin whose name lacks the prefix, under conventions whose constants have no dot. Reading back its file name gives a module of the same name and kind. |
| FilenameCodec.GetModuleInverse | core/tern.core/src/tern/utils/TernModuleHelper.java:214-233 | Every accepted file name is either the prefix followed by the module's name, or exactly the file name `getFileName` gives for the module read. |
| FilenameCodec.NoPrefixAfterAppending | core/tern.core/src/tern/utils/TernModuleHelper.java:215 | Appending a dot and an extension to a name without the prefix does not create the prefix. |
| FilenameCodec.DefinitionFileExample | core/tern.core/src/tern/utils/TernModuleHelper.java:224-227 | `underscore.json` reads as a bare def named `underscore`. |
| FilenameCodec.PluginFileExample | core/tern.core/src/tern/utils/TernModuleHelper.java:228-230 | `angular.js` reads as a bare plugin named `angular`. |
| FilenameCodec.PrefixAndNoExtensionExamples | core/tern.core/src/tern/utils/TernModuleHelper.java:215-223 | `tern-node` reads as the plugin `node`, and `README` reads as nothing. |
| TernModel.ModuleConfigurable.constructor | core/tern.core/src/tern/utils/TernModuleHelper.java:70 | A new wrapper wraps the module, takes its name, type, metadata and version, holds only that module, and has empty options. |
| TernModel.ModuleConfigurable.AddModule | core/tern.core/src/tern/utils/TernModuleHelper.java:74 | The module is appended to the members; version and options are unchanged. |
| TernModel.ModuleConfigurable.SetVersion | core/tern.core/src/tern/utils/TernModuleHelper.java:188 | Only the version changes. |
| TernModel.ModuleConfigurable.SetOptions | core/tern.core/src/tern/utils/TernModuleHelper.java:192-193 | Only the options change. |
| TernModel.JavaList.Add | core/tern.core/src/tern/utils/TernModuleHelper.java:61 | The element is appended and nothing else changes. |
| TernModel.TernProject.AddLib | core/tern.core/src/tern/utils/TernModuleHelper.java:156 | The project records one `addLib` call. |
| TernModel.TernProject.AddPlugin | core/tern.core/src/tern/utils/TernModuleHelper.java:159 | The project records one `addPlugin` call with the options it was given. |

## Left out

- `sort`: it only builds a `ModuleDependenciesComparator`, and its old body is commented out. The comparator is not part of this model.
- `getPath`: it asks the file system for a canonical path. That is I/O, with nothing to model.
- The metadata registry, the loading of module descriptors, the JSON library and the IDE interfaces are not part of this model. Metadata is a value with an options map, and JSON is a value datatype.
- `TernModuleConfigurable` is not part of this model. The wrapper model is chosen as follows:
  - it takes name, type, metadata and initial version from the module it wraps;
  - it starts with empty options;
  - `addModule` appends to its member list.
- SetVersion: the wrapped module stays the first member for the wrapper's whole life, and `setVersion` only records the version. So a version set by `FindConfigurable` does not change which module `UpdateLists` and `UpdateProject` send. How `TernModuleConfigurable` picks its wrapped module from the selected version is not part of this model.
- FindConfigurable: the source compares the two type strings with `==`, which is reference identity in Java. The model compares them as values, so two equal type names held in distinct String objects match here but may not match in the source.
- FindConfigurable: the copy `new JsonObject(options)` is a value here, so the model cannot show that the wrapper and the caller do not share the object.
- `update(defs, plugins, options, module)`: the private overload's options parameter is never read, so `UpdateLists` has none.
- Materializer.Leaf: `Finite` and the `depth` const of a wrapper (a field the source does not have) bound the recursion through wrappers. Every wrapper is built around an existing module, so the chain is finite. A cycle made through a wrapper's mutable state is outside the model.
- The lazy creation of the `HashMap` in `groupByType` has no observable effect, so the map starts empty.
- GroupByType: the number of appended entries is not stated in its own contract. `Realizes` fixes it at `|Grouped(modules)|`, and `GroupedLength` counts that. Likewise, the left-to-right reading comes from `GroupedIsReference`, the conservation of modules from `GroupedConserves`, and the wrapper's starting version from `GroupedFamilyVersion`, and not from the method's contract.
- `BasicTernDef` and `BasicTernPlugin` are not part of this model. The bare module built on a table miss uses its name as its type.
- `ExtensionUtils` is not part of this model. Its three constants are a parameter.
- `null` arguments are not modelled, except two, which are `Option`s: the module of `hasOptions`, and the options of `update(module, ternProject, options)`. `UpdateProject` passes `None` where `update(module, ternProject)` passes `null`.
