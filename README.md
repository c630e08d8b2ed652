# Windows-registry configuration provider, modelled in Dafny

This project models the core of `Cti.Extensions.Configuration.WinRegistry`:
a configuration source that names a registry section, and a provider whose
`Load` walks that section depth-first and flattens it into a dictionary from
composite key to string value.

- A registry key is the datatype `Registry.Key`. It holds its subkeys and its
  values as `(name, ...)` pairs in the order the store enumerates them. A null
  value is `None`.
- A composite key joins segments with `:`, as `ConfigurationPath.Combine`
  does. The segments are the root section (when it is not blank), then the
  names of the subkeys from the section down to the value's owner, unchanged,
  then the value name with every `.` removed.
- `Flattening` is the specification. `Writes` is the ordered list of
  `data[key] = value` assignments the walk makes. At each key, all subkeys
  come first, then the key's own values. `Assign` performs those assignments,
  so a later write to a key replaces an earlier one. `Flatten` starts that
  from an empty dictionary.
- `SectionReader.Walk.ReadSection` is the walk itself. It is a recursive
  method with two loops over a shared prefix stack (a `seq` kept bottom
  first) and a dictionary it updates in place. It is proved to leave the
  stack as it found it, to release every handle it opens (a ghost counter),
  and to leave `data == Assign(old(data), Writes(section, old(prefixStack)))`.
- `WinRegistry.Provider.Load` reads the root through the root getter, opens
  the section, starts the stack with the root section, walks the section and
  disposes it. It then runs the data adapter, if one is set, and publishes the
  result as `Data`.
- The root getter is a function `() -> Option<Key>`. The adapter is an
  arbitrary function from dictionary to dictionary, applied once.

A section path that does not resolve is modelled as the code behaves, not
as a lenient "empty map, no error" reading would have it. At
`src/Config.WinRegistry/WinRegistryConfigurationProvider.cs:37-40`, `Data` is
set to an empty dictionary but the method does not return. It then reads and
disposes the null section, which throws. So in the model, `Load` resets
`Data` to empty, fails with `NullReference`, and never runs the adapter.

The provider file reads `source.RootSection`, and the tests assign
`RootSection` and `DataAdapter` after construction. So `WinRegistry.Source`
has settable `RootSection` and `DataAdapter` fields. `SectionPath` and
`RegistryRoot` are constants. The earlier two-argument revision of the source
is the value type `LegacySource.LegacySource`.

## Model

| member | source | states |
|---|---|---|
| `WinRegistry.NewProvider` | src/Config.WinRegistry/WinRegistryConfigurationProvider.cs:18-23 | a null source fails with an argument-null error for `source` and makes no provider; otherwise the new provider holds exactly that source and empty `Data` |
| `WinRegistry.Provider.constructor` | src/Config.WinRegistry/WinRegistryConfigurationProvider.cs:18-23 | stores the source; `Data` starts empty |
| `WinRegistry.Provider.Load` | src/Config.WinRegistry/WinRegistryConfigurationProvider.cs:26-62 | a null root fails with an out-of-range error on `source` and leaves `Data` unchanged; an unresolved section resets `Data` to empty and fails with a null reference, without running the adapter; otherwise `Data` is the adapter (if set) applied once to the flattened section, whose stack starts with the root section when it is not blank; no handle is left open |
| `WinRegistry.Adapt` | src/Config.WinRegistry/WinRegistryConfigurationProvider.cs:59 | defines the adapter call: the dictionary unchanged when no adapter is set, otherwise what the adapter leaves |
| `WinRegistry.LoadTwice` | src/Config.WinRegistry/WinRegistryConfigurationProvider.cs:26-62 | two loads over an unchanged store publish the same data |
| `WinRegistry.RootPrefix` | src/Config.WinRegistry/WinRegistryConfigurationProvider.cs:43-48 | the initial stack is empty exactly when the root section is null or blank, else the root section alone |
| `SectionReader.Walk.constructor` | src/Config.WinRegistry/WinRegistryConfigurationProvider.cs:42-48 | a fresh empty dictionary and a stack holding the given prefix, no handles open |
| `SectionReader.Walk.ReadSection` | src/Config.WinRegistry/WinRegistryConfigurationProvider.cs:64-86 | on return the stack equals the stack on entry, the open-handle count is back where it was, and the dictionary is the old one after the walk's assignments in walk order (subkeys first, then values) |
| `Flattening.Combine` | src/Config.WinRegistry/WinRegistryConfigurationProvider.cs:82 | defines `ConfigurationPath.Combine`: the segments joined with `:` |
| `Flattening.Writes` | src/Config.WinRegistry/WinRegistryConfigurationProvider.cs:66-85 | defines the walk's assignments in order: those of every subkey in enumeration order, then one per value of the key |
| `Flattening.SubkeyWrites` | src/Config.WinRegistry/WinRegistryConfigurationProvider.cs:66-76 | defines the assignments of the first n iterations of the subkey loop, each subkey read with its name pushed on the stack |
| `Flattening.Assign` | src/Config.WinRegistry/WinRegistryConfigurationProvider.cs:82 | defines performing assignments in order through the indexer, a later write to a key replacing an earlier one |
| `Flattening.Flatten` | src/Config.WinRegistry/WinRegistryConfigurationProvider.cs:42-52 | defines the dictionary the walk builds from an empty dictionary with the given prefix on the stack |
| `Flattening.ValueSegment` | src/Config.WinRegistry/WinRegistryConfigurationProvider.cs:80 | the value-name segment contains no `.` |
| `Flattening.ValueSegmentDeletesDots` | src/Config.WinRegistry/WinRegistryConfigurationProvider.cs:80 | the segment is the value name with its dots deleted: shorter by the number of dots, and a dot between two parts just joins their segments |
| `Flattening.ValueWrites` | src/Config.WinRegistry/WinRegistryConfigurationProvider.cs:78-85 | the j-th value of a key is assigned under the stack plus its dot-free name, with its own value (null stays null) |
| `Flattening.AssignConcat` | src/Config.WinRegistry/WinRegistryConfigurationProvider.cs:82 | performing two lists of assignments in turn is performing their concatenation |
| `Flattening.AssignKeys` | src/Config.WinRegistry/WinRegistryConfigurationProvider.cs:82 | after the writes, the keys are the old keys plus the keys written |
| `Flattening.AssignLastWins` | src/Config.WinRegistry/WinRegistryConfigurationProvider.cs:82 | a written key holds the value of its last write |
| `Flattening.AssignUnwritten` | src/Config.WinRegistry/WinRegistryConfigurationProvider.cs:82 | a key never written keeps its presence or absence and its value |
| `Flattening.AssignFromWrites` | src/Config.WinRegistry/WinRegistryConfigurationProvider.cs:82 | starting empty, every entry is the value of the last write to its key |
| `Flattening.KeysOfSize` | src/Config.WinRegistry/WinRegistryConfigurationProvider.cs:82 | n assignments write at most n distinct keys |
| `Flattening.WritesCount` | src/Config.WinRegistry/WinRegistryConfigurationProvider.cs:66-85 | the walk makes exactly one assignment per value in the subtree |
| `Flattening.FlattenSize` | src/Config.WinRegistry/WinRegistryConfigurationProvider.cs:66-85 | before the adapter, the dictionary has at most as many entries as the subtree has values |
| `Flattening.WriteSound` | src/Config.WinRegistry/WinRegistryConfigurationProvider.cs:66-85 | every assignment stores a value found in the subtree, under stack + raw subkey names down to its owner + the dot-free value name |
| `Flattening.WriteComplete` | src/Config.WinRegistry/WinRegistryConfigurationProvider.cs:66-85 | every value in the subtree is assigned under that composite key |
| `Flattening.FlattenKeyShape` | src/Config.WinRegistry/WinRegistryConfigurationProvider.cs:66-85 | a key is in the dictionary if and only if it is the composite key of some value in the subtree, and it holds one of those values |
| `Flattening.CombineLastInjective` | src/Config.WinRegistry/WinRegistryConfigurationProvider.cs:82 | under the same stack, different last segments give different keys |
| `Flattening.OwnValueWins` | src/Config.WinRegistry/WinRegistryConfigurationProvider.cs:66-85 | since a key's values are assigned after all its subkeys, the key's own value wins any collision with a key produced below it |
| `Flattening.WritesPrefixed` | src/Config.WinRegistry/WinRegistryConfigurationProvider.cs:45-48 | a root section `p` at the bottom of the stack turns each assignment to `key` into one to `p:key`, with the same value, in the same order |
| `Flattening.AssignPrefixed` | src/Config.WinRegistry/WinRegistryConfigurationProvider.cs:82 | performing prefixed assignments builds exactly the prefixed dictionary |
| `Flattening.FlattenPrefixed` | src/Config.WinRegistry/WinRegistryConfigurationProvider.cs:45-48 | with root section `p`, every key starts with `p:`; dropping `p:` from every key gives exactly the dictionary of the walk without a root section, value for value |
| `Flattening.ExampleFlatten` | src/Config.WinRegistry/WinRegistryConfigurationProvider.cs:78-82 | section `A` with subkey `B` holding value `C.D` = "5" flattens to `{B:CD: "5"}`, and to `{X:B:CD: "5"}` with root section `X` |
| `Registry.Child` | src/Config.WinRegistry/WinRegistryConfigurationProvider.cs:70 | opening a subkey by name finds the first subkey of that name, or nothing when none has it |
| `Registry.Descend` | src/Config.WinRegistry/WinRegistryConfigurationProvider.cs:35 | a key found by following names one subkey at a time is reached from the start by that path |
| `Registry.OpenSubKey` | src/Config.WinRegistry/WinRegistryConfigurationProvider.cs:35 | a section found at a backslash path is reached from the root by following the path's segments |
| `Registry.UniqueNames` | src/Config.WinRegistry/WinRegistryConfigurationProvider.cs:66-70 | defines the registry's guarantee that no two sibling subkeys share a name, at any depth |
| `Registry.ChildByEnumeratedName` | src/Config.WinRegistry/WinRegistryConfigurationProvider.cs:70 | with unique names, opening an enumerated subkey by its name gives that very subkey, so walking the pairs is walking what the code opens |
| `Registry.DescendComplete` | src/Config.WinRegistry/WinRegistryConfigurationProvider.cs:35 | with unique names, a key reached by a path is exactly what following the path finds |
| `Registry.OpenSubKeyResolves` | src/Config.WinRegistry/WinRegistryConfigurationProvider.cs:35-37 | with unique names, the section lookup fails exactly when no key sits at the split path, and otherwise finds that key |
| `Text.IsWhiteSpace` | src/Config.WinRegistry/WinRegistryConfigurationSource.cs:24 | defines the characters .NET's `char.IsWhiteSpace` accepts |
| `Text.IsNullOrWhiteSpace` | src/Config.WinRegistry/WinRegistryConfigurationSource.cs:24 | defines `string.IsNullOrWhiteSpace` character by character: null, or every character whitespace (so the empty string counts) |
| `Text.TrimStart` | src/Config.WinRegistry/WinRegistryConfigurationSource.cs:24 | leading whitespace is removed, the rest is a suffix of the input, and it does not start with whitespace |
| `Text.TrimEnd` | src/Config.WinRegistry/WinRegistryConfigurationSource.cs:24 | trailing whitespace is removed, the rest is a prefix of the input, and it does not end with whitespace |
| `Text.Trim` | src/Config.WinRegistry/WinRegistryConfigurationSource.cs:24 | defines `Trim` as both trims in turn |
| `Text.IsNullOrWhiteSpaceByTrim` | src/Config.WinRegistry/WinRegistryConfigurationSource.cs:24 | defines the documented form of the test: null, empty, or empty once trimmed |
| `Text.WhiteSpaceIffTrimmedEmpty` | src/Config.WinRegistry/WinRegistryConfigurationSource.cs:24 | the character-by-character test and the trim-based test agree on every argument, null included |
| `Text.BlankExamples` | src/Config.WinRegistry/WinRegistryConfigurationProvider.cs:45 | null, "" and whitespace-only strings are blank; "A" and " A " are not |
| `Text.Split` | src/Config.WinRegistry/WinRegistryConfigurationProvider.cs:35 | splits a path at every separator into at least one piece, none of which contains the separator |
| `Text.SplitThenJoin` | src/Config.WinRegistry/WinRegistryConfigurationProvider.cs:35 | joining the segments of a split path gives the path back |
| `Text.JoinThenSplit` | src/Config.WinRegistry/WinRegistryConfigurationProvider.cs:35 | splitting a join of separator-free segments gives the segments back |
| `Text.JoinAppend` | src/Config.WinRegistry/WinRegistryConfigurationProvider.cs:82 | joining two non-empty segment lists puts one delimiter between the two joins |
| `Text.RemoveAll` | src/Config.WinRegistry/WinRegistryConfigurationProvider.cs:80 | the result has no occurrence of the removed character and is no longer than the input; with `RemoveAllLength`, `RemoveAllAppend` and `RemoveAllAbsent` it is exactly the input with those characters deleted |
| `Text.RemoveAllLength` | src/Config.WinRegistry/WinRegistryConfigurationProvider.cs:80 | the result is shorter than the input by exactly the number of occurrences removed |
| `Text.RemoveAllAppend` | src/Config.WinRegistry/WinRegistryConfigurationProvider.cs:80 | removing dots distributes over concatenation, so every other character is kept in order |
| `Text.RemoveAllAbsent` | src/Config.WinRegistry/WinRegistryConfigurationProvider.cs:80 | a name without dots is used unchanged |
| `WinRegistry.CheckSourceArgs` | src/Config.WinRegistry/WinRegistryConfigurationSource.cs:22-24 | a null root getter is an argument-null error on `registryRoot`, checked first; then a null, empty or whitespace section path is an argument error on `sectionPath`; otherwise no error |
| `WinRegistry.NewSource` | src/Config.WinRegistry/WinRegistryConfigurationSource.cs:17-31 | fails exactly when the guards fail, with their error; otherwise the new source holds exactly the arguments, the adapter defaulting to null, with no root section |
| `WinRegistry.Source.constructor` | src/Config.WinRegistry/WinRegistryConfigurationSource.cs:26-30 | the section path, root getter and adapter equal the arguments |
| `WinRegistry.Source.Build` | src/Config.WinRegistry/WinRegistryConfigurationSource.cs:47-48 | a new provider over this very source, with empty `Data` |
| `LegacySource.NewLegacySource` | src/Config.WinRegistry/Config.WinRegistry/WinRegistryConfigurationSource.cs:15-24 | a null root getter fails with argument-null first, a blank section path with an argument error; on success both fields equal the arguments |
| `LegacySource.ChecksAgree` | src/Config.WinRegistry/Config.WinRegistry/WinRegistryConfigurationSource.cs:17-19 | the two revisions accept the same arguments and fail with the same error |
| `LegacySource.Build` | src/Config.WinRegistry/Config.WinRegistry/WinRegistryConfigurationSource.cs:35-36 | a new provider over this source's section path and root getter, with no root section and no adapter |

## Left out

- The Windows registry API is replaced by the `Key` datatype. This covers native handles, case-insensitive names, and `OpenSubKey`'s path normalisation (leading, trailing or doubled backslashes). A section path is split on `\` and followed name by name, with exact comparison.
- The root getter's own exceptions are not modelled. In the code, such an exception leaves `Load` before anything is opened and before `Data` changes. The getter is a deterministic `() -> Option<Key>`, so it can fail only by returning null; `WinRegistry.LoadTwice` holds because of that.
- Value stringification (`GetValue(..)?.ToString()` over DWORD, multi-string or binary data) is not modelled. A value is already `Option<string>`.
- Store access failures during the walk are not modelled: permission errors, or a subkey deleted between enumeration and opening. So the walk never throws. Handle release is therefore shown for normal exits and for the null-section failure, not for an exception in the middle of the walk.
- `SectionReader.Walk.ReadSection` iterates over the `(name, subkey)` pairs instead of reopening each subkey by name. For a tree with unique sibling names (`Registry.UniqueNames`), `Registry.ChildByEnumeratedName` shows that both give the same subkey. `Key` itself does not enforce unique names.
- The adapter's own behaviour is left out: it is an arbitrary function. This includes its exceptions, such as `Dictionary.Add` on a key already present.
- The `ConfigurationProvider` base class is left out: `TryGet`, reload tokens, and its case-insensitive comparer. `ConfigurationPath` is modelled only as joining with `:`. Keys are compared exactly, as the dictionary built in `Load` does.
- `Source.Build` takes no builder parameter, because the builder is never used.
- The two `WinRegistryConfigurationExtensions.cs` files are left out. They register a source with a configuration builder and invoke a callback.
- `LegacySource.Build`: the provider that matched the two-argument source is not part of this model. The model hands the legacy settings to the current provider, with neither a root section nor an adapter.
- Concurrency and timing are not modelled. `Load` is sequential.
