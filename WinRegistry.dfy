/** `WinRegistryConfigurationSource` (the revision with a data adapter)
    and `WinRegistryConfigurationProvider`: argument checks, the settings a
    source carries, and `Load`, which resolves the root, opens the section,
    walks it, runs the adapter and publishes the result as `Data`. */
module WinRegistry {
  import opened Wrappers
  import opened Registry
  import opened Flattening
  import opened Text
  import SectionReader

  /** The exceptions thrown by the modelled members, with the parameter
      name each carries. */
  datatype Error =
    | ArgumentNull(paramName: string)
    | Argument(paramName: string)
    | ArgumentOutOfRange(paramName: string)
    | NullReference

  /** The registry root getter (`Func<RegistryKey>`): its result, `None`
      when it returns null. It is deterministic and never throws. */
  type RootGetter = () -> Option<Key>

  /** The optional data adapter (`Action<IDictionary<string, string>>`):
      what the dictionary holds after it has run. */
  type Adapter = ConfigData -> ConfigData

  /** The constructor's guards, in their order: a null root getter first,
      then a null, empty or whitespace-only section path. */
  function CheckSourceArgs(registryRoot: Option<RootGetter>, sectionPath: Option<string>): (r: Option<Error>)
    ensures r.None? <==> registryRoot.Some? && !IsNullOrWhiteSpace(sectionPath)
    ensures registryRoot.None? ==> r == Some(ArgumentNull("registryRoot"))
    ensures registryRoot.Some? && IsNullOrWhiteSpace(sectionPath) ==> r == Some(Argument("sectionPath"))
  {
    if registryRoot.None? then Some(ArgumentNull("registryRoot"))
    else if IsNullOrWhiteSpace(sectionPath) then Some(Argument("sectionPath"))
    else None
  }

  /** The stack `Load` starts the walk with: the root section, unless it
      is null or blank. */
  function RootPrefix(rootSection: Option<string>): (r: seq<string>)
    ensures |r| <= 1
    ensures r == [] <==> IsNullOrWhiteSpace(rootSection)
    ensures r != [] ==> r[0] == rootSection.value
  {
    if IsNullOrWhiteSpace(rootSection) then [] else [rootSection.value]
  }

  /** The dictionary after the adapter, if any, has run on it. */
  function Adapt(adapter: Option<Adapter>, data: ConfigData): ConfigData
  {
    match adapter
    case None => data
    case Some(f) => f(data)
  }

  class Source {
    const SectionPath: string
    const RegistryRoot: RootGetter
    /** Settable after construction, as the registration callback does. */
    var DataAdapter: Option<Adapter>
    /** Settable after construction; prepended to every key when not blank. */
    var RootSection: Option<string>

    /** Stores the arguments once they have passed `CheckSourceArgs`. */
    constructor (registryRoot: RootGetter, sectionPath: string, dataAdapter: Option<Adapter>)
      requires CheckSourceArgs(Some(registryRoot), Some(sectionPath)).None?
      ensures SectionPath == sectionPath && RegistryRoot == registryRoot
      ensures DataAdapter == dataAdapter && RootSection == None
    {
      SectionPath := sectionPath;
      RegistryRoot := registryRoot;
      DataAdapter := dataAdapter;
      RootSection := None;
    }

    /** `Build`: a new provider over this very source (the builder argument
        plays no part). */
    method Build() returns (p: Provider)
      ensures fresh(p) && p.source == this && p.Data == map[]
    {
      p := new Provider(this);
    }
  }

  /** `new WinRegistryConfigurationSource(registryRoot, sectionPath,
      dataAdapter = null)`: the argument checks, then the stored settings. */
  method NewSource(registryRoot: Option<RootGetter>, sectionPath: Option<string>, dataAdapter: Option<Adapter> := None)
    returns (r: Result<Source, Error>)
    ensures r.Failure? <==> CheckSourceArgs(registryRoot, sectionPath).Some?
    ensures r.Failure? ==> r.error == CheckSourceArgs(registryRoot, sectionPath).value
    ensures r.Success? ==>
              && fresh(r.value)
              && r.value.RegistryRoot == registryRoot.value && r.value.SectionPath == sectionPath.value
              && r.value.DataAdapter == dataAdapter && r.value.RootSection == None
  {
    var check := CheckSourceArgs(registryRoot, sectionPath);
    if check.Some? {
      return Failure(check.value);
    }
    var s := new Source(registryRoot.value, sectionPath.value, dataAdapter);
    return Success(s);
  }

  class Provider {
    const source: Source
    /** The published configuration data (the base class starts it empty). */
    var Data: ConfigData

    constructor (source: Source)
      ensures this.source == source && Data == map[]
    {
      this.source := source;
      Data := map[];
    }

    /** `Load`. A null root fails before anything is opened and leaves
        `Data` alone. A section path that does not resolve resets `Data`
        to empty and then fails on the null section, so the adapter never
        runs. Otherwise the section is walked with the root section (if
        any) at the bottom of the stack, disposed, handed to the adapter,
        and what the adapter leaves is published. No handle stays open. */
    method Load() returns (err: Option<Error>, ghost openHandles: nat)
      modifies this
      ensures var root := source.RegistryRoot();
        root.None? ==> err == Some(ArgumentOutOfRange("source")) && Data == old(Data)
      ensures var root := source.RegistryRoot();
        root.Some? && OpenSubKey(root.value, source.SectionPath).None? ==>
          err == Some(NullReference) && Data == map[]
      ensures var root := source.RegistryRoot();
        root.Some? && OpenSubKey(root.value, source.SectionPath).Some? ==>
          err == None
          && Data == Adapt(source.DataAdapter,
                           Flatten(OpenSubKey(root.value, source.SectionPath).value, RootPrefix(source.RootSection)))
      ensures openHandles == 0
    {
      var root := source.RegistryRoot();
      if root.None? {
        return Some(ArgumentOutOfRange("source")), 0;
      }
      var section := OpenSubKey(root.value, source.SectionPath);
      ghost var sectionOpen: nat := if section.Some? then 1 else 0;
      if section.None? {
        Data := map[];
      }
      var walk := new SectionReader.Walk(RootPrefix(source.RootSection));
      if section.None? {
        // Reading the null section throws, and so does disposing it
        // afterwards; nothing was opened.
        return Some(NullReference), sectionOpen + walk.openHandles;
      }
      walk.ReadSection(section.value);
      sectionOpen := sectionOpen - 1;                          // the section is disposed
      var data := walk.data;
      if source.DataAdapter.Some? {
        data := source.DataAdapter.value(data);                // the adapter runs once
      }
      Data := data;
      return None, sectionOpen + walk.openHandles;
    }
  }

  /** `new WinRegistryConfigurationProvider(source)`: a null source is an
      argument-null error and no provider is made. */
  method NewProvider(source: Source?) returns (r: Result<Provider, Error>)
    ensures r.Failure? <==> source == null
    ensures r.Failure? ==> r.error == ArgumentNull("source")
    ensures r.Success? ==> fresh(r.value) && r.value.source == source && r.value.Data == map[]
  {
    if source == null {
      return Failure(ArgumentNull("source"));
    }
    var p := new Provider(source);
    return Success(p);
  }

  /** Loading twice from an unchanged store publishes the same data. */
  method LoadTwice(p: Provider) returns (first: ConfigData, second: ConfigData)
    modifies p
    ensures first == second
  {
    var e1, h1 := p.Load();
    first := p.Data;
    var e2, h2 := p.Load();
    second := p.Data;
  }
}
