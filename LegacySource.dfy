/** The earlier revision of `WinRegistryConfigurationSource`: two
    arguments, no data adapter, two get-only properties set once. It is a
    value, built by a constructor that either fails or stores exactly its
    arguments. */
module LegacySource {
  import opened Wrappers
  import opened Text
  import WinRegistry

  datatype LegacySource = LegacySource(SectionPath: string, RegistryRoot: WinRegistry.RootGetter)

  /** `new WinRegistryConfigurationSource(registryRoot, sectionPath)`. */
  function NewLegacySource(registryRoot: Option<WinRegistry.RootGetter>, sectionPath: Option<string>)
    : (r: Result<LegacySource, WinRegistry.Error>)
    ensures registryRoot.None? ==> r == Failure(WinRegistry.ArgumentNull("registryRoot"))
    ensures registryRoot.Some? && IsNullOrWhiteSpace(sectionPath) ==>
              r == Failure(WinRegistry.Argument("sectionPath"))
    ensures r.Success? <==> registryRoot.Some? && !IsNullOrWhiteSpace(sectionPath)
    ensures r.Success? ==>
              && r.value.SectionPath == sectionPath.value
              && r.value.RegistryRoot == registryRoot.value
              && !IsNullOrWhiteSpace(Some(r.value.SectionPath))
  {
    if registryRoot.None? then Failure(WinRegistry.ArgumentNull("registryRoot"))
    else if IsNullOrWhiteSpace(sectionPath) then Failure(WinRegistry.Argument("sectionPath"))
    else Success(LegacySource(sectionPath.value, registryRoot.value))
  }

  /** Both revisions run the same guards in the same order: they accept the
      same arguments and fail with the same error. */
  lemma ChecksAgree(registryRoot: Option<WinRegistry.RootGetter>, sectionPath: Option<string>)
    ensures NewLegacySource(registryRoot, sectionPath).Success?
            <==> WinRegistry.CheckSourceArgs(registryRoot, sectionPath).None?
    ensures NewLegacySource(registryRoot, sectionPath).Failure? ==>
              NewLegacySource(registryRoot, sectionPath).error
              == WinRegistry.CheckSourceArgs(registryRoot, sectionPath).value
  {
  }

  /** `Build`: a provider over this source's section path and root getter;
      this revision has neither a root section nor an adapter. */
  method Build(s: LegacySource) returns (p: WinRegistry.Provider)
    requires !IsNullOrWhiteSpace(Some(s.SectionPath))
    ensures fresh(p) && p.Data == map[]
    ensures p.source.SectionPath == s.SectionPath && p.source.RegistryRoot == s.RegistryRoot
    ensures p.source.RootSection == None && p.source.DataAdapter == None
  {
    var source := new WinRegistry.Source(s.RegistryRoot, s.SectionPath, None);
    p := source.Build();
  }
}
