/** The mutable state `WinRegistryConfigurationProvider.ReadSection`
    threads through its recursion: the dictionary it writes into, the
    prefix stack it pushes and pops, and (ghost) the number of registry
    key handles it holds open. The stack is kept bottom first, so that
    joining it gives the order `prefixStack.Reverse()` yields. */
module SectionReader {
  import opened Registry
  import opened Flattening

  class Walk {
    var data: ConfigData
    var prefixStack: seq<string>
    ghost var openHandles: nat

    /** A fresh dictionary and a stack holding `prefix`. */
    constructor (prefix: seq<string>)
      ensures data == map[] && prefixStack == prefix && openHandles == 0
    {
      data := map[];
      prefixStack := prefix;
      openHandles := 0;
    }

    /** Reads `section` into `data`: every subkey first, each opened, read
        with its name pushed and disposed; then every value, stored under
        the stack joined with its dot-free name. On return the stack is as
        it was on entry and every handle opened here is released. */
    method ReadSection(section: Key)
      modifies this
      ensures prefixStack == old(prefixStack)
      ensures openHandles == old(openHandles)
      ensures data == Assign(old(data), Writes(section, old(prefixStack)))
      decreases section
    {
      ghost var stack := prefixStack;
      var i := 0;
      while i < |section.subkeys|
        invariant 0 <= i <= |section.subkeys|
        invariant prefixStack == stack && openHandles == old(openHandles)
        invariant data == Assign(old(data), SubkeyWrites(section, i, stack))
      {
        var (name, subkey) := section.subkeys[i];
        prefixStack := prefixStack + [name];                 // push the subkey name
        openHandles := openHandles + 1;                      // the subkey is opened
        ReadSection(subkey);
        openHandles := openHandles - 1;                      // and disposed when its walk ends
        prefixStack := prefixStack[..|prefixStack| - 1];     // pop
        SubkeyStep(old(data), section, i, stack);
        i := i + 1;
      }
      ghost var afterSubkeys := data;
      var j := 0;
      while j < |section.values|
        invariant 0 <= j <= |section.values|
        invariant prefixStack == stack && openHandles == old(openHandles)
        invariant data == Assign(afterSubkeys, ValueWrites(section, j, stack))
      {
        var (name, value) := section.values[j];
        prefixStack := prefixStack + [ValueSegment(name)];  // push the dot-free value name
        data := data[Combine(prefixStack) := value];         // store under the joined stack
        prefixStack := prefixStack[..|prefixStack| - 1];     // pop
        ValueStep(afterSubkeys, section, j, stack);
        j := j + 1;
      }
      AssignConcat(old(data), SubkeyWrites(section, |section.subkeys|, stack), ValueWrites(section, |section.values|, stack));
    }
  }
}
