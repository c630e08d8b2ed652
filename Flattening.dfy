/** What `WinRegistryConfigurationProvider.ReadSection` computes, stated
    without a mutable stack: the depth-first walk emits an ordered list of
    dictionary assignments (`Writes`), and the dictionary is what is left
    after performing them in order, a later write to a key replacing an
    earlier one (`Assign`). */
module Flattening {
  import opened Wrappers
  import opened Registry
  import Text

  /** Configuration data: composite key to value, `None` for a null value. */
  type ConfigData = map<string, Option<string>>

  /** `ConfigurationPath.KeyDelimiter`. */
  const KeyDelimiter: char := ':'

  /** `ConfigurationPath.Combine`: the segments joined with ':'. */
  function Combine(segs: seq<string>): string
  {
    Text.JoinWith(KeyDelimiter, segs)
  }

  /** The last segment of a key: the value name with every '.' removed. */
  function ValueSegment(name: string): (r: string)
    ensures '.' !in r
  {
    Text.RemoveAll(name, '.')
  }

  /** The value segment is the name with its dots deleted, not replaced:
      it is shorter by the number of dots, and each side of a split name
      is handled on its own. */
  lemma ValueSegmentDeletesDots(name: string, a: string, b: string)
    ensures |ValueSegment(name)| == |name| - multiset(name)['.']
    ensures ValueSegment(a + "." + b) == ValueSegment(a) + ValueSegment(b)
  {
    Text.RemoveAllLength(name, '.');
    Text.RemoveAllAppend(a + ".", b, '.');
    Text.RemoveAllAppend(a, ".", '.');
    assert Text.RemoveAll(".", '.') == "";
  }

  /** One `data[key] = value` assignment. */
  datatype Write = Write(key: string, value: Option<string>)

  /** The assignments made while reading key `k` with `stack` as the
      prefix segments: first those of every subkey, in enumeration order,
      then one per value of `k`. */
  function Writes(k: Key, stack: seq<string>): seq<Write>
    decreases k, 1, 0
  {
    SubkeyWrites(k, |k.subkeys|, stack) + ValueWrites(k, |k.values|, stack)
  }

  /** The assignments made by the first `n` iterations of the subkey loop:
      each subkey is read with its own name pushed on the stack. */
  function SubkeyWrites(k: Key, n: nat, stack: seq<string>): seq<Write>
    requires n <= |k.subkeys|
    decreases k, 0, n
  {
    if n == 0 then []
    else SubkeyWrites(k, n - 1, stack) + Writes(k.subkeys[n - 1].1, stack + [k.subkeys[n - 1].0])
  }

  /** The assignments made by the first `n` iterations of the value loop. */
  function ValueWrites(k: Key, n: nat, stack: seq<string>): (r: seq<Write>)
    requires n <= |k.values|
    ensures |r| == n
    ensures forall j :: 0 <= j < n ==>
      r[j].key == Combine(stack + [ValueSegment(k.values[j].0)]) && r[j].value == k.values[j].1
  {
    if n == 0 then []
    else
      var (name, value) := k.values[n - 1];
      ValueWrites(k, n - 1, stack) + [Write(Combine(stack + [ValueSegment(name)]), value)]
  }

  /** Performs the assignments `ws` on `m`, in order. */
  function Assign(m: ConfigData, ws: seq<Write>): ConfigData
  {
    if |ws| == 0 then m
    else
      var w := ws[|ws| - 1];
      Assign(m, ws[..|ws| - 1])[w.key := w.value]
  }

  /** The dictionary the walk of `k` builds, starting empty with `prefix`
      on the stack. */
  function Flatten(k: Key, prefix: seq<string>): ConfigData
  {
    Assign(map[], Writes(k, prefix))
  }

  /** The set of keys the assignments `ws` write to. */
  function KeysOf(ws: seq<Write>): set<string>
  {
    set i | 0 <= i < |ws| :: ws[i].key
  }

  /** Some value stored at `name` in the key found at `path` below `k`. */
  ghost predicate HasEntry(k: Key, path: seq<string>, name: string, value: Option<string>)
  {
    exists owner :: Reaches(k, path, owner) && (name, value) in owner.values
  }

  // ---------------------------------------------------------------------
  // Last write wins

  /** Performing two lists of assignments one after the other. */
  lemma {:induction false} AssignConcat(m: ConfigData, a: seq<Write>, b: seq<Write>)
    ensures Assign(m, a + b) == Assign(Assign(m, a), b)
    decreases |b|
  {
    if |b| > 0 {
      var b' := b[..|b| - 1];
      assert (a + b)[..|a + b| - 1] == a + b';
      assert (a + b)[|a + b| - 1] == b[|b| - 1];
      AssignConcat(m, a, b');
    } else {
      assert a + b == a;
    }
  }

  /** One more assignment at the end updates one key. */
  lemma AssignSnoc(m: ConfigData, ws: seq<Write>, w: Write)
    ensures Assign(m, ws + [w]) == Assign(m, ws)[w.key := w.value]
  {
    assert (ws + [w])[..|ws|] == ws;
  }

  /** One more iteration of the subkey loop: the next subkey's
      assignments follow those made so far. */
  lemma SubkeyStep(m: ConfigData, k: Key, i: nat, stack: seq<string>)
    requires i < |k.subkeys|
    ensures Assign(m, SubkeyWrites(k, i + 1, stack))
         == Assign(Assign(m, SubkeyWrites(k, i, stack)), Writes(k.subkeys[i].1, stack + [k.subkeys[i].0]))
  {
    AssignConcat(m, SubkeyWrites(k, i, stack), Writes(k.subkeys[i].1, stack + [k.subkeys[i].0]));
  }

  /** One more iteration of the value loop stores one more value. */
  lemma ValueStep(m: ConfigData, k: Key, j: nat, stack: seq<string>)
    requires j < |k.values|
    ensures Assign(m, ValueWrites(k, j + 1, stack))
         == Assign(m, ValueWrites(k, j, stack))[Combine(stack + [ValueSegment(k.values[j].0)]) := k.values[j].1]
  {
    AssignSnoc(m, ValueWrites(k, j, stack), Write(Combine(stack + [ValueSegment(k.values[j].0)]), k.values[j].1));
  }

  /** The keys written by `ws` are those written by all but its last
      assignment, plus the last one's. */
  lemma KeysOfSnoc(ws: seq<Write>)
    requires |ws| > 0
    ensures KeysOf(ws) == KeysOf(ws[..|ws| - 1]) + {ws[|ws| - 1].key}
  {
    var ws' := ws[..|ws| - 1];
    forall key | key in KeysOf(ws) ensures key in KeysOf(ws') + {ws[|ws| - 1].key} {
      var i :| 0 <= i < |ws| && ws[i].key == key;
      if i < |ws| - 1 { assert ws'[i] == ws[i]; }
    }
    forall key | key in KeysOf(ws') ensures key in KeysOf(ws) {
      var i :| 0 <= i < |ws'| && ws'[i].key == key;
      assert ws[i] == ws'[i];
    }
  }

  /** The keys of the result are those already present and those written. */
  lemma {:induction false} AssignKeys(m: ConfigData, ws: seq<Write>)
    ensures Assign(m, ws).Keys == m.Keys + KeysOf(ws)
    decreases |ws|
  {
    if |ws| > 0 {
      AssignKeys(m, ws[..|ws| - 1]);
      KeysOfSnoc(ws);
    }
  }

  /** `n` assignments write to at most `n` distinct keys. */
  lemma {:induction false} KeysOfSize(ws: seq<Write>)
    ensures |KeysOf(ws)| <= |ws|
    decreases |ws|
  {
    if |ws| > 0 {
      KeysOfSize(ws[..|ws| - 1]);
      KeysOfSnoc(ws);
    } else {
      assert KeysOf(ws) == {};
    }
  }

  /** `i` is the last of the assignments `ws` that writes to `key`. */
  ghost predicate LastWriteAt(ws: seq<Write>, key: string, i: int)
  {
    0 <= i < |ws| && ws[i].key == key && forall j :: i < j < |ws| ==> ws[j].key != key
  }

  /** A key that is written holds the value of its last write. */
  lemma {:induction false} AssignLastWins(m: ConfigData, ws: seq<Write>, key: string, i: int)
    requires LastWriteAt(ws, key, i)
    ensures key in Assign(m, ws) && Assign(m, ws)[key] == ws[i].value
    decreases |ws|
  {
    if i < |ws| - 1 {
      var ws' := ws[..|ws| - 1];
      assert LastWriteAt(ws', key, i) by {
        forall j | i < j < |ws'| ensures ws'[j].key != key { assert ws'[j] == ws[j]; }
      }
      AssignLastWins(m, ws', key, i);
    }
  }

  /** A key that is never written keeps its entry, or its absence. */
  lemma {:induction false} AssignUnwritten(m: ConfigData, ws: seq<Write>, key: string)
    requires forall i :: 0 <= i < |ws| ==> ws[i].key != key
    ensures key in Assign(m, ws) <==> key in m
    ensures key in m ==> Assign(m, ws)[key] == m[key]
    decreases |ws|
  {
    if |ws| > 0 {
      var ws' := ws[..|ws| - 1];
      forall i | 0 <= i < |ws'| ensures ws'[i].key != key { assert ws'[i] == ws[i]; }
      AssignUnwritten(m, ws', key);
    }
  }

  /** Starting from an empty dictionary, every entry comes from the last
      assignment to its key. */
  lemma {:induction false} AssignFromWrites(ws: seq<Write>, key: string)
    requires key in Assign(map[], ws)
    ensures exists i :: LastWriteAt(ws, key, i) && Assign(map[], ws)[key] == ws[i].value
    decreases |ws|
  {
    var ws' := ws[..|ws| - 1];
    if ws[|ws| - 1].key == key {
      assert LastWriteAt(ws, key, |ws| - 1);
    } else {
      AssignFromWrites(ws', key);
      var i :| LastWriteAt(ws', key, i) && Assign(map[], ws')[key] == ws'[i].value;
      assert ws[i] == ws'[i];
      assert LastWriteAt(ws, key, i);
    }
  }

  // ---------------------------------------------------------------------
  // Size

  /** The walk makes exactly one assignment per value in the subtree. */
  lemma {:induction false} WritesCount(k: Key, stack: seq<string>)
    ensures |Writes(k, stack)| == ValueCount(k)
    decreases k, 1, 0
  {
    SubkeyWritesCount(k, |k.subkeys|, stack);
  }

  lemma {:induction false} SubkeyWritesCount(k: Key, n: nat, stack: seq<string>)
    requires n <= |k.subkeys|
    ensures |SubkeyWrites(k, n, stack)| == SubkeyValueCount(k, n)
    decreases k, 0, n
  {
    if n > 0 {
      SubkeyWritesCount(k, n - 1, stack);
      WritesCount(k.subkeys[n - 1].1, stack + [k.subkeys[n - 1].0]);
    }
  }

  /** Before any adapter runs, the dictionary has at most as many entries
      as the subtree has values (fewer when keys collide). */
  lemma FlattenSize(k: Key, prefix: seq<string>)
    ensures |Flatten(k, prefix)| <= ValueCount(k)
  {
    var ws := Writes(k, prefix);
    AssignKeys(map[], ws);
    KeysOfSize(ws);
    WritesCount(k, prefix);
    assert Flatten(k, prefix).Keys == KeysOf(ws);
  }

  // ---------------------------------------------------------------------
  // Key shape

  /** Every assignment stores a value found in the subtree, under the key
      made of the stack, the raw subkey names leading to the value's owner
      and the value name without dots. */
  lemma {:induction false} WriteSound(k: Key, stack: seq<string>, w: Write)
    requires w in Writes(k, stack)
    ensures exists path, name, value :: HasEntry(k, path, name, value)
              && w == Write(Combine(stack + path + [ValueSegment(name)]), value)
    decreases k, 1, 0
  {
    if w in SubkeyWrites(k, |k.subkeys|, stack) {
      SubkeyWriteSound(k, |k.subkeys|, stack, w);
    } else {
      var vs := ValueWrites(k, |k.values|, stack);
      assert w in vs;
      var j :| 0 <= j < |vs| && vs[j] == w;
      var (name, value) := k.values[j];
      assert Reaches(k, [], k);
      assert (name, value) in k.values;
      assert HasEntry(k, [], name, value);
      assert stack + [] + [ValueSegment(name)] == stack + [ValueSegment(name)];
    }
  }

  lemma {:induction false} SubkeyWriteSound(k: Key, n: nat, stack: seq<string>, w: Write)
    requires n <= |k.subkeys|
    requires w in SubkeyWrites(k, n, stack)
    ensures exists path, name, value :: HasEntry(k, path, name, value)
              && w == Write(Combine(stack + path + [ValueSegment(name)]), value)
    decreases k, 0, n
  {
    if w in SubkeyWrites(k, n - 1, stack) {
      SubkeyWriteSound(k, n - 1, stack, w);
    } else {
      var (sub, child) := k.subkeys[n - 1];
      WriteSound(child, stack + [sub], w);
      var path, name, value :| HasEntry(child, path, name, value)
        && w == Write(Combine(stack + [sub] + path + [ValueSegment(name)]), value);
      var owner :| Reaches(child, path, owner) && (name, value) in owner.values;
      var full := [sub] + path;
      assert full[1..] == path;
      assert Reaches(k, full, owner);
      assert HasEntry(k, full, name, value);
      assert stack + [sub] + path + [ValueSegment(name)] == stack + full + [ValueSegment(name)];
    }
  }

  lemma {:induction false} SubkeyWritesGrow(k: Key, n: nat, m: nat, stack: seq<string>, w: Write)
    requires n <= m <= |k.subkeys|
    requires w in SubkeyWrites(k, n, stack)
    ensures w in SubkeyWrites(k, m, stack)
    decreases m - n
  {
    if n < m {
      SubkeyWritesGrow(k, n + 1, m, stack, w);
    }
  }

  /** Conversely, every value in the subtree is assigned under that key. */
  lemma {:induction false} WriteComplete(k: Key, stack: seq<string>, path: seq<string>, name: string, value: Option<string>)
    requires HasEntry(k, path, name, value)
    ensures Write(Combine(stack + path + [ValueSegment(name)]), value) in Writes(k, stack)
    decreases |path|
  {
    var owner :| Reaches(k, path, owner) && (name, value) in owner.values;
    var w := Write(Combine(stack + path + [ValueSegment(name)]), value);
    if |path| == 0 {
      var j :| 0 <= j < |k.values| && k.values[j] == (name, value);
      var vs := ValueWrites(k, |k.values|, stack);
      assert stack + path == stack;
      assert vs[j] == w;
      assert w in Writes(k, stack);
    } else {
      var i :| 0 <= i < |k.subkeys| && k.subkeys[i].0 == path[0] && Reaches(k.subkeys[i].1, path[1..], owner);
      var (sub, child) := k.subkeys[i];
      assert HasEntry(child, path[1..], name, value);
      WriteComplete(child, stack + [sub], path[1..], name, value);
      assert stack + [sub] + path[1..] == stack + path by { assert path == [sub] + path[1..]; }
      assert w in SubkeyWrites(k, i + 1, stack);
      SubkeyWritesGrow(k, i + 1, |k.subkeys|, stack, w);
    }
  }

  /** The keys of the flattened dictionary are exactly the composite keys
      of the values in the subtree, and each holds one of those values. */
  lemma FlattenKeyShape(k: Key, prefix: seq<string>, key: string)
    ensures key in Flatten(k, prefix) <==>
      exists path, name, value :: HasEntry(k, path, name, value)
        && key == Combine(prefix + path + [ValueSegment(name)])
    ensures key in Flatten(k, prefix) ==>
      exists path, name :: HasEntry(k, path, name, Flatten(k, prefix)[key])
        && key == Combine(prefix + path + [ValueSegment(name)])
  {
    var ws := Writes(k, prefix);
    if key in Flatten(k, prefix) {
      AssignFromWrites(ws, key);
      var i :| LastWriteAt(ws, key, i) && Flatten(k, prefix)[key] == ws[i].value;
      assert ws[i] in ws;
      WriteSound(k, prefix, ws[i]);
    }
    if exists path, name, value :: HasEntry(k, path, name, value)
         && key == Combine(prefix + path + [ValueSegment(name)]) {
      var path, name, value :| HasEntry(k, path, name, value)
         && key == Combine(prefix + path + [ValueSegment(name)]);
      WriteComplete(k, prefix, path, name, value);
      var w := Write(key, value);
      var i :| 0 <= i < |ws| && ws[i] == w;
      AssignKeys(map[], ws);
      assert key in KeysOf(ws);
    }
  }

  // ---------------------------------------------------------------------
  // Ordering: a key's own values are assigned after everything below it

  /** Combining the same stack with different last segments gives
      different keys. */
  lemma CombineLastInjective(stack: seq<string>, x: string, y: string)
    requires Combine(stack + [x]) == Combine(stack + [y])
    ensures x == y
  {
    if |stack| > 0 {
      Text.JoinAppend(KeyDelimiter, stack, [x]);
      Text.JoinAppend(KeyDelimiter, stack, [y]);
      var pre := Combine(stack) + [KeyDelimiter];
      assert Combine(stack + [x]) == pre + x;
      assert Combine(stack + [y]) == pre + y;
      assert x == (pre + x)[|pre|..];
      assert y == (pre + y)[|pre|..];
    } else {
      assert stack + [x] == [x];
      assert stack + [y] == [y];
    }
  }

  /** A value of the section's own key wins over anything its subkeys
      produced under the same composite key: it is the value with the last
      occurrence of that (dot-stripped) name that is stored. */
  lemma OwnValueWins(k: Key, prefix: seq<string>, j: int)
    requires 0 <= j < |k.values|
    requires forall j' :: j < j' < |k.values| ==> ValueSegment(k.values[j'].0) != ValueSegment(k.values[j].0)
    ensures Combine(prefix + [ValueSegment(k.values[j].0)]) in Flatten(k, prefix)
    ensures Flatten(k, prefix)[Combine(prefix + [ValueSegment(k.values[j].0)])] == k.values[j].1
  {
    var subs := SubkeyWrites(k, |k.subkeys|, prefix);
    var vs := ValueWrites(k, |k.values|, prefix);
    var ws := Writes(k, prefix);
    var key := Combine(prefix + [ValueSegment(k.values[j].0)]);
    assert ws == subs + vs;
    forall t | |subs| + j < t < |ws| ensures ws[t].key != key {
      var j' := t - |subs|;
      assert ws[t] == vs[j'];
      if vs[j'].key == key {
        CombineLastInjective(prefix, ValueSegment(k.values[j'].0), ValueSegment(k.values[j].0));
      }
    }
    assert ws[|subs| + j] == vs[j];
    assert LastWriteAt(ws, key, |subs| + j);
    AssignLastWins(map[], ws, key, |subs| + j);
  }

  // ---------------------------------------------------------------------
  // Root prefix

  /** Every key of `ws` with `p` and the delimiter put in front. */
  function Prefixed(p: string, ws: seq<Write>): (r: seq<Write>)
    ensures |r| == |ws|
    ensures forall i :: 0 <= i < |ws| ==> r[i] == Write(p + [KeyDelimiter] + ws[i].key, ws[i].value)
  {
    if |ws| == 0 then [] else Prefixed(p, ws[..|ws| - 1]) + [Write(p + [KeyDelimiter] + ws[|ws| - 1].key, ws[|ws| - 1].value)]
  }

  lemma PrefixedConcat(p: string, a: seq<Write>, b: seq<Write>)
    ensures Prefixed(p, a + b) == Prefixed(p, a) + Prefixed(p, b)
  {
  }

  /** A root prefix at the bottom of the stack turns every key `key` of the
      walk without it into `p:key`, and leaves the values alone. */
  lemma {:induction false} WritesPrefixed(k: Key, p: string, stack: seq<string>)
    ensures Writes(k, [p] + stack) == Prefixed(p, Writes(k, stack))
    decreases k, 1, 0
  {
    SubkeyWritesPrefixed(k, |k.subkeys|, p, stack);
    ValueWritesPrefixed(k, |k.values|, p, stack);
    PrefixedConcat(p, SubkeyWrites(k, |k.subkeys|, stack), ValueWrites(k, |k.values|, stack));
  }

  lemma {:induction false} SubkeyWritesPrefixed(k: Key, n: nat, p: string, stack: seq<string>)
    requires n <= |k.subkeys|
    ensures SubkeyWrites(k, n, [p] + stack) == Prefixed(p, SubkeyWrites(k, n, stack))
    decreases k, 0, n
  {
    if n > 0 {
      var (sub, child) := k.subkeys[n - 1];
      SubkeyWritesPrefixed(k, n - 1, p, stack);
      WritesPrefixed(child, p, stack + [sub]);
      assert [p] + stack + [sub] == [p] + (stack + [sub]);
      PrefixedConcat(p, SubkeyWrites(k, n - 1, stack), Writes(child, stack + [sub]));
    }
  }

  lemma ValueWritesPrefixed(k: Key, n: nat, p: string, stack: seq<string>)
    requires n <= |k.values|
    ensures ValueWrites(k, n, [p] + stack) == Prefixed(p, ValueWrites(k, n, stack))
  {
    var a := ValueWrites(k, n, [p] + stack);
    var b := Prefixed(p, ValueWrites(k, n, stack));
    forall j | 0 <= j < n ensures a[j] == b[j] {
      var seg := ValueSegment(k.values[j].0);
      assert [p] + stack + [seg] == [p] + (stack + [seg]);
      Text.JoinCons(KeyDelimiter, p, stack + [seg]);
    }
  }

  /** Assigning prefixed keys builds the prefixed dictionary: `key` is in
      the plain one exactly when `p:key` is in the prefixed one, with the
      same value, and every prefixed key starts with `p:`. */
  lemma {:induction false} AssignPrefixed(p: string, ws: seq<Write>)
    ensures forall key :: key in Assign(map[], ws) <==> p + [KeyDelimiter] + key in Assign(map[], Prefixed(p, ws))
    ensures forall key :: key in Assign(map[], ws) ==>
      Assign(map[], Prefixed(p, ws))[p + [KeyDelimiter] + key] == Assign(map[], ws)[key]
    ensures forall key :: key in Assign(map[], Prefixed(p, ws)) ==>
      |key| > |p| && key[..|p| + 1] == p + [KeyDelimiter] && key[|p| + 1..] in Assign(map[], ws)
    decreases |ws|
  {
    if |ws| > 0 {
      var ws' := ws[..|ws| - 1];
      var w := ws[|ws| - 1];
      var pw := Prefixed(p, ws);
      assert pw[..|pw| - 1] == Prefixed(p, ws');
      AssignPrefixed(p, ws');
      var pk := p + [KeyDelimiter] + w.key;
      assert pk[..|p| + 1] == p + [KeyDelimiter] && pk[|p| + 1..] == w.key;
      forall key ensures key != w.key ==> p + [KeyDelimiter] + key != pk {
        var q := p + [KeyDelimiter] + key;
        assert q[|p| + 1..] == key;
      }
    }
  }

  /** The root-prefix property: with a root section `p` every key of the
      dictionary is `p:` followed by a key of the walk without the prefix,
      and taking `p:` off every key gives exactly that dictionary. */
  lemma FlattenPrefixed(k: Key, p: string)
    ensures forall key :: key in Flatten(k, []) <==> p + [KeyDelimiter] + key in Flatten(k, [p])
    ensures forall key :: key in Flatten(k, []) ==>
      Flatten(k, [p])[p + [KeyDelimiter] + key] == Flatten(k, [])[key]
    ensures forall key :: key in Flatten(k, [p]) ==>
      |key| > |p| && key[..|p| + 1] == p + [KeyDelimiter] && key[|p| + 1..] in Flatten(k, [])
  {
    WritesPrefixed(k, p, []);
    assert [p] + [] == [p];
    AssignPrefixed(p, Writes(k, []));
  }

  // ---------------------------------------------------------------------
  // Worked examples

  /** Section `A` holds subkey `B`, which holds value `C.D` = "5". */
  const ExampleB: Key := Key([], [("C.D", Some("5"))])
  const ExampleA: Key := Key([("B", ExampleB)], [])

  lemma ExampleKeys()
    ensures ValueSegment("C.D") == "CD"
    ensures Combine(["B", "CD"]) == "B:CD"
    ensures Combine(["X", "B", "CD"]) == "X:B:CD"
  {
    assert "C.D"[1..] == ".D";
    assert ".D"[1..] == "D";
    assert "D"[1..] == "";
    assert ["B", "CD"][1..] == ["CD"];
    assert ["X", "B", "CD"][1..] == ["B", "CD"];
  }

  /** The walk of section `A` makes the single assignment `B:CD` = "5",
      and `X:B:CD` = "5" with root section `X`. */
  lemma ExampleWrites()
    ensures Writes(ExampleA, []) == [Write("B:CD", Some("5"))]
    ensures Writes(ExampleA, ["X"]) == [Write("X:B:CD", Some("5"))]
  {
    ExampleKeys();
    assert ["B"] + [ValueSegment("C.D")] == ["B", "CD"];
    assert ["X", "B"] + [ValueSegment("C.D")] == ["X", "B", "CD"];
    assert ValueWrites(ExampleB, 1, ["B"]) == [Write("B:CD", Some("5"))];
    assert ValueWrites(ExampleB, 1, ["X", "B"]) == [Write("X:B:CD", Some("5"))];
    assert [] + ["B"] == ["B"];
    assert ["X"] + ["B"] == ["X", "B"];
    assert SubkeyWrites(ExampleA, 1, []) == Writes(ExampleB, ["B"]);
    assert SubkeyWrites(ExampleA, 1, ["X"]) == Writes(ExampleB, ["X", "B"]);
  }

  lemma ExampleFlatten()
    ensures Flatten(ExampleA, []) == map["B:CD" := Some("5")]
    ensures Flatten(ExampleA, ["X"]) == map["X:B:CD" := Some("5")]
  {
    ExampleWrites();
    var w1, w2 := Write("B:CD", Some("5")), Write("X:B:CD", Some("5"));
    assert [w1][..0] == [] && [w2][..0] == [];
    assert Assign(map[], [w1]) == map[][w1.key := w1.value];
    assert Assign(map[], [w2]) == map[][w2.key := w2.value];
  }
}
