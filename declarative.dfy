/** Declarative loading of terms and relation configurations
    (lkbutils/declarative/__init__.py): the traversal of parsed YAML data, the
    term loader that feeds a node provider, and the relation configurations. */
module Declarative {
  import opened Common
  import PyStr

  /** A value as PyYAML returns it. A mapping is kept as its entries in the
      (unspecified) order in which Python iterates it; its keys are distinct. */
  datatype Yaml =
    | Str(text: string)                  // `unicode`, or a `str` read as text
    | List(items: seq<Yaml>)
    | Dict(entries: seq<Entry>)
    | Scalar(repr: string)               // a number, boolean or null

  datatype Entry = Entry(key: string, value: Yaml)

  /** What the `leaves_from_struct` generator yields before it stops, and
      whether it stopped by raising TypeError. */
  datatype Leaves = Leaves(items: seq<string>, failed: bool)

  /** No number, boolean or null occurs anywhere in `data`. */
  predicate WellFormed(data: Yaml)
    decreases data, 1
  {
    match data
    case Str(_) => true
    case List(items) => forall i :: 0 <= i < |items| ==> WellFormed(items[i])
    case Dict(entries) => forall i :: 0 <= i < |entries| ==> WellFormed(entries[i].value)
    case Scalar(_) => false
  }

  /** The number of string leaves of `data`. */
  function StrCount(data: Yaml): nat
    decreases data, 1
  {
    match data
    case Str(_) => 1
    case List(items) => StrCountOfSeq(items)
    case Dict(entries) => StrCountOfEntries(entries)
    case Scalar(_) => 0
  }

  function StrCountOfSeq(items: seq<Yaml>): nat
    decreases items, 0
  {
    if items == [] then 0 else StrCount(items[0]) + StrCountOfSeq(items[1..])
  }

  function StrCountOfEntries(entries: seq<Entry>): nat
    decreases entries, 0
  {
    if entries == [] then 0 else StrCount(entries[0].value) + StrCountOfEntries(entries[1..])
  }

  /** `list(leaves_from_struct(data))`, or the leaves yielded before the
      TypeError it raises on a value that is neither a string, a list nor a
      dict. A dict contributes the leaves of its values; keys are ignored. */
  function LeavesFromStruct(data: Yaml): (r: Leaves)
    ensures !r.failed <==> WellFormed(data)
    ensures !r.failed ==> |r.items| == StrCount(data)
    decreases data, 1
  {
    match data
    case Str(t) => Leaves([t], false)
    case List(items) => LeavesOfSeq(items)
    case Dict(entries) => LeavesOfEntries(entries)
    case Scalar(_) => Leaves([], true)
  }

  /** The children of a list, traversed in order; traversal stops at the
      first child that raises. */
  function LeavesOfSeq(items: seq<Yaml>): (r: Leaves)
    ensures !r.failed <==> forall i :: 0 <= i < |items| ==> WellFormed(items[i])
    ensures !r.failed ==> |r.items| == StrCountOfSeq(items)
    decreases items, 0
  {
    if items == [] then Leaves([], false)
    else
      var first := LeavesFromStruct(items[0]);
      if first.failed then first
      else
        var rest := LeavesOfSeq(items[1..]);
        assert forall i :: 1 <= i < |items| ==> items[i] == items[1..][i - 1];
        Leaves(first.items + rest.items, rest.failed)
  }

  /** The values of a dict, traversed in iteration order. */
  function LeavesOfEntries(entries: seq<Entry>): (r: Leaves)
    ensures !r.failed <==> forall i :: 0 <= i < |entries| ==> WellFormed(entries[i].value)
    ensures !r.failed ==> |r.items| == StrCountOfEntries(entries)
    decreases entries, 0
  {
    if entries == [] then Leaves([], false)
    else
      var first := LeavesFromStruct(entries[0].value);
      if first.failed then first
      else
        var rest := LeavesOfEntries(entries[1..]);
        assert forall i :: 1 <= i < |entries| ==> entries[i] == entries[1..][i - 1];
        Leaves(first.items + rest.items, rest.failed)
  }

  function Values(entries: seq<Entry>): (vs: seq<Yaml>)
    ensures |vs| == |entries|
    ensures forall i :: 0 <= i < |entries| ==> vs[i] == entries[i].value
  {
    if entries == [] then [] else [entries[0].value] + Values(entries[1..])
  }

  /** A dict is traversed exactly like the list of its values. */
  lemma {:induction false} DictAsList(entries: seq<Entry>)
    ensures LeavesFromStruct(Dict(entries)) == LeavesFromStruct(List(Values(entries)))
  {
    DictAsListSeq(entries);
  }

  lemma {:induction false} DictAsListSeq(entries: seq<Entry>)
    ensures LeavesOfEntries(entries) == LeavesOfSeq(Values(entries))
  {
    if entries != [] {
      DictAsListSeq(entries[1..]);
      assert Values(entries)[1..] == Values(entries[1..]);
    }
  }

  /** So dicts with the same values in the same order yield the same leaves,
      whatever their keys. */
  lemma KeysIgnored(a: seq<Entry>, b: seq<Entry>)
    requires Values(a) == Values(b)
    ensures LeavesFromStruct(Dict(a)) == LeavesFromStruct(Dict(b))
  {
    DictAsList(a);
    DictAsList(b);
  }

  /** A flat list of the given strings. */
  function Strs(names: seq<string>): (r: seq<Yaml>)
    ensures |r| == |names|
    ensures forall i :: 0 <= i < |names| ==> r[i] == Str(names[i])
  {
    seq(|names|, i requires 0 <= i < |names| => Str(names[i]))
  }

  /** A flat list yields its strings in order. */
  lemma {:induction false} LeavesOfStrs(names: seq<string>)
    ensures LeavesOfSeq(Strs(names)) == Leaves(names, false)
  {
    if names != [] {
      LeavesOfStrs(names[1..]);
      assert Strs(names)[1..] == Strs(names[1..]);
      assert [names[0]] + names[1..] == names;
    }
  }

  /** Flat and nested inputs with the same leaves load the same terms: any
      well-formed structure yields what the flat list of its leaves yields. */
  lemma FlattenKeepsLeaves(data: Yaml)
    requires WellFormed(data)
    ensures LeavesFromStruct(List(Strs(LeavesFromStruct(data).items))) == LeavesFromStruct(data)
  {
    LeavesOfStrs(LeavesFromStruct(data).items);
  }

  /** Every leaf is a string that occurs in `data`. */
  predicate Occurs(data: Yaml, s: string)
    decreases data
  {
    match data
    case Str(t) => t == s
    case List(items) => exists i :: 0 <= i < |items| && Occurs(items[i], s)
    case Dict(entries) => exists i :: 0 <= i < |entries| && Occurs(entries[i].value, s)
    case Scalar(_) => false
  }

  lemma {:induction false} LeavesOccur(data: Yaml)
    ensures forall s :: s in LeavesFromStruct(data).items ==> Occurs(data, s)
    decreases data, 1
  {
    match data
    case Str(_) =>
    case List(items) => LeavesOfSeqOccur(items);
    case Dict(entries) => LeavesOfEntriesOccur(entries);
    case Scalar(_) =>
  }

  lemma {:induction false} LeavesOfSeqOccur(items: seq<Yaml>)
    ensures forall s :: s in LeavesOfSeq(items).items ==> exists i :: 0 <= i < |items| && Occurs(items[i], s)
    decreases items, 0
  {
    if items != [] {
      LeavesOccur(items[0]);
      LeavesOfSeqOccur(items[1..]);
      forall s | s in LeavesOfSeq(items).items
        ensures exists i :: 0 <= i < |items| && Occurs(items[i], s)
      {
        var first := LeavesFromStruct(items[0]);
        if s in first.items {
          assert Occurs(items[0], s);
        } else {
          assert s in LeavesOfSeq(items[1..]).items;
          var i :| 0 <= i < |items[1..]| && Occurs(items[1..][i], s);
          assert Occurs(items[i + 1], s);
        }
      }
    }
  }

  lemma {:induction false} LeavesOfEntriesOccur(entries: seq<Entry>)
    ensures forall s :: s in LeavesOfEntries(entries).items ==>
      exists i :: 0 <= i < |entries| && Occurs(entries[i].value, s)
    decreases entries, 0
  {
    if entries != [] {
      LeavesOccur(entries[0].value);
      LeavesOfEntriesOccur(entries[1..]);
      forall s | s in LeavesOfEntries(entries).items
        ensures exists i :: 0 <= i < |entries| && Occurs(entries[i].value, s)
      {
        var first := LeavesFromStruct(entries[0].value);
        if s in first.items {
          assert Occurs(entries[0].value, s);
        } else {
          assert s in LeavesOfEntries(entries[1..]).items;
          var i :| 0 <= i < |entries[1..]| && Occurs(entries[1..][i].value, s);
          assert Occurs(entries[i + 1].value, s);
        }
      }
    }
  }

  /** `TermLoader`: the node provider it feeds is not part of this model, so
      the loader records the `add(name, as_property)` calls it makes. */
  class TermLoader {
    var added: seq<(string, bool)>

    constructor ()
      ensures added == []
    {
      added := [];
    }

    /** `load(data, as_property)`: every leaf is added, in traversal order,
        with the given flag; a TypeError comes after the leaves before it. */
    method Load(data: Yaml, asProperty: bool) returns (r: Result<(), string>)
      modifies this
      ensures var leaves := LeavesFromStruct(data);
        |added| == |old(added)| + |leaves.items| &&
        added[..|old(added)|] == old(added) &&
        (forall i :: 0 <= i < |leaves.items| ==> added[|old(added)| + i] == (leaves.items[i], asProperty)) &&
        (r.Err? <==> leaves.failed)
    {
      var leaves := LeavesFromStruct(data);
      var i := 0;
      while i < |leaves.items|
        invariant 0 <= i <= |leaves.items|
        invariant |added| == |old(added)| + i
        invariant added[..|old(added)|] == old(added)
        invariant forall k :: 0 <= k < i ==> added[|old(added)| + k] == (leaves.items[k], asProperty)
      {
        AddTerm(leaves.items[i], asProperty);
        i := i + 1;
      }
      if leaves.failed {
        return Err("invalid data type");
      }
      r := Ok(());
    }

    /** `_addterm`: one call to the node provider. */
    method AddTerm(name: string, asProperty: bool)
      modifies this
      ensures added == old(added) + [(name, asProperty)]
    {
      added := added + [(name, asProperty)];
    }
  }

  /** `_parse_pair`: the fields between single spaces. */
  function ParsePair(pairRepr: string): (fields: seq<string>)
    ensures |fields| >= 1
    ensures forall f :: f in fields ==> ' ' !in f
    ensures PyStr.Join(" ", fields) == pairRepr
  {
    PyStr.SplitOn(pairRepr, ' ')
  }

  /** A source and a destination written `"src dest"` parse back to the pair. */
  lemma ParsePairOfPair(src: string, dest: string)
    requires ' ' !in src && ' ' !in dest
    ensures ParsePair(src + " " + dest) == [src, dest]
  {
    var s := src + " " + dest;
    assert s[|src|] == ' ';
    assert ' ' in s;
    var i := PyStr.IndexOf(s, ' ');
    assert s[..|src|] == src;
    assert forall k :: 0 <= k < |src| ==> s[k] == src[k] && src[k] in src;
    assert i == |src|;
    assert s[i + 1..] == dest;
    PyStr.CountAbsent(dest, ' ');
  }

  /** `data.get(key, default)` on the entries of a dict. */
  function Get(entries: seq<Entry>, key: string, default: Yaml): (v: Yaml)
    ensures (forall i :: 0 <= i < |entries| ==> entries[i].key != key) ==> v == default
    ensures (exists i :: 0 <= i < |entries| && entries[i].key == key) ==>
      exists i :: 0 <= i < |entries| && entries[i].key == key && v == entries[i].value
  {
    if entries == [] then default
    else if entries[0].key == key then entries[0].value
    else
      var v := Get(entries[1..], key, default);
      assert forall i :: 1 <= i < |entries| ==> entries[i] == entries[1..][i - 1];
      v
  }

  /** The options of a dict as the keyword arguments they become; a later
      entry for a key overrides an earlier one, as `dict.update` does. */
  function ToMap(entries: seq<Entry>): (m: map<string, Yaml>)
    ensures forall k :: k in m <==> exists i :: 0 <= i < |entries| && entries[i].key == k
    decreases |entries|
  {
    if entries == [] then map[]
    else
      var last := entries[|entries| - 1];
      var m := ToMap(entries[..|entries| - 1]);
      assert forall i :: 0 <= i < |entries| - 1 ==> entries[i] == entries[..|entries| - 1][i];
      m[last.key := last.value]
  }

  /** Entry `i` is the last one for key `k`. */
  predicate LastEntryFor(entries: seq<Entry>, k: string, i: int) {
    0 <= i < |entries| && entries[i].key == k && forall j :: i < j < |entries| ==> entries[j].key != k
  }

  /** The value `ToMap` keeps for a key is that of the key's last entry. */
  lemma {:induction false} ToMapLast(entries: seq<Entry>, k: string)
    requires k in ToMap(entries)
    ensures exists i :: LastEntryFor(entries, k, i) && ToMap(entries)[k] == entries[i].value
    decreases |entries|
  {
    var init := entries[..|entries| - 1];
    if entries[|entries| - 1].key != k {
      ToMapLast(init, k);
      var i :| LastEntryFor(init, k, i) && ToMap(init)[k] == init[i].value;
      assert entries[i] == init[i];
      assert forall j :: i < j < |entries| - 1 ==> entries[j] == init[j];
      assert LastEntryFor(entries, k, i);
    } else {
      assert LastEntryFor(entries, k, |entries| - 1);
    }
  }

  /** Why a configuration could not be built. */
  datatype ConfigError =
    | NoGet            // `.get` on something that is not a dict
    | BadUpdate        // `dict.update` with something it cannot read as pairs
    | NoCopy           // `.copy()` on something that is not a dict
    | NotIterable      // `for ... in` over a number, boolean or null
    | BadIndex         // indexing a list by one of its own elements
    | InvalidDataType  // `leaves_from_struct` reached a scalar

  /** The number of items `iter` yields for a value. */
  function ItemCount(v: Yaml): nat
  {
    match v
    case Str(text) => |text|
    case List(items) => |items|
    case Dict(entries) => |entries|
    case Scalar(_) => 0
  }

  /** One item of a sequence given to `dict.update`, read as a key and a
      value: it must be a sequence of two items (a two-character string, a
      two-item list, or a dict with two keys, which yields its keys) whose
      first item is hashable. A number, boolean or null key is kept as its
      text. */
  function UpdateItem(item: Yaml): (r: Result<Entry, ConfigError>)
    ensures r.Err? ==> r.error == BadUpdate
    ensures r.Ok? ==> ItemCount(item) == 2 && !item.Scalar?
    ensures item.Str? || item.Dict? ==> (r.Ok? <==> ItemCount(item) == 2)
    ensures item.List? && |item.items| == 2 ==>
      (r.Ok? <==> !item.items[0].List? && !item.items[0].Dict?) &&
      (r.Ok? ==> r.value.value == item.items[1])
  {
    match item
    case Str(t) => if |t| == 2 then Ok(Entry([t[0]], Str([t[1]]))) else Err(BadUpdate)
    case List(xs) =>
      if |xs| != 2 then Err(BadUpdate)
      else (match xs[0]
        case Str(k) => Ok(Entry(k, xs[1]))
        case Scalar(k) => Ok(Entry(k, xs[1]))
        case _ => Err(BadUpdate))
    case Dict(es) => if |es| == 2 then Ok(Entry(es[0].key, Str(es[1].key))) else Err(BadUpdate)
    case Scalar(_) => Err(BadUpdate)
  }

  /** The pairs read from the items of a list given to `dict.update`, or
      the failure of the first item that is not a pair. */
  function ItemEntries(items: seq<Yaml>): (r: Result<seq<Entry>, ConfigError>)
    ensures r.Ok? <==> forall i :: 0 <= i < |items| ==> UpdateItem(items[i]).Ok?
    ensures r.Ok? ==> (|r.value| == |items| &&
      forall i :: 0 <= i < |items| ==> r.value[i] == UpdateItem(items[i]).value)
    ensures r.Err? ==> r.error == BadUpdate
    decreases |items|
  {
    if items == [] then Ok([])
    else
      var head := UpdateItem(items[0]);
      var tail := ItemEntries(items[1..]);
      assert forall i :: 1 <= i < |items| ==> items[i] == items[1..][i - 1];
      if head.Err? then Err(head.error)
      else if tail.Err? then Err(tail.error)
      else Ok([head.value] + tail.value)
  }

  /** The key/value pairs `dict.update(other)` applies, in order: a dict's
      entries, or one pair per item of a list. A string yields
      one-character strings, so only the empty string is accepted; a
      number, boolean or null is not iterable. */
  function UpdateEntries(other: Yaml): (r: Result<seq<Entry>, ConfigError>)
    ensures other.Dict? ==> r == Ok(other.entries)
    ensures other.List? ==> (r.Ok? <==> forall i :: 0 <= i < |other.items| ==> UpdateItem(other.items[i]).Ok?)
    ensures other.List? && r.Ok? ==> (|r.value| == |other.items| &&
      forall i :: 0 <= i < |other.items| ==> r.value[i] == UpdateItem(other.items[i]).value)
    ensures other.Str? ==> (r.Ok? <==> other.text == []) && (r.Ok? ==> r.value == [])
    ensures other.Scalar? ==> r.Err?
    ensures r.Err? ==> r.error == BadUpdate
  {
    match other
    case Dict(entries) => Ok(entries)
    case List(items) => ItemEntries(items)
    case Str(text) => if text == [] then Ok([]) else Err(BadUpdate)
    case Scalar(_) => Err(BadUpdate)
  }

  datatype Config = Config(relation: string, options: map<string, Yaml>, pairs: seq<seq<string>>)

  /** `base.update(updates)`: every key of either, the updated ones with
      their new value, the others as they were. */
  predicate Overridden(base: map<string, Yaml>, updates: map<string, Yaml>, options: map<string, Yaml>) {
    && options.Keys == base.Keys + updates.Keys
    && (forall k :: k in updates ==> options[k] == updates[k])
    && (forall k :: k in base && k !in updates ==> options[k] == base[k])
  }

  /** Each pair is the space-separated words of its leaf. */
  predicate PairsRead(leaves: seq<string>, pairs: seq<seq<string>>) {
    |pairs| == |leaves| && forall i :: 0 <= i < |leaves| ==> PyStr.Join(" ", pairs[i]) == leaves[i]
  }

  /** `_create_config(relation, data, base_options)` */
  function CreateConfig(relation: string, data: Yaml, baseOptions: map<string, Yaml>): (r: Result<Config, ConfigError>)
    ensures r.Ok? ==> data.Dict? && r.value.relation == relation
    ensures r.Ok? ==> var updates := UpdateEntries(Get(data.entries, "options", Dict([])));
      updates.Ok? && Overridden(baseOptions, ToMap(updates.value), r.value.options)
    ensures r.Ok? ==> var leaves := LeavesFromStruct(Get(data.entries, "pairs", List([])));
      !leaves.failed && PairsRead(leaves.items, r.value.pairs)
    ensures r.Err? <==>
      !data.Dict? || UpdateEntries(Get(data.entries, "options", Dict([]))).Err? ||
      LeavesFromStruct(Get(data.entries, "pairs", List([]))).failed
    ensures !data.Dict? ==> r == Err(NoGet)
    ensures data.Dict? && UpdateEntries(Get(data.entries, "options", Dict([]))).Err? ==> r == Err(BadUpdate)
  {
    if !data.Dict? then Err(NoGet)
    else
      var override := Get(data.entries, "options", Dict([]));
      var updates := UpdateEntries(override);
      if updates.Err? then Err(updates.error)
      else
        var leaves := LeavesFromStruct(Get(data.entries, "pairs", List([])));
        if leaves.failed then Err(InvalidDataType)
        else
          var pairs := seq(|leaves.items|, i requires 0 <= i < |leaves.items| => ParsePair(leaves.items[i]));
          Ok(Config(relation, baseOptions + ToMap(updates.value), pairs))
  }

  /** An override given as an empty list or an empty string leaves the
      global options as they are, like an empty dict; an override given as
      a list of pairs sets each key to the value of its last pair. */
  lemma CreateConfigOverrides(relation: string, data: Yaml, baseOptions: map<string, Yaml>, k: string)
    requires CreateConfig(relation, data, baseOptions).Ok?
    ensures var override := Get(data.entries, "options", Dict([]));
      (override == List([]) || override == Str([]) || override == Dict([])) ==>
        CreateConfig(relation, data, baseOptions).value.options == baseOptions
    ensures var override := Get(data.entries, "options", Dict([]));
      override.List? && k in CreateConfig(relation, data, baseOptions).value.options && k !in baseOptions ==>
        exists i :: 0 <= i < |override.items| && UpdateItem(override.items[i]).value.key == k &&
          CreateConfig(relation, data, baseOptions).value.options[k] == UpdateItem(override.items[i]).value.value &&
          forall j :: i < j < |override.items| ==> UpdateItem(override.items[j]).value.key != k
  {
    var override := Get(data.entries, "options", Dict([]));
    var updates := UpdateEntries(override).value;
    var options := CreateConfig(relation, data, baseOptions).value.options;
    if override.List? && k in options && k !in baseOptions {
      ToMapLast(updates, k);
    }
  }

  /** The configurations `load_yaml` builds for the relations it has
      already visited, or the first error. */
  function ConfigsOf(relations: seq<Entry>, baseOptions: map<string, Yaml>): (r: Result<map<string, Config>, ConfigError>)
    ensures r.Ok? ==> forall name :: name in r.value <==>
      exists i :: 0 <= i < |relations| && relations[i].key == name
    decreases |relations|
  {
    if relations == [] then Ok(map[])
    else
      var init := relations[..|relations| - 1];
      var last := relations[|relations| - 1];
      var before := ConfigsOf(init, baseOptions);
      assert forall i :: 0 <= i < |init| ==> init[i] == relations[i];
      if before.Err? then before
      else
        var cfg := CreateConfig(last.key, last.value, baseOptions);
        if cfg.Err? then Err(cfg.error) else Ok(before.value[last.key := cfg.value])
  }

  /** The loop of `load_yaml` over the relations: each relation's options
      start from its own copy of the global options. */
  method LoadRelationConfigs(relations: seq<Entry>, baseOptions: map<string, Yaml>)
    returns (r: Result<map<string, Config>, ConfigError>)
    ensures r == ConfigsOf(relations, baseOptions)
  {
    var configs: map<string, Config> := map[];
    var i := 0;
    while i < |relations|
      invariant 0 <= i <= |relations|
      invariant ConfigsOf(relations[..i], baseOptions) == Ok(configs)
    {
      var cfg := CreateConfig(relations[i].key, relations[i].value, baseOptions);
      ConfigsSnoc(relations, baseOptions, i);
      if cfg.Err? {
        ConfigsErrExtends(relations, baseOptions, i + 1);
        assert relations[..|relations|] == relations;
        return Err(cfg.error);
      }
      configs := configs[relations[i].key := cfg.value];
      i := i + 1;
    }
    assert relations[..i] == relations;
    r := Ok(configs);
  }

  /** The configurations of a prefix one relation longer. */
  lemma ConfigsSnoc(relations: seq<Entry>, baseOptions: map<string, Yaml>, i: nat)
    requires i < |relations| && ConfigsOf(relations[..i], baseOptions).Ok?
    ensures var cfg := CreateConfig(relations[i].key, relations[i].value, baseOptions);
      ConfigsOf(relations[..i + 1], baseOptions) ==
        if cfg.Err? then Err(cfg.error)
        else Ok(ConfigsOf(relations[..i], baseOptions).value[relations[i].key := cfg.value])
  {
    assert relations[..i + 1][..i] == relations[..i];
  }

  /** Once a prefix of the relations fails, so does every longer prefix. */
  lemma {:induction false} ConfigsErrExtends(relations: seq<Entry>, baseOptions: map<string, Yaml>, n: nat)
    requires n <= |relations|
    requires ConfigsOf(relations[..n], baseOptions).Err?
    ensures ConfigsOf(relations, baseOptions) == ConfigsOf(relations[..n], baseOptions)
    decreases |relations| - n
  {
    if n < |relations| {
      assert relations[..n + 1][..n] == relations[..n];
      ConfigsErrExtends(relations, baseOptions, n + 1);
    } else {
      assert relations[..n] == relations;
    }
  }

  /** Every relation's configuration is built from the untouched global
      options: an override for one relation never reaches another. */
  lemma {:induction false} ConfigsIndependent(relations: seq<Entry>, baseOptions: map<string, Yaml>, name: string)
    requires ConfigsOf(relations, baseOptions).Ok?
    requires name in ConfigsOf(relations, baseOptions).value
    ensures exists i :: (0 <= i < |relations| && relations[i].key == name &&
      CreateConfig(name, relations[i].value, baseOptions) == Ok(ConfigsOf(relations, baseOptions).value[name]))
    decreases |relations|
  {
    var init := relations[..|relations| - 1];
    var last := relations[|relations| - 1];
    if name != last.key {
      ConfigsIndependent(init, baseOptions, name);
      var i :| 0 <= i < |init| && init[i].key == name &&
        CreateConfig(name, init[i].value, baseOptions) == Ok(ConfigsOf(init, baseOptions).value[name]);
      assert relations[i] == init[i];
    } else {
      assert relations[|relations| - 1].key == name;
    }
  }

  /** `YamlRelationConfigLoader.load_yaml` on the parsed document. The
      global options are only copied once there is a relation to build. */
  function LoadYaml(document: Yaml): (r: Result<map<string, Config>, ConfigError>)
    ensures !document.Dict? ==> r == Err(NoGet)
    ensures document.Dict? ==>
      var base := Get(document.entries, "options", Dict([]));
      var relations := Get(document.entries, "relations", Dict([]));
      ((relations == Dict([]) || relations == List([]) || relations == Str([])) ==> r == Ok(map[])) &&
      (relations.Dict? && relations.entries != [] && base.Dict? ==>
        r == ConfigsOf(relations.entries, ToMap(base.entries))) &&
      (relations.Dict? && relations.entries != [] && !base.Dict? ==> r == Err(NoCopy)) &&
      ((relations.List? || relations.Str?) && ItemCount(relations) != 0 ==> r == Err(BadIndex)) &&
      (relations.Scalar? ==> r == Err(NotIterable))
  {
    if !document.Dict? then Err(NoGet)
    else
      var base := Get(document.entries, "options", Dict([]));
      var relations := Get(document.entries, "relations", Dict([]));
      match relations
      case Dict(entries) =>
        if entries == [] then Ok(map[])
        else if !base.Dict? then Err(NoCopy)
        else ConfigsOf(entries, ToMap(base.entries))
      case List(items) => if items == [] then Ok(map[]) else Err(BadIndex)
      case Str(text) => if text == [] then Ok(map[]) else Err(BadIndex)
      case Scalar(_) => Err(NotIterable)
  }
}
