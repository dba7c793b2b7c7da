/** The configuration: a JSON object whose keys are hack keys and whose values decide
    whether a hack is enabled, the in-place merge of `updateConfig`, and the rule that
    creates `config.json` from its example on first start. */
module Config {
  import opened Disk

  const ConfigPath := "config.json"
  const ExamplePath := "config.json.example"

  /** A JSON value as `require` reads it. */
  datatype JsonValue =
    | JNull
    | JBool(b: bool)
    | JNumber(n: real)
    | JString(s: string)
    | JArray(items: seq<JsonValue>)
    | JObject(fields: seq<(string, JsonValue)>)

  /** JavaScript truthiness of a JSON value: `null`, `false`, `0` and `""` are falsy;
      every array and object is truthy, even an empty one. */
  predicate IsTruthy(v: JsonValue)
  {
    match v
    case JNull => false
    case JBool(b) => b
    case JNumber(n) => n != 0.0
    case JString(s) => s != ""
    case JArray(_) => true
    case JObject(_) => true
  }

  /** `config[key]` in a boolean context: a missing key reads as `undefined`, which is
      falsy. */
  predicate Truthy(config: map<string, JsonValue>, key: string)
    ensures key !in config ==> !Truthy(config, key)
    ensures key in config ==> (Truthy(config, key) <==> IsTruthy(config[key]))
  {
    key in config && IsTruthy(config[key])
  }

  /** The keys an update writes. */
  function UpdateKeys(update: seq<(string, JsonValue)>): (ks: set<string>)
    ensures forall k :: k in ks <==> exists i :: 0 <= i < |update| && update[i].0 == k
  {
    if update == [] then {}
    else
      var ks := UpdateKeys(update[..|update| - 1]) + {update[|update| - 1].0};
      assert forall i :: 0 <= i < |update| - 1 ==> update[..|update| - 1][i] == update[i];
      ks
  }

  /** The value an update writes for `k`: the one written last. */
  function LastValue(update: seq<(string, JsonValue)>, k: string): (v: JsonValue)
    requires k in UpdateKeys(update)
    decreases |update|
  {
    if update[|update| - 1].0 == k then update[|update| - 1].1
    else LastValue(update[..|update| - 1], k)
  }

  /** The reference meaning of an update: each of its keys maps to the value written
      last for it. */
  function UpdateMap(update: seq<(string, JsonValue)>): (m: map<string, JsonValue>)
    ensures m.Keys == UpdateKeys(update)
  {
    map k | k in UpdateKeys(update) :: LastValue(update, k)
  }

  /** `for (key in newConfig) config[key] = newConfig[key]`, one assignment after the
      other. */
  function Merge(config: map<string, JsonValue>, update: seq<(string, JsonValue)>): (r: map<string, JsonValue>)
    ensures r.Keys == config.Keys + UpdateKeys(update)
    ensures forall k :: k in config && k !in UpdateKeys(update) ==> r[k] == config[k]
    decreases |update|
  {
    if update == [] then config
    else Merge(config, update[..|update| - 1])[update[|update| - 1].0 := update[|update| - 1].1]
  }

  /** Assigning key by key is the map union in which the update wins. */
  lemma {:induction false} MergeIsUnion(config: map<string, JsonValue>, update: seq<(string, JsonValue)>)
    ensures Merge(config, update) == config + UpdateMap(update)
    decreases |update|
  {
    if update != [] {
      var front, last := update[..|update| - 1], update[|update| - 1];
      MergeIsUnion(config, front);
      var lhs, rhs := Merge(config, update), config + UpdateMap(update);
      assert lhs.Keys == rhs.Keys;
      forall k | k in lhs ensures lhs[k] == rhs[k] {
        if k != last.0 && k in UpdateKeys(front) {
          assert LastValue(update, k) == LastValue(front, k);
        }
      }
    }
  }

  /** After the merge every key of the update maps to its new value, every other key
      keeps its old value, and the keys are the old keys and the update's; an empty
      update changes nothing. */
  lemma MergeFacts(config: map<string, JsonValue>, update: seq<(string, JsonValue)>)
    ensures update == [] ==> Merge(config, update) == config
    ensures Merge(config, update).Keys == config.Keys + UpdateKeys(update)
    ensures forall k :: k in UpdateKeys(update) ==> Merge(config, update)[k] == LastValue(update, k)
    ensures forall k :: k in config && k !in UpdateKeys(update) ==> Merge(config, update)[k] == config[k]
  {
    MergeIsUnion(config, update);
  }

  /** Applying the same update twice is applying it once. */
  lemma MergeIdempotent(config: map<string, JsonValue>, update: seq<(string, JsonValue)>)
    ensures Merge(Merge(config, update), update) == Merge(config, update)
  {
    MergeIsUnion(config, update);
    MergeIsUnion(Merge(config, update), update);
  }

  /** An update that writes a key once puts exactly its value there. */
  lemma LastValueSingle(update: seq<(string, JsonValue)>, i: nat)
    requires i < |update|
    requires forall j :: 0 <= j < |update| && j != i ==> update[j].0 != update[i].0
    ensures LastValue(update, update[i].0) == update[i].1
    decreases |update|
  {
    if i < |update| - 1 {
      var front := update[..|update| - 1];
      assert front[i] == update[i];
      LastValueSingle(front, i);
    }
  }

  /** The configuration object shared by the whole program. */
  class ConfigStore {
    var entries: map<string, JsonValue>

    constructor (loaded: map<string, JsonValue>)
      ensures entries == loaded
    {
      entries := loaded;
    }

    /** `config[key]` in a boolean context. */
    predicate Enabled(key: string)
      reads this
    {
      Truthy(entries, key)
    }

    /** `updateConfig(newConfig)`: writes each key of the update into the shared object
        in place. */
    method UpdateConfig(newConfig: seq<(string, JsonValue)>)
      modifies this
      ensures entries == Merge(old(entries), newConfig)
    {
      var i := 0;
      while i < |newConfig|
        invariant 0 <= i <= |newConfig|
        invariant entries == Merge(old(entries), newConfig[..i])
      {
        var (key, value) := newConfig[i];
        assert newConfig[..i + 1][..i] == newConfig[..i];
        entries := entries[key := value];
        i := i + 1;
      }
      assert newConfig[..i] == newConfig;
    }
  }

  /** Creating `config.json` from the example when it is missing: an existing
      configuration is never touched, and the copy happens only when the example
      exists. Copying a directory fails the way `copyFileSync` does. */
  method Bootstrap(fs: FileSystem) returns (r: Completion)
    modifies fs
    ensures old(fs.Exists(ConfigPath)) || !old(fs.Exists(ExamplePath)) ==>
              r.Completed? && fs.files == old(fs.files) && fs.dirs == old(fs.dirs)
    ensures r.Completed? && ConfigPath in fs.files ==>
              (ConfigPath in old(fs.files) && fs.files == old(fs.files))
              || (ExamplePath in old(fs.files) && fs.files == old(fs.files)[ConfigPath := old(fs.files)[ExamplePath]])
    ensures !old(fs.Exists(ConfigPath)) && ExamplePath in old(fs.files) && ConfigPath !in old(fs.dirs) ==>
              r.Completed? && fs.files == old(fs.files)[ConfigPath := old(fs.files)[ExamplePath]]
    ensures r.Threw? ==> fs.files == old(fs.files) && fs.dirs == old(fs.dirs)
    ensures fs.dirs == old(fs.dirs)
  {
    if !fs.Exists(ConfigPath) && fs.Exists(ExamplePath) {
      assert !EndsWithSlash(ConfigPath) && Parent(ConfigPath) == "" by {
        ParentOfName(ConfigPath);
      }
      r := fs.CopyFile(ExamplePath, ConfigPath);
    } else {
      r := Completed;
    }
  }
}
