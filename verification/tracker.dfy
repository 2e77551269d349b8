/** The replacement tracker (pkg/obfuscator/tracker.go): the record of which original string
    was replaced by which replacement. Locks only serialise access and are not modelled; a
    tracker is a value and every operation returns the tracker it leaves behind. */
module Tracker {
  import opened Wrappers

  /** Original string to its replacement. */
  type Mapping = map<string, string>

  /** `m2` keeps every entry of `m1` unchanged. */
  ghost predicate Extends(m1: Mapping, m2: Mapping) {
    forall k :: k in m1 ==> k in m2 && m2[k] == m1[k]
  }

  /** Recording `v` for `k` would contradict what `m` already holds. */
  predicate Conflicts(m: Mapping, k: string, v: string) {
    k in m && m[k] != v
  }

  /** The message `klog.Exitf` prints when a second, different replacement is reported. */
  function ConflictMessage(k: string, held: string, v: string): string {
    "'" + k + "' already has a value reported as '" + held + "', tried to report '" + v + "'"
  }

  const InitTwiceMessage: string :=
    "tracker was initialized more than once or after some replacements were already added."

  /** Adding `k -> v` to `m` as `AddReplacement` does: an existing equal entry is left alone,
      a different one is fatal, an absent one is inserted. Shared by both trackers. */
  function Record(m: Mapping, k: string, v: string): (r: Fallible<Mapping>)
    ensures r.Fatal? <==> Conflicts(m, k, v)
    ensures r.Fatal? ==> r.message == ConflictMessage(k, m[k], v)
    ensures r.Ok? ==> Extends(m, r.value) && k in r.value && r.value[k] == v
    ensures r.Ok? ==> r.value.Keys == m.Keys + {k}
  {
    if k in m then
      if v != m[k] then Fatal(ConflictMessage(k, m[k], v)) else Ok(m)
    else Ok(m[k := v])
  }

  /** The outcome of `GenerateIfAbsent`: the value returned, the mapping left behind, and
      whether the generator function was called (the caller's generator state advances then). */
  datatype Lookup = Lookup(value: string, mapping: Mapping, generated: bool)

  /** `GenerateIfAbsent` on one map: a recorded value wins; with no generator the answer is ""
      and nothing is recorded; otherwise the generator's value for `key` is recorded under
      `original`. */
  function Generate(m: Mapping, original: string, key: string, gen: Option<string -> string>): (r: Lookup)
    ensures original in m ==> r.value == m[original] && r.mapping == m && !r.generated
    ensures original !in m && gen.None? ==> r.value == "" && r.mapping == m && !r.generated
    ensures original !in m && gen.Some? ==> r.generated && r.value == gen.value(key)
    ensures Extends(m, r.mapping) && r.mapping.Keys <= m.Keys + {original}
    ensures gen.Some? ==> original in r.mapping && r.mapping[original] == r.value
  {
    if original in m then Lookup(m[original], m, false)
    else if gen.None? then Lookup("", m, false)
    else
      var v := gen.value(key);
      Lookup(v, m[original := v], true)
  }

  /** `SimpleTracker`: one map. */
  datatype Simple = Simple(mapping: Mapping)

  /** `NewSimpleTracker`. */
  function NewSimple(): (t: Simple)
    ensures |t.mapping| == 0
  {
    Simple(map[])
  }

  /** `Report`: a copy of everything recorded. */
  function Report(t: Simple): (r: Mapping)
    ensures forall k :: k in t.mapping <==> k in r
    ensures forall k :: k in r ==> r[k] == t.mapping[k]
  {
    t.mapping
  }

  function AddReplacement(t: Simple, original: string, replacement: string): (r: Fallible<Simple>)
    ensures r.Fatal? <==> Conflicts(t.mapping, original, replacement)
    ensures r.Ok? ==> Extends(t.mapping, r.value.mapping)
    ensures r.Ok? ==> r.value.mapping.Keys == t.mapping.Keys + {original}
    ensures r.Ok? ==> original in r.value.mapping && r.value.mapping[original] == replacement
  {
    match Record(t.mapping, original, replacement)
    case Ok(m) => Ok(Simple(m))
    case Fatal(e) => Fatal(e)
  }

  datatype SimpleLookup = SimpleLookup(value: string, tracker: Simple, generated: bool)

  /** Go writes the new entry while holding only the read lock, so two concurrent callers can
      race on the map; a sequential model has no such interleaving to show. */
  function GenerateIfAbsent(t: Simple, original: string, key: string, gen: Option<string -> string>): (r: SimpleLookup)
    ensures Extends(t.mapping, r.tracker.mapping)
    ensures r.generated ==> original !in t.mapping
  {
    var l := Generate(t.mapping, original, key, gen);
    SimpleLookup(l.value, Simple(l.mapping), l.generated)
  }

  /** `Initialize`: fatal once anything is recorded; otherwise the seed becomes the mapping. */
  function Initialize(t: Simple, seed: Mapping): (r: Fallible<Simple>)
    ensures r.Fatal? <==> |t.mapping| > 0
    ensures r.Fatal? ==> r.message == InitTwiceMessage
    ensures r.Ok? ==> r.value.mapping == seed
  {
    if |t.mapping| > 0 then Fatal(InitTwiceMessage)
    else Ok(Simple(t.mapping + seed))
  }

  /** Reporting the same replacement twice is the same as reporting it once. */
  lemma AddReplacementIdempotent(t: Simple, original: string, replacement: string)
    requires AddReplacement(t, original, replacement).Ok?
    ensures AddReplacement(AddReplacement(t, original, replacement).value, original, replacement)
         == AddReplacement(t, original, replacement)
  {
  }

  /** Replacements for different originals can be reported in either order. */
  lemma AddReplacementCommutes(t: Simple, k1: string, v1: string, k2: string, v2: string)
    requires k1 != k2
    requires AddReplacement(t, k1, v1).Ok? && AddReplacement(t, k2, v2).Ok?
    ensures AddReplacement(AddReplacement(t, k1, v1).value, k2, v2)
         == AddReplacement(AddReplacement(t, k2, v2).value, k1, v1)
  {
    var m := t.mapping;
    if k1 !in m && k2 !in m {
      assert m[k1 := v1][k2 := v2] == m[k2 := v2][k1 := v1];
    }
  }

  /** Once a value was generated (or found) for `original`, looking it up again returns the
      same value, leaves the tracker alone and does not call the generator, whatever
      generator is passed. */
  lemma GenerateIfAbsentStable(t: Simple, original: string, key: string, gen: string -> string,
                               key2: string, gen2: Option<string -> string>)
    ensures var r := GenerateIfAbsent(t, original, key, Some(gen));
            GenerateIfAbsent(r.tracker, original, key2, gen2) == SimpleLookup(r.value, r.tracker, false)
  {
  }

  /** The obfuscators report the value they were just given: that report never conflicts and
      changes nothing. */
  lemma GenerateThenAdd(t: Simple, original: string, key: string, gen: string -> string)
    ensures var r := GenerateIfAbsent(t, original, key, Some(gen));
            AddReplacement(r.tracker, original, r.value) == Ok(r.tracker)
  {
  }

  /** Reporting a replacement is just one way to fill in what a seed would have given: on a
      fresh tracker, initialising with a one-entry seed and reporting that entry agree. */
  lemma InitializeAsAdd(original: string, replacement: string)
    ensures Initialize(NewSimple(), map[original := replacement])
         == AddReplacement(NewSimple(), original, replacement)
  {
    assert map[] + map[original := replacement] == map[][original := replacement];
  }

  /** `Initialize` guards on the map being non-empty, not on a flag: a first call with an empty
      seed leaves nothing recorded, so a second call is still accepted, while any non-empty
      seed makes a second call fatal. */
  lemma InitializeTwice(seed: Mapping, seed2: Mapping)
    ensures var r := Initialize(NewSimple(), seed);
            r.Ok? && (Initialize(r.value, seed2).Fatal? <==> |seed| > 0)
  {
  }
}
