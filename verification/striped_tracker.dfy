/** `StripedTracker` (pkg/obfuscator/tracker.go): the mapping split into shards, one per lock,
    a key living in the shard its 32-bit FNV-1 hash selects. The model shows it behaves as the
    single-map tracker whose map is the union of the shards. */
module StripedTracker {
  import opened Wrappers
  import opened Tracker

  /** The 32-bit FNV-1 offset basis and prime (`hash/fnv.New32`). */
  const FnvOffset: bv32 := 0x811c9dc5
  const FnvPrime: bv32 := 0x0100_0193

  /** FNV-1 over the bytes of `s`: for each byte, multiply (mod 2^32), then xor the byte in.
      Every character of a modelled Go string is a byte; the reduction mod 0x100 only makes
      the function total. */
  function Fnv32(s: string): bv32
  {
    if |s| == 0 then FnvOffset
    else (Fnv32(s[..|s| - 1]) * FnvPrime) ^ ((s[|s| - 1] as int % 0x100) as bv32)
  }

  /** The published FNV-1 32-bit value of "a". */
  lemma Fnv32Vector()
    ensures Fnv32("a") == 0x050c_5d7e
  {
    assert "a"[..0] == "";
  }

  /** `getLockAndMap`'s stripe index: `int(h.Sum32()) % len(stripes)`. On a 64-bit `int` the
      hash is never negative, so Go's remainder is the mathematical one. */
  function StripeOf(n: nat, key: string): (i: nat)
    requires n > 0
    ensures i < n
  {
    Fnv32(key) as int % n
  }

  /** Every key sits in the shard its hash selects among `n`. */
  ghost predicate Placed(shards: seq<Mapping>, n: nat)
    requires n > 0
  {
    forall i, k :: 0 <= i < |shards| && k in shards[i] ==> StripeOf(n, k) == i
  }

  /** `initialized`, and the per-stripe maps (the mutexes are not modelled). */
  datatype Striped = Striped(initialized: bool, shards: seq<Mapping>)

  ghost predicate WellPlaced(t: Striped) {
    |t.shards| > 0 && Placed(t.shards, |t.shards|)
  }

  /** `NewStripedTracker` on a machine with `cpus` processors: four stripes per processor. */
  function NewStriped(cpus: nat): (t: Striped)
    requires cpus > 0
    ensures |t.shards| == 4 * cpus && !t.initialized && WellPlaced(t)
    ensures |Flatten(t.shards)| == 0
  {
    var t := Striped(false, seq(4 * cpus, _ => map[]));
    FlattenEmpty(t.shards);
    t
  }

  /** `Report`'s loop: every shard copied in, in order, a later shard overwriting an earlier. */
  function Flatten(shards: seq<Mapping>): Mapping
  {
    if |shards| == 0 then map[] else Flatten(shards[..|shards| - 1]) + shards[|shards| - 1]
  }

  lemma {:induction false} FlattenEmpty(shards: seq<Mapping>)
    requires forall i :: 0 <= i < |shards| ==> shards[i] == map[]
    ensures |Flatten(shards)| == 0
  {
    if |shards| > 0 {
      FlattenEmpty(shards[..|shards| - 1]);
      assert Flatten(shards) == Flatten(shards[..|shards| - 1]);
    }
  }

  /** When keys are placed by hash, the union finds a key exactly in its own shard. */
  lemma {:induction false} FlattenLookup(shards: seq<Mapping>, n: nat, k: string)
    requires n > 0 && Placed(shards, n)
    ensures k in Flatten(shards) <==> StripeOf(n, k) < |shards| && k in shards[StripeOf(n, k)]
    ensures k in Flatten(shards) ==> Flatten(shards)[k] == shards[StripeOf(n, k)][k]
  {
    if |shards| > 0 {
      FlattenLookup(shards[..|shards| - 1], n, k);
    }
  }

  /** The single-map tracker this one behaves as. */
  function Abs(t: Striped): Simple
  {
    Simple(Flatten(t.shards))
  }

  function Report(t: Striped): (r: Mapping)
    requires WellPlaced(t)
    ensures forall k :: k in r <==> k in t.shards[StripeOf(|t.shards|, k)]
  {
    var r := Flatten(t.shards);
    forall k ensures k in r <==> k in t.shards[StripeOf(|t.shards|, k)] {
      FlattenLookup(t.shards, |t.shards|, k);
    }
    r
  }

  function AddReplacement(t: Striped, original: string, replacement: string): (r: Fallible<Striped>)
    requires |t.shards| > 0
    ensures r.Fatal? <==> Conflicts(t.shards[StripeOf(|t.shards|, original)], original, replacement)
    ensures r.Ok? ==> |r.value.shards| == |t.shards| && r.value.initialized == t.initialized
  {
    var i := StripeOf(|t.shards|, original);
    match Record(t.shards[i], original, replacement)
    case Ok(m) => Ok(t.(shards := t.shards[i := m]))
    case Fatal(e) => Fatal(e)
  }

  datatype StripedLookup = StripedLookup(value: string, tracker: Striped, generated: bool)

  function GenerateIfAbsent(t: Striped, original: string, key: string, gen: Option<string -> string>): (r: StripedLookup)
    requires |t.shards| > 0
    ensures |r.tracker.shards| == |t.shards| && r.tracker.initialized == t.initialized
    ensures r.generated ==> original !in t.shards[StripeOf(|t.shards|, original)]
  {
    var i := StripeOf(|t.shards|, original);
    var l := Generate(t.shards[i], original, key, gen);
    StripedLookup(l.value, t.(shards := t.shards[i := l.mapping]), l.generated)
  }

  /** The entries of `seed` that belong to shard `i` of `n`. */
  function Restrict(seed: Mapping, n: nat, i: nat): Mapping
    requires n > 0
  {
    map k | k in seed && StripeOf(n, k) == i :: seed[k]
  }

  /** `Initialize`: fatal only on a second call; otherwise each seed entry is written into its
      own shard, replacing whatever that shard held for the key. Go visits the seed in an
      unspecified order, but every key is written once, so the outcome is this one. */
  function Initialize(t: Striped, seed: Mapping): (r: Fallible<Striped>)
    requires |t.shards| > 0
    ensures r.Fatal? <==> t.initialized
    ensures r.Fatal? ==> r.message == InitTwiceMessage
    ensures r.Ok? ==> r.value.initialized && |r.value.shards| == |t.shards|
  {
    if t.initialized then Fatal(InitTwiceMessage)
    else
      var n := |t.shards|;
      Ok(Striped(true, seq(n, i requires 0 <= i < n => t.shards[i] + Restrict(seed, n, i))))
  }

  /** Writing `k -> v` into `k`'s own shard writes it into the union. */
  lemma FlattenUpdate(shards: seq<Mapping>, k: string, v: string)
    requires |shards| > 0 && Placed(shards, |shards|)
    ensures var i := StripeOf(|shards|, k);
            Placed(shards[i := shards[i][k := v]], |shards|)
            && Flatten(shards[i := shards[i][k := v]]) == Flatten(shards)[k := v]
  {
    var n := |shards|;
    var i := StripeOf(n, k);
    var s2 := shards[i := shards[i][k := v]];
    assert Placed(s2, n);
    var a := Flatten(s2);
    var b := Flatten(shards)[k := v];
    forall x ensures (x in a <==> x in b) && (x in a ==> a[x] == b[x]) {
      FlattenLookup(s2, n, x);
      FlattenLookup(shards, n, x);
    }
  }

  /** Reporting into a well-placed striped tracker is reporting into the single map it stands
      for: the same conflicts, the same resulting map, and the placement is kept. */
  lemma AddReplacementRefines(t: Striped, original: string, replacement: string)
    requires WellPlaced(t)
    ensures var r := AddReplacement(t, original, replacement);
            var a := Tracker.AddReplacement(Abs(t), original, replacement);
            r.Fatal? == a.Fatal? && (r.Ok? ==> WellPlaced(r.value) && Abs(r.value) == a.value)
  {
    var n := |t.shards|;
    var i := StripeOf(n, original);
    FlattenLookup(t.shards, n, original);
    if original !in t.shards[i] {
      FlattenUpdate(t.shards, original, replacement);
    } else {
      assert t.shards[i := t.shards[i]] == t.shards;
    }
  }

  /** The same for `GenerateIfAbsent`: the same value, the same generator use, and the union
      changes as the single map would. */
  lemma GenerateIfAbsentRefines(t: Striped, original: string, key: string, gen: Option<string -> string>)
    requires WellPlaced(t)
    ensures var r := GenerateIfAbsent(t, original, key, gen);
            var a := Tracker.GenerateIfAbsent(Abs(t), original, key, gen);
            r.value == a.value && r.generated == a.generated
            && WellPlaced(r.tracker) && Abs(r.tracker) == a.tracker
  {
    var n := |t.shards|;
    var i := StripeOf(n, original);
    FlattenLookup(t.shards, n, original);
    if original !in t.shards[i] && gen.Some? {
      FlattenUpdate(t.shards, original, gen.value(key));
    } else {
      assert t.shards[i := t.shards[i]] == t.shards;
    }
  }

  /** A first `Initialize` adds the seed over what the union holds, keeping the placement. */
  lemma InitializeRefines(t: Striped, seed: Mapping)
    requires WellPlaced(t) && !t.initialized
    ensures var r := Initialize(t, seed);
            r.Ok? && WellPlaced(r.value) && Abs(r.value).mapping == Abs(t).mapping + seed
  {
    var n := |t.shards|;
    var s2 := Initialize(t, seed).value.shards;
    assert Placed(s2, n);
    var a := Flatten(s2);
    var b := Flatten(t.shards) + seed;
    forall x ensures (x in a <==> x in b) && (x in a ==> a[x] == b[x]) {
      FlattenLookup(s2, n, x);
      FlattenLookup(t.shards, n, x);
    }
  }

  /** Unlike the single-map tracker, the striped one accepts an `Initialize` after a report,
      and the seed then overrides the reported value. */
  lemma InitializeAfterReport(cpus: nat, k: string, v: string, w: string)
    requires cpus > 0 && v != w
    ensures var t := AddReplacement(NewStriped(cpus), k, v).value;
            var r := Initialize(t, map[k := w]);
            r.Ok? && Report(r.value)[k] == w
    ensures var s := Tracker.AddReplacement(NewSimple(), k, v).value;
            Tracker.Initialize(s, map[k := w]).Fatal?
  {
    var t0 := NewStriped(cpus);
    AddReplacementRefines(t0, k, v);
    var t := AddReplacement(t0, k, v).value;
    InitializeRefines(t, map[k := w]);
    var s := Tracker.AddReplacement(NewSimple(), k, v).value;
    assert k in s.mapping;
  }
}
