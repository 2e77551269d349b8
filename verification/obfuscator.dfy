/** What the IPv4, IPv6 and MAC address obfuscators share: the replacement mode chosen at
    construction, the lookup-or-generate step, and the loop that replaces every regular
    expression match in turn (pkg/obfuscator/ipv4.go, ipv6.go, mac_address.go). */
module Obfuscator {
  import opened Wrappers
  import opened Generator
  import opened Tracker
  import opened GoStrings

  /** `schema.ObfuscateReplacementType`: the two recognised modes, or anything else. */
  datatype ReplacementType = Static | Consistent | Unsupported(name: string)

  /** An obfuscator: its own single-map tracker, its generator and its mode. */
  datatype State = State(tracker: Simple, generator: Generator, mode: ReplacementType)

  /** The error every `New...Obfuscator` returns for a mode it does not know. */
  function UnsupportedError(name: string): string {
    "unsupported replacement type: " + name
  }

  /** Every value in the tracker is one the generator has already handed out: the family's
      placeholder in static mode, a consistent value below the current counter otherwise. */
  ghost predicate Issued(o: State) {
    forall k :: k in o.tracker.mapping ==>
      if o.mode.Static? then o.tracker.mapping[k] == o.generator.template.placeholder
      else exists c: nat :: c < o.generator.next && CounterOf(o.generator.template, o.tracker.mapping[k]) == Some(c)
  }

  /** `New...Obfuscator(replacementType)` for the family `t`. */
  function New(mode: ReplacementType, t: Template): (r: Result<State>)
    ensures r.Failure? <==> mode.Unsupported?
    ensures r.Failure? ==> r.error == UnsupportedError(mode.name)
    ensures r.Success? ==> r.value.mode == mode && Issued(r.value) && r.value.generator.template == t
    ensures r.Success? ==> |Tracker.Report(r.value.tracker)| == 0
  {
    if mode.Unsupported? then Failure(UnsupportedError(mode.name))
    else Success(State(NewSimple(), NewGenerator(t), mode))
  }

  /** A replacement and the obfuscator after producing it. */
  datatype Picked = Picked(value: string, state: State)

  /** The `switch` in every `replace`: `GenerateIfAbsent(key, generate...Replacement)`, the
      generator advancing when it hands out a consistent value. */
  function Replacement(o: State, key: string): (r: Picked)
    requires !o.mode.Unsupported?
    ensures key in o.tracker.mapping ==> r.value == o.tracker.mapping[key] && r.state == o
    ensures key !in o.tracker.mapping && o.mode.Static? ==> r.value == o.generator.template.placeholder
    ensures key !in o.tracker.mapping && o.mode.Consistent? ==>
              CounterOf(o.generator.template, r.value) == Some(o.generator.next)
    ensures Extends(o.tracker.mapping, r.state.tracker.mapping)
    ensures r.state.tracker.mapping.Keys == o.tracker.mapping.Keys + {key}
    ensures r.state.tracker.mapping[key] == r.value
    ensures r.state.mode == o.mode && r.state.generator.template == o.generator.template
  {
    var g := o.generator;
    var gen := if o.mode.Static? then (_: string) => GenerateStatic(g) else (_: string) => GenerateConsistent(g).value;
    var l := Tracker.GenerateIfAbsent(o.tracker, key, key, Some(gen));
    var g' := if l.generated && o.mode.Consistent? then GenerateConsistent(g).after else g;
    Picked(l.value, State(l.tracker, g', o.mode))
  }

  /** Asking again for a key returns the same replacement and changes nothing. */
  lemma ReplacementStable(o: State, key: string)
    requires !o.mode.Unsupported?
    ensures var r := Replacement(o, key);
            Replacement(r.state, key) == r
  {
  }

  /** A key seen for the first time in consistent mode gets a value no other key holds, and
      the tracker keeps holding only issued values. */
  lemma ReplacementFresh(o: State, key: string)
    requires !o.mode.Unsupported? && Issued(o)
    ensures Issued(Replacement(o, key).state)
    ensures key !in o.tracker.mapping && o.mode.Consistent? ==>
              forall k :: k in o.tracker.mapping ==> o.tracker.mapping[k] != Replacement(o, key).value
  {
    var r := Replacement(o, key);
    var t := o.generator.template;
    if key !in o.tracker.mapping && o.mode.Consistent? {
      forall k | k in o.tracker.mapping
        ensures o.tracker.mapping[k] != r.value
      {
        var c: nat :| c < o.generator.next && CounterOf(t, o.tracker.mapping[k]) == Some(c);
      }
      forall k | k in r.state.tracker.mapping
        ensures exists c: nat :: c < r.state.generator.next && CounterOf(t, r.state.tracker.mapping[k]) == Some(c)
      {
        if k != key {
          var c: nat :| c < o.generator.next && CounterOf(t, o.tracker.mapping[k]) == Some(c);
          assert c < r.state.generator.next;
        } else {
          assert o.generator.next < r.state.generator.next;
        }
      }
    }
  }

  /** Every original in `m` shares its replacement with its key `key(original)`, which is
      itself recorded. */
  ghost predicate Canonical(m: Mapping, key: string -> string) {
    forall k :: k in m ==> key(k) in m && m[key(k)] == m[k]
  }

  /** The output text and the obfuscator after one or more replacements. */
  datatype Step = Step(output: string, state: State)

  /** The body of the match loop for a match that is replaced: look up (or generate) the
      replacement for `key`, replace every occurrence of the match in the output, and report
      the match itself under the same replacement. */
  function Substitute(o: State, output: string, literal: string, key: string): (r: Fallible<Step>)
    requires !o.mode.Unsupported?
    ensures r.Ok? ==> r.value.output == ReplaceAll(output, literal, Replacement(o, key).value)
    ensures r.Ok? ==> Extends(o.tracker.mapping, r.value.state.tracker.mapping)
    ensures r.Ok? ==> literal in r.value.state.tracker.mapping && key in r.value.state.tracker.mapping
    ensures r.Ok? ==> r.value.state.tracker.mapping[literal] == r.value.state.tracker.mapping[key]
    ensures r.Fatal? ==> literal != key
  {
    var p := Replacement(o, key);
    var out := ReplaceAll(output, literal, p.value);
    match Tracker.AddReplacement(p.state.tracker, literal, p.value)
    case Ok(t) => Ok(Step(out, p.state.(tracker := t)))
    case Fatal(e) => Fatal(e)
  }

  /** Looking up a key that is its own canonical form keeps the tracker canonical. */
  lemma ReplacementCanonical(o: State, k: string, key: string -> string)
    requires !o.mode.Unsupported? && Canonical(o.tracker.mapping, key) && key(k) == k
    ensures Canonical(Replacement(o, k).state.tracker.mapping, key)
  {
    var m0 := o.tracker.mapping;
    var m1 := Replacement(o, k).state.tracker.mapping;
    forall x | x in m1 ensures key(x) in m1 && m1[key(x)] == m1[x] {
      if x != k {
        assert x in m0;
      }
    }
  }

  /** Reporting an original under the value its canonical key already holds never conflicts
      and keeps the tracker canonical. */
  lemma AddCanonical(t: Simple, literal: string, key: string -> string)
    requires Canonical(t.mapping, key) && key(literal) in t.mapping
    ensures var r := Tracker.AddReplacement(t, literal, t.mapping[key(literal)]);
            r.Ok? && Canonical(r.value.mapping, key)
  {
    var v := t.mapping[key(literal)];
    var m2 := Tracker.AddReplacement(t, literal, v).value.mapping;
    forall x | x in m2 ensures key(x) in m2 && m2[key(x)] == m2[x] {
      if x != literal {
        assert x in t.mapping;
      }
    }
  }

  /** Recording an original under a value the tracker already holds keeps only issued values. */
  lemma AddIssued(o: State, literal: string, k: string)
    requires Issued(o) && k in o.tracker.mapping
    requires Tracker.AddReplacement(o.tracker, literal, o.tracker.mapping[k]).Ok?
    ensures Issued(o.(tracker := Tracker.AddReplacement(o.tracker, literal, o.tracker.mapping[k]).value))
  {
  }

  /** A match whose key is its canonical form never makes `AddReplacement` exit, and the
      tracker stays canonical and holds only issued values. */
  lemma SubstituteSafe(o: State, output: string, literal: string, key: string -> string)
    requires !o.mode.Unsupported? && Issued(o)
    requires Canonical(o.tracker.mapping, key) && key(key(literal)) == key(literal)
    ensures var r := Substitute(o, output, literal, key(literal));
            && r.Ok?
            && Canonical(r.value.state.tracker.mapping, key)
            && Issued(r.value.state)
            && r.value.state.mode == o.mode
            && r.value.state.generator.template == o.generator.template
  {
    var k := key(literal);
    var p := Replacement(o, k);
    ReplacementFresh(o, k);
    ReplacementCanonical(o, k, key);
    AddCanonical(p.state.tracker, literal, key);
    AddIssued(p.state, literal, k);
  }

  /** `strings.ReplaceAll(m, "-", ".")`: the IPv4 and IPv6 obfuscators look a match up under
      its dotted spelling. */
  function Clean(m: string): string
  {
    ReplaceAll(m, "-", ".")
  }

  /** The cleaned spelling has no dash, differs from the match only where the match had a
      dash, and is its own cleaned spelling. */
  lemma CleanCanonical(m: string)
    ensures |Clean(m)| == |m|
    ensures forall j :: 0 <= j < |m| ==> Clean(m)[j] == if m[j] == '-' then '.' else m[j]
    ensures Clean(Clean(m)) == Clean(m)
  {
    ReplaceCharIsMap(m, '-', '.');
    ReplaceCharIsMap(Clean(m), '-', '.');
    assert MapChar(Clean(m), '-', '.') == Clean(m);
  }

  /** A match without a dash is its own key. */
  lemma CleanNoDash(m: string)
    requires forall j :: 0 <= j < |m| ==> m[j] != '-'
    ensures Clean(m) == m
  {
    ReplaceCharIsMap(m, '-', '.');
    assert MapChar(m, '-', '.') == m;
  }

  /** How a family turns its matches into replacements: matches it never touches, the key a
      match is looked up under, and whether `net.ParseIP` accepts the key (a predicate given
      from outside the model). */
  datatype Family = Family(excluded: set<string>, key: string -> string, valid: string -> bool)

  /** A match the loop skips: excluded, or with a key that is not a valid address. */
  predicate Skipped(f: Family, m: string) {
    m in f.excluded || !f.valid(f.key(m))
  }

  /** The `for _, m := range matches` loop of `replace` / `Contents`, the matches found by the
      family's regular expression in the original text being given. */
  function ReplaceMatches(o: State, output: string, matches: seq<string>, f: Family): (r: Fallible<Step>)
    requires !o.mode.Unsupported?
    ensures r.Ok? ==> r.value.state.mode == o.mode
    ensures r.Ok? ==> r.value.state.generator.template == o.generator.template
    ensures r.Ok? ==> Extends(o.tracker.mapping, r.value.state.tracker.mapping)
    decreases |matches|
  {
    if |matches| == 0 then Ok(Step(output, o))
    else if Skipped(f, matches[0]) then ReplaceMatches(o, output, matches[1..], f)
    else
      match Substitute(o, output, matches[0], f.key(matches[0]))
      case Ok(st) => ReplaceMatches(st.state, st.output, matches[1..], f)
      case Fatal(e) => Fatal(e)
  }

  /** With a key that is its own canonical form, the loop never exits the process, and the
      tracker stays canonical and holds only issued values. */
  lemma {:induction false} ReplaceMatchesSafe(o: State, output: string, matches: seq<string>, f: Family)
    requires !o.mode.Unsupported? && Issued(o) && Canonical(o.tracker.mapping, f.key)
    requires forall x :: f.key(f.key(x)) == f.key(x)
    ensures var r := ReplaceMatches(o, output, matches, f);
            r.Ok? && Canonical(r.value.state.tracker.mapping, f.key) && Issued(r.value.state)
    decreases |matches|
  {
    if |matches| > 0 && !Skipped(f, matches[0]) {
      SubstituteSafe(o, output, matches[0], f.key);
      var st := Substitute(o, output, matches[0], f.key(matches[0])).value;
      ReplaceMatchesSafe(st.state, st.output, matches[1..], f);
    } else if |matches| > 0 {
      ReplaceMatchesSafe(o, output, matches[1..], f);
    }
  }

  /** Every match that is not skipped ends up reported, under the same replacement as its
      key. */
  lemma {:induction false} ReplaceMatchesReports(o: State, output: string, matches: seq<string>, f: Family, j: nat)
    requires !o.mode.Unsupported? && j < |matches| && !Skipped(f, matches[j])
    requires ReplaceMatches(o, output, matches, f).Ok?
    ensures var m := ReplaceMatches(o, output, matches, f).value.state.tracker.mapping;
            matches[j] in m && f.key(matches[j]) in m && m[matches[j]] == m[f.key(matches[j])]
    decreases |matches|
  {
    if Skipped(f, matches[0]) {
      ReplaceMatchesReports(o, output, matches[1..], f, j - 1);
    } else {
      var st := Substitute(o, output, matches[0], f.key(matches[0])).value;
      if j > 0 {
        ReplaceMatchesReports(st.state, st.output, matches[1..], f, j - 1);
      }
    }
  }

  /** A single match that is its own key: the text gets its replacement and the tracker is
      the one the lookup left behind, the report of the match itself adding nothing. */
  lemma SingleMatch(o: State, output: string, m: string, f: Family)
    requires !o.mode.Unsupported? && !Skipped(f, m) && f.key(m) == m
    ensures var p := Replacement(o, m);
            ReplaceMatches(o, output, [m], f) == Ok(Step(ReplaceAll(output, m, p.value), p.state))
  {
    var p := Replacement(o, m);
    assert Tracker.AddReplacement(p.state.tracker, m, p.value) == Ok(p.state.tracker);
    assert p.state.(tracker := p.state.tracker) == p.state;
    assert [m][1..] == [];
  }

  /** When every match is skipped, the text and the obfuscator are left exactly as they were. */
  lemma {:induction false} ReplaceMatchesAllSkipped(o: State, output: string, matches: seq<string>, f: Family)
    requires !o.mode.Unsupported?
    requires forall j :: 0 <= j < |matches| ==> Skipped(f, matches[j])
    ensures ReplaceMatches(o, output, matches, f) == Ok(Step(output, o))
    decreases |matches|
  {
    if |matches| > 0 {
      assert Skipped(f, matches[0]);
      ReplaceMatchesAllSkipped(o, output, matches[1..], f);
    }
  }
}
