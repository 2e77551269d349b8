/** The MAC address obfuscator (pkg/obfuscator/mac_address.go): every match is looked up
    under its normalised spelling, with dashes read as colons and letters upper-cased, so the
    spellings of one address share one replacement. Nothing is excluded and no match is
    rejected. */
module MacObfuscator {
  import opened Wrappers
  import opened Generator
  import opened Tracker
  import opened GoStrings
  import opened Obfuscator

  const MacFamily: Family := Family({}, NormalizeMac, _ => true)

  /** `NewMacAddressObfuscator`. */
  function NewMac(mode: ReplacementType): (r: Result<State>)
    ensures r.Failure? <==> mode.Unsupported?
    ensures r.Success? ==> r.value.generator == NewGenerator(MacTemplate) && Issued(r.value)
  {
    New(mode, MacTemplate)
  }

  /** `Contents` (and `Path`, which calls it): every match of the MAC regular expression in
      `s`, in order, given as `matches`. */
  function Contents(o: State, s: string, matches: seq<string>): (r: Fallible<Step>)
    requires !o.mode.Unsupported?
    ensures r.Ok? ==> Extends(o.tracker.mapping, r.value.state.tracker.mapping)
  {
    ReplaceMatches(o, s, matches, MacFamily)
  }

  /** The obfuscator never reports two replacements for one original, so it never exits; its
      tracker keeps every spelling's replacement equal to its normalised key's. */
  lemma ContentsSafe(o: State, s: string, matches: seq<string>)
    requires !o.mode.Unsupported? && Issued(o) && Canonical(o.tracker.mapping, NormalizeMac)
    ensures var r := Contents(o, s, matches);
            r.Ok? && Issued(r.value.state) && Canonical(r.value.state.tracker.mapping, NormalizeMac)
  {
    forall x ensures NormalizeMac(NormalizeMac(x)) == NormalizeMac(x) {
      NormalizeMacIdempotent(x);
    }
    ReplaceMatchesSafe(o, s, matches, MacFamily);
  }

  /** Two matches that spell the same address up to case and separator are reported under one
      replacement. */
  lemma SpellingsShareReplacement(o: State, s: string, matches: seq<string>, i: nat, j: nat)
    requires !o.mode.Unsupported? && i < |matches| && j < |matches|
    requires |matches[i]| == |matches[j]|
    requires forall c :: 0 <= c < |matches[i]| ==> FoldMacChar(matches[i][c]) == FoldMacChar(matches[j][c])
    requires Contents(o, s, matches).Ok?
    ensures var m := Contents(o, s, matches).value.state.tracker.mapping;
            matches[i] in m && matches[j] in m && m[matches[i]] == m[matches[j]]
  {
    MacKeyIff(matches[i], matches[j]);
    ReplaceMatchesReports(o, s, matches, MacFamily, i);
    ReplaceMatchesReports(o, s, matches, MacFamily, j);
  }
}
