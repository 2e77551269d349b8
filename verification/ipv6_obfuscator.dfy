/** The regular-expression IPv6 obfuscator (pkg/obfuscator/ipv6.go). Its loop is the IPv4
    obfuscator's with the IPv6 exclusions and template. */
module Ipv6Obfuscator {
  import opened Wrappers
  import opened Generator
  import opened Tracker
  import opened GoStrings
  import opened Obfuscator

  /** `excludedIPv6s`: the loopback address is never replaced. */
  const Excluded: set<string> := {"::1"}

  function Ipv6Family(parsesAsIp: string -> bool): Family {
    Family(Excluded, Clean, parsesAsIp)
  }

  /** `NewIPv6Obfuscator`. */
  function NewIpv6(mode: ReplacementType): (r: Result<State>)
    ensures r.Failure? <==> mode.Unsupported?
    ensures r.Success? ==> r.value.generator == NewGenerator(Ipv6Template) && Issued(r.value)
  {
    New(mode, Ipv6Template)
  }

  /** `Contents` and `Path`: every match of `ipv6Pattern` in `s`, in order, given as
      `matches`; `parsesAsIp` stands for `net.ParseIP(cleaned) != nil`. */
  function Contents(o: State, s: string, matches: seq<string>, parsesAsIp: string -> bool): (r: Fallible<Step>)
    requires !o.mode.Unsupported?
    ensures r.Ok? ==> Extends(o.tracker.mapping, r.value.state.tracker.mapping)
  {
    ReplaceMatches(o, s, matches, Ipv6Family(parsesAsIp))
  }

  /** The obfuscator never reports two replacements for one original, so it never exits. */
  lemma ContentsSafe(o: State, s: string, matches: seq<string>, parsesAsIp: string -> bool)
    requires !o.mode.Unsupported? && Issued(o) && Canonical(o.tracker.mapping, Clean)
    ensures var r := Contents(o, s, matches, parsesAsIp);
            r.Ok? && Issued(r.value.state) && Canonical(r.value.state.tracker.mapping, Clean)
  {
    forall x ensures Clean(Clean(x)) == Clean(x) {
      CleanCanonical(x);
    }
    ReplaceMatchesSafe(o, s, matches, Ipv6Family(parsesAsIp));
  }

  /** One match `m`, found after a prefix `p` that does not hold `m`'s first character and
      followed by text `q` that does not hold it either, on a fresh obfuscator: the text
      gets the first replacement in place of `m`, and `m` is the only original reported. */
  lemma FreshSingleMatch(mode: ReplacementType, p: string, m: string, q: string, parsesAsIp: string -> bool)
    requires !mode.Unsupported? && 0 < |m| && m !in Excluded && parsesAsIp(m)
    requires forall j :: 0 <= j < |m| ==> m[j] != '-'
    requires forall j :: 0 <= j < |p| ==> p[j] != m[0]
    requires forall j :: 0 <= j < |q| ==> q[j] != m[0]
    ensures var o := NewIpv6(mode).value;
            var v := if mode.Static? then Ipv6Template.placeholder
                     else GenerateConsistent(NewGenerator(Ipv6Template)).value;
            var r := Contents(o, p + m + q, [m], parsesAsIp);
            r.Ok? && r.value.output == p + v + q && Tracker.Report(r.value.state.tracker) == map[m := v]
  {
    var o := NewIpv6(mode).value;
    CleanNoDash(m);
    SingleMatch(o, p + m + q, m, Ipv6Family(parsesAsIp));
    var v := Replacement(o, m).value;
    ReplaceInContext(p, m, q, v);
  }

  /** The static test "valid ipv6 address": the address becomes the static placeholder and is
      reported against it. */
  lemma StaticValidAddress(input: string, parsesAsIp: string -> bool)
    requires input == "received request from 2001:db8::ff00:42:8329"
    requires parsesAsIp("2001:db8::ff00:42:8329")
    ensures var r := Contents(NewIpv6(Static).value, input, ["2001:db8::ff00:42:8329"], parsesAsIp);
            && r.Ok?
            && r.value.output == "received request from " + "xxxx:xxxx:xxxx:xxxx:xxxx:xxxx:xxxx:xxxx"
            && Tracker.Report(r.value.state.tracker)
               == map["2001:db8::ff00:42:8329" := "xxxx:xxxx:xxxx:xxxx:xxxx:xxxx:xxxx:xxxx"]
  {
    var p, m := "received request from ", "2001:db8::ff00:42:8329";
    assert input == p + m + "";
    FreshSingleMatch(Static, p, m, "", parsesAsIp);
    assert p + Ipv6Template.placeholder + "" == p + Ipv6Template.placeholder;
  }

  /** The static test "excluded ipv6 address": the regular expression finds "::1" and
      ":8080"; the first is excluded and the second is not an address, so nothing changes. */
  lemma StaticExcludedAddress(input: string, parsesAsIp: string -> bool)
    requires input == "Listening on [::1]:8080"
    requires !parsesAsIp(":8080")
    ensures var o := NewIpv6(Static).value;
            Contents(o, input, ["::1", ":8080"], parsesAsIp) == Ok(Step(input, o))
            && |Tracker.Report(o.tracker)| == 0
  {
    CleanNoDash(":8080");
    ReplaceMatchesAllSkipped(NewIpv6(Static).value, input, ["::1", ":8080"], Ipv6Family(parsesAsIp));
  }

  /** The consistent test "mixed ipv4 and ipv6": only the IPv6 address is replaced, by the
      first consistent value. */
  lemma ConsistentMixed(input: string, parsesAsIp: string -> bool)
    requires input == "tunneling ::2fa:bf9 as 192.168.1.30"
    requires parsesAsIp("::2fa:bf9")
    ensures var r := Contents(NewIpv6(Consistent).value, input, ["::2fa:bf9"], parsesAsIp);
            && r.Ok?
            && r.value.output == "tunneling " + ("xx-ipv6-" + "000000000000000001" + "-xx") + " as 192.168.1.30"
            && Tracker.Report(r.value.state.tracker) == map["::2fa:bf9" := "xx-ipv6-" + "000000000000000001" + "-xx"]
  {
    var p, m, q := "tunneling ", "::2fa:bf9", " as 192.168.1.30";
    assert input == p + m + q;
    FreshSingleMatch(Consistent, p, m, q, parsesAsIp);
    FirstIpv6Value();
  }
}
