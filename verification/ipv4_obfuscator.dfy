/** The regular-expression IPv4 obfuscator (pkg/obfuscator/ipv4.go). */
module Ipv4Obfuscator {
  import opened Wrappers
  import opened Generator
  import opened Tracker
  import opened Obfuscator
  import opened GoStrings

  /** `excludedIPv4s`: loopback and the unspecified address are never replaced. */
  const Excluded: set<string> := {"127.0.0.1", "0.0.0.0"}

  /** Excluded matches are skipped, a match is looked up under its dotted spelling, and
      `parsesAsIp` stands for `net.ParseIP(cleaned) != nil`. */
  function Ipv4Family(parsesAsIp: string -> bool): Family {
    Family(Excluded, Clean, parsesAsIp)
  }

  /** `NewIPv4Obfuscator`. */
  function NewIpv4(mode: ReplacementType): (r: Result<State>)
    ensures r.Failure? <==> mode.Unsupported?
    ensures r.Success? ==> r.value.generator == NewGenerator(Ipv4Template) && Issued(r.value)
  {
    New(mode, Ipv4Template)
  }

  /** `Contents` and `Path` (both are `replace`): every match of `ipv4Pattern` in `s`, in
      order, given as `matches`. */
  function Contents(o: State, s: string, matches: seq<string>, parsesAsIp: string -> bool): (r: Fallible<Step>)
    requires !o.mode.Unsupported?
    ensures r.Ok? ==> Extends(o.tracker.mapping, r.value.state.tracker.mapping)
  {
    ReplaceMatches(o, s, matches, Ipv4Family(parsesAsIp))
  }

  /** The obfuscator never reports two replacements for one original, so it never exits; its
      tracker keeps every match's replacement equal to its dotted spelling's. */
  lemma ContentsSafe(o: State, s: string, matches: seq<string>, parsesAsIp: string -> bool)
    requires !o.mode.Unsupported? && Issued(o) && Canonical(o.tracker.mapping, Clean)
    ensures var r := Contents(o, s, matches, parsesAsIp);
            r.Ok? && Issued(r.value.state) && Canonical(r.value.state.tracker.mapping, Clean)
  {
    forall x ensures Clean(Clean(x)) == Clean(x) {
      CleanCanonical(x);
    }
    ReplaceMatchesSafe(o, s, matches, Ipv4Family(parsesAsIp));
  }

  /** When every match is an excluded spelling, exactly "127.0.0.1" or "0.0.0.0", the text and
      the tracker are left as they were. The exclusion is tested on the raw match, so this is
      all it promises: see `DashedLoopbackReported` and `ExcludedTailRewritten`. */
  lemma ExcludedUntouched(o: State, s: string, matches: seq<string>, parsesAsIp: string -> bool)
    requires !o.mode.Unsupported?
    requires forall j :: 0 <= j < |matches| ==> matches[j] in Excluded
    ensures Contents(o, s, matches, parsesAsIp) == Ok(Step(s, o))
  {
    ReplaceMatchesAllSkipped(o, s, matches, Ipv4Family(parsesAsIp));
  }

  /** An excluded address is dotted already: it is its own key. */
  lemma ExcludedDotted(m: string)
    requires m in Excluded
    ensures Clean(m) == m
  {
    CleanNoDash(m);
  }

  /** A dashed spelling such as "10-0-129-220" and its dotted form are reported under one
      replacement: any two matches that clean to the same dotted text share it once one of
      them is reported, even when the other is excluded ("127-0-0-1" records a value for
      "127.0.0.1", which as a match of its own is skipped). */
  lemma DashedSpellingShares(o: State, s: string, matches: seq<string>, parsesAsIp: string -> bool, i: nat, j: nat)
    requires !o.mode.Unsupported? && i < |matches| && j < |matches|
    requires !Skipped(Ipv4Family(parsesAsIp), matches[i]) && Clean(matches[i]) == Clean(matches[j])
    requires Contents(o, s, matches, parsesAsIp).Ok?
    ensures var m := Contents(o, s, matches, parsesAsIp).value.state.tracker.mapping;
            matches[i] in m && matches[j] in m && m[matches[i]] == m[matches[j]]
  {
    var f := Ipv4Family(parsesAsIp);
    ReplaceMatchesReports(o, s, matches, f, i);
    if matches[j] in Excluded {
      ExcludedDotted(matches[j]);
    } else {
      ReplaceMatchesReports(o, s, matches, f, j);
    }
  }

  /** The dashed loopback spelling cleans to the excluded dotted one. */
  lemma CleanDashedLoopback()
    ensures Clean("127-0-0-1") == "127.0.0.1"
  {
    var m := "127-0-0-1";
    CleanCanonical(m);
    var c := Clean(m);
    assert c == [c[0], c[1], c[2], c[3], c[4], c[5], c[6], c[7], c[8]];
  }

  /** The exclusion is tested before cleaning: "127-0-0-1" is not excluded, so it is cleaned to
      "127.0.0.1", which gets a replacement, and the dashed spelling is reported under it. */
  lemma DashedLoopbackReported(o: State, s: string, matches: seq<string>, parsesAsIp: string -> bool, j: nat)
    requires !o.mode.Unsupported? && Issued(o) && Canonical(o.tracker.mapping, Clean)
    requires j < |matches| && matches[j] == "127-0-0-1" && parsesAsIp("127.0.0.1")
    ensures var r := Contents(o, s, matches, parsesAsIp);
            && r.Ok?
            && var m := r.value.state.tracker.mapping;
               "127.0.0.1" in m && "127-0-0-1" in m && m["127-0-0-1"] == m["127.0.0.1"]
  {
    assert Contents(o, s, matches, parsesAsIp).Ok? by {
      ContentsSafe(o, s, matches, parsesAsIp);
    }
    var f := Ipv4Family(parsesAsIp);
    CleanDashedLoopback();
    assert !Skipped(f, matches[j]) by {
      assert "127-0-0-1" !in Excluded by {
        assert "127-0-0-1"[3] != "127.0.0.1"[3] && "127-0-0-1"[0] != "0.0.0.0"[0];
      }
    }
    ReplaceMatchesReports(o, s, matches, f, j);
  }

  /** Two occurrences of `pat`, each behind text that cannot start it, are both replaced. */
  lemma ReplaceTwice(p: string, pat: string, q: string, v: string)
    requires 0 < |pat|
    requires forall j :: 0 <= j < |p| ==> p[j] != pat[0]
    requires forall j :: 0 <= j < |q| ==> q[j] != pat[0]
    ensures ReplaceAll(p + pat + q + pat, pat, v) == p + v + q + v
  {
    assert p + pat + q + pat == p + (pat + (q + (pat + "")));
    if pat != v {
      ReplaceFromSkip(p, pat + (q + (pat + "")), pat, v);
      ReplaceFromFront(pat, q + (pat + ""), v);
      ReplaceFromSkip(q, pat + "", pat, v);
      ReplaceFromFront(pat, "", v);
    }
  }

  /** The text of `ExcludedTailRewritten`: every "27.0.0.1" is replaced, the one at the end of
      "127.0.0.1" too. */
  lemma TailRewriteText(v: string)
    ensures ReplaceAll("127.0.0.1 27.0.0.1", "27.0.0.1", v) == "1" + v + " " + v
  {
    assert "127.0.0.1 27.0.0.1" == "1" + "27.0.0.1" + " " + "27.0.0.1";
    ReplaceTwice("1", "27.0.0.1", " ", v);
  }

  /** A skipped match followed by one that is its own key: the text gets the second match's
      replacement, everywhere it occurs. */
  lemma SkipThenReplace(o: State, s: string, a: string, b: string, f: Family)
    requires !o.mode.Unsupported? && Skipped(f, a) && !Skipped(f, b) && f.key(b) == b
    requires ReplaceMatches(o, s, [a, b], f).Ok?
    ensures ReplaceMatches(o, s, [a, b], f).value.output == ReplaceAll(s, b, Replacement(o, b).value)
  {
    assert [a, b][1..] == [b] && [b][1..] == [];
    assert ReplaceMatches(o, s, [a, b], f) == ReplaceMatches(o, s, [b], f);
    var st := Substitute(o, s, b, b);
    assert ReplaceMatches(o, s, [b], f) == ReplaceMatches(st.value.state, st.value.output, [], f);
  }

  /** A suffix of a dash-free spelling is dash-free too, so it is its own key. */
  lemma CleanSuffix(m: string, k: nat)
    requires k <= |m| && Clean(m) == m
    ensures Clean(m[k..]) == m[k..]
  {
    CleanCanonical(m);
    CleanNoDash(m[k..]);
  }

  /** Replacing a match rewrites every occurrence of it, excluded addresses included: with
      "127.0.0.1" skipped and "27.0.0.1" replaced, the loopback address loses its tail. */
  lemma ExcludedTailRewritten(o: State, parsesAsIp: string -> bool)
    requires !o.mode.Unsupported? && Issued(o) && Canonical(o.tracker.mapping, Clean)
    requires parsesAsIp("27.0.0.1")
    ensures var r := Contents(o, "127.0.0.1 27.0.0.1", ["127.0.0.1", "27.0.0.1"], parsesAsIp);
            var v := Replacement(o, "27.0.0.1").value;
            r.Ok? && r.value.output == "1" + v + " " + v
  {
    var s := "127.0.0.1 27.0.0.1";
    var ms := ["127.0.0.1", "27.0.0.1"];
    assert Contents(o, s, ms, parsesAsIp).Ok? by {
      ContentsSafe(o, s, ms, parsesAsIp);
    }
    ExcludedDotted("127.0.0.1");
    assert "27.0.0.1" == "127.0.0.1"[1..];
    CleanSuffix("127.0.0.1", 1);
    SkipThenReplace(o, s, "127.0.0.1", "27.0.0.1", Ipv4Family(parsesAsIp));
    TailRewriteText(Replacement(o, "27.0.0.1").value);
  }
}
