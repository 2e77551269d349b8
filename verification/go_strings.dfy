/** The two Go library string functions the obfuscators build their keys and outputs with:
    `strings.ReplaceAll` and `strings.ToUpper` (the latter on the ASCII text a MAC address
    match consists of). */
module GoStrings {

  /** `pat` occurs in `s` starting at `i`. */
  predicate OccursAt(s: string, pat: string, i: nat) {
    i + |pat| <= |s| && s[i..i + |pat|] == pat
  }

  predicate Contains(s: string, pat: string) {
    exists i: nat :: i <= |s| && OccursAt(s, pat, i)
  }

  /** Leftmost, non-overlapping replacement of a non-empty `pat`: scanning from the left, an
      occurrence is replaced and the scan continues after it. */
  function ReplaceFrom(s: string, pat: string, rep: string): (r: string)
    requires |pat| > 0
    decreases |s|
  {
    if |s| < |pat| then s
    else if s[..|pat|] == pat then rep + ReplaceFrom(s[|pat|..], pat, rep)
    else [s[0]] + ReplaceFrom(s[1..], pat, rep)
  }

  /** Empty `pat`: `rep` before every character and at the end. */
  function Interleave(s: string, rep: string): string
  {
    if |s| == 0 then rep else rep + [s[0]] + Interleave(s[1..], rep)
  }

  /** `strings.ReplaceAll(s, pat, rep)`. Equal `pat` and `rep` return `s` untouched. */
  function ReplaceAll(s: string, pat: string, rep: string): string
  {
    if pat == rep then s
    else if |pat| == 0 then Interleave(s, rep)
    else ReplaceFrom(s, pat, rep)
  }

  /** Text without an occurrence of `pat` comes back unchanged. */
  lemma {:induction false} ReplaceFromNoMatch(s: string, pat: string, rep: string)
    requires |pat| > 0 && !Contains(s, pat)
    ensures ReplaceFrom(s, pat, rep) == s
    decreases |s|
  {
    if |pat| <= |s| {
      assert !OccursAt(s, pat, 0);
      forall i: nat ensures !OccursAt(s[1..], pat, i) {
        if i + 1 <= |s| {
          assert !OccursAt(s, pat, i + 1);
        }
        assert i + |pat| <= |s| - 1 ==> s[1..][i..i + |pat|] == s[i + 1..i + 1 + |pat|];
      }
      ReplaceFromNoMatch(s[1..], pat, rep);
      assert [s[0]] + s[1..] == s;
    }
  }

  lemma ReplaceAllNoMatch(s: string, pat: string, rep: string)
    requires |pat| > 0 && !Contains(s, pat)
    ensures ReplaceAll(s, pat, rep) == s
  {
    if pat != rep {
      ReplaceFromNoMatch(s, pat, rep);
    }
  }

  /** Replacing `pat` by itself changes nothing, so the shortcut for `pat == rep` agrees with
      the general scan. */
  lemma {:induction false} ReplaceFromSame(s: string, pat: string)
    requires |pat| > 0
    ensures ReplaceFrom(s, pat, pat) == s
    decreases |s|
  {
    if |s| >= |pat| {
      if s[..|pat|] == pat {
        ReplaceFromSame(s[|pat|..], pat);
        assert pat + s[|pat|..] == s;
      } else {
        ReplaceFromSame(s[1..], pat);
        assert [s[0]] + s[1..] == s;
      }
    }
  }

  /** A prefix in which the first character of `pat` never appears is copied through. */
  lemma {:induction false} ReplaceFromSkip(p: string, t: string, pat: string, rep: string)
    requires |pat| > 0 && forall j :: 0 <= j < |p| ==> p[j] != pat[0]
    ensures ReplaceFrom(p + t, pat, rep) == p + ReplaceFrom(t, pat, rep)
    decreases |p|
  {
    if |p| > 0 {
      var s := p + t;
      assert s[0] == p[0];
      if |s| >= |pat| {
        assert s[..|pat|][0] == p[0];
        assert s[1..] == p[1..] + t;
        ReplaceFromSkip(p[1..], t, pat, rep);
        assert [p[0]] + p[1..] == p;
      } else {
        assert |t| < |pat|;
        assert ReplaceFrom(t, pat, rep) == t;
      }
    } else {
      assert p + t == t;
    }
  }

  /** An occurrence at the front is replaced whole. */
  lemma ReplaceFromFront(pat: string, t: string, rep: string)
    requires |pat| > 0
    ensures ReplaceFrom(pat + t, pat, rep) == rep + ReplaceFrom(t, pat, rep)
  {
    assert (pat + t)[..|pat|] == pat;
    assert (pat + t)[|pat|..] == t;
  }

  /** One occurrence, with its first character appearing nowhere else around it, is replaced
      in place. */
  lemma ReplaceInContext(p: string, m: string, q: string, v: string)
    requires 0 < |m|
    requires forall j :: 0 <= j < |p| ==> p[j] != m[0]
    requires forall j :: 0 <= j < |q| ==> q[j] != m[0]
    ensures ReplaceAll(p + m + q, m, v) == p + v + q
  {
    if m != v {
      assert p + m + q == p + (m + q);
      ReplaceFromSkip(p, m + q, m, v);
      ReplaceFromFront(m, q, v);
      ReplaceFromSkip(q, "", m, v);
      assert q + "" == q;
    }
  }

  /** Swapping one character for another, for every occurrence. */
  function MapChar(s: string, c: char, d: char): (r: string)
    ensures |r| == |s|
    ensures forall j :: 0 <= j < |s| ==> r[j] == if s[j] == c then d else s[j]
  {
    if |s| == 0 then "" else (if s[0] == c then [d] else [s[0]]) + MapChar(s[1..], c, d)
  }

  /** For a one-character `pat` and `rep`, replacing is a pointwise character swap. */
  lemma {:induction false} ReplaceCharIsMap(s: string, c: char, d: char)
    ensures ReplaceAll(s, [c], [d]) == MapChar(s, c, d)
    decreases |s|
  {
    if c == d {
      assert MapChar(s, c, d) == s;
    } else if |s| > 0 {
      ReplaceCharIsMap(s[1..], c, d);
      assert s[..1] == [s[0]];
    }
  }

  /** A swap to a character the text does not hold is undone by the reverse swap. */
  lemma ReplaceCharUndo(s: string, c: char, d: char)
    requires forall j :: 0 <= j < |s| ==> s[j] != d
    ensures ReplaceAll(ReplaceAll(s, [c], [d]), [d], [c]) == s
  {
    ReplaceCharIsMap(s, c, d);
    ReplaceCharIsMap(MapChar(s, c, d), d, c);
    assert MapChar(MapChar(s, c, d), d, c) == s;
  }

  /** Go's `strings.ToUpper` on ASCII: 'a'..'z' become 'A'..'Z', everything else stays. */
  function UpperChar(c: char): (u: char)
    ensures !('a' <= u <= 'z')
  {
    if 'a' <= c <= 'z' then (c as int - 32) as char else c
  }

  function ToUpper(s: string): (r: string)
    ensures |r| == |s| && forall j :: 0 <= j < |s| ==> r[j] == UpperChar(s[j])
  {
    seq(|s|, j requires 0 <= j < |s| => UpperChar(s[j]))
  }

  /** The MAC address key: dashes read as colons, letters upper-cased. */
  function NormalizeMac(mac: string): string
  {
    ToUpper(ReplaceAll(mac, "-", ":"))
  }

  /** The per-character folding `NormalizeMac` applies. */
  function FoldMacChar(c: char): (f: char)
    ensures f != '-' && !('a' <= f <= 'z')
  {
    if c == '-' then ':' else UpperChar(c)
  }

  lemma NormalizeMacPointwise(mac: string)
    ensures |NormalizeMac(mac)| == |mac|
    ensures forall j :: 0 <= j < |mac| ==> NormalizeMac(mac)[j] == FoldMacChar(mac[j])
  {
    ReplaceCharIsMap(mac, '-', ':');
  }

  /** Two spellings share a key exactly when they agree character by character up to case and
      the choice of separator. */
  lemma MacKeyIff(a: string, b: string)
    ensures NormalizeMac(a) == NormalizeMac(b)
        <==> |a| == |b| && forall j :: 0 <= j < |a| ==> FoldMacChar(a[j]) == FoldMacChar(b[j])
  {
    NormalizeMacPointwise(a);
    NormalizeMacPointwise(b);
    if |a| == |b| && forall j :: 0 <= j < |a| ==> FoldMacChar(a[j]) == FoldMacChar(b[j]) {
      assert forall j :: 0 <= j < |a| ==> NormalizeMac(a)[j] == NormalizeMac(b)[j];
    }
  }

  /** A key is already normal: no dash, no lower-case letter, and normalising it again
      changes nothing. */
  lemma NormalizeMacIdempotent(mac: string)
    ensures var k := NormalizeMac(mac);
            && (forall j :: 0 <= j < |k| ==> k[j] != '-' && !('a' <= k[j] <= 'z'))
            && NormalizeMac(k) == k
  {
    var k := NormalizeMac(mac);
    NormalizeMacPointwise(mac);
    NormalizeMacPointwise(k);
  }
}
