/** The scanner-based IPv4 obfuscator (pkg/obfuscator/fast_ipv4.go): instead of a regular
    expression it walks the text with `FindNextIPv4`, copying text into a builder and writing
    each address's replacement in its place. Both the address's dotted form and the text it
    was spelled as are reported.

    Two loops are modelled: `ReplaceLoopAsWritten`, the loop as the source has it, and
    `ReplaceLoop`, the loop with its evident intent (copy every byte that is not part of an
    address exactly once, unchanged), which `Replace` uses. */
module FastIpv4 {
  import opened Wrappers
  import opened Text
  import opened Generator
  import opened Tracker
  import opened Obfuscator
  import opened Ipv4Matcher

  /** `NewFastIPv4Obfuscator`: the IPv4 family's generator and a fresh tracker. */
  function NewFastIpv4(mode: ReplacementType): (r: Result<State>)
    ensures r.Failure? <==> mode.Unsupported?
    ensures r.Failure? ==> r.error == UnsupportedError(mode.name)
    ensures r.Success? ==> r.value.generator == NewGenerator(Ipv4Template) && Issued(r.value)
  {
    New(mode, Ipv4Template)
  }

  /** The key a spelling of an address shares its replacement with: a literal's dotted form. */
  function FastKey(k: string): string {
    if IsLiteral(k) then Normalized(k) else k
  }

  lemma FastKeyIdempotent(k: string)
    ensures FastKey(FastKey(k)) == FastKey(k)
  {
    if IsLiteral(k) {
      NormalizedIdempotent(k);
    }
  }

  /** The match branch of the loop: the replacement for the dotted address, then
      `AddReplacement` for the dotted address and for the text it was spelled as. */
  function MatchStep(o: State, s: string, f: Found): (r: Fallible<Picked>)
    requires !o.mode.Unsupported? && f.start <= f.end <= |s|
    ensures r.Ok? ==> Extends(o.tracker.mapping, r.value.state.tracker.mapping)
    ensures r.Ok? ==> r.value.state.mode == o.mode && r.value.state.generator.template == o.generator.template
    ensures r.Ok? ==> var m := r.value.state.tracker.mapping;
                      f.ip in m && s[f.start..f.end] in m
                      && m[f.ip] == r.value.value && m[s[f.start..f.end]] == r.value.value
  {
    var p := Replacement(o, f.ip);
    match Tracker.AddReplacement(p.state.tracker, f.ip, p.value)
    case Fatal(e) => Fatal(e)
    case Ok(t1) =>
      match Tracker.AddReplacement(t1, s[f.start..f.end], p.value)
      case Fatal(e) => Fatal(e)
      case Ok(t2) => Ok(Picked(p.value, p.state.(tracker := t2)))
  }

  /** With the tracker canonical for `FastKey`, a match never makes `AddReplacement` exit, and
      the tracker stays canonical and holds only issued values. */
  lemma MatchStepSafe(o: State, s: string, at: nat)
    requires !o.mode.Unsupported? && Issued(o) && Canonical(o.tracker.mapping, FastKey)
    requires at <= |s| && FindNextIPv4(s, at).ip != []
    ensures var r := MatchStep(o, s, FindNextIPv4(s, at));
            r.Ok? && Issued(r.value.state) && Canonical(r.value.state.tracker.mapping, FastKey)
  {
    var f := FindNextIPv4(s, at);
    var lit := s[f.start..f.end];
    MatchIsLiteral(s, at);
    assert FastKey(f.ip) == f.ip && FastKey(lit) == f.ip;
    var p := Replacement(o, f.ip);
    ReplacementFresh(o, f.ip);
    ReplacementCanonical(o, f.ip, FastKey);
    AddCanonical(p.state.tracker, f.ip, FastKey);
    AddIssued(p.state, f.ip, f.ip);
    var t1 := Tracker.AddReplacement(p.state.tracker, f.ip, p.value).value;
    assert t1 == p.state.tracker;
    AddCanonical(t1, lit, FastKey);
    AddIssued(p.state, lit, f.ip);
  }

  // ---------------------------------------------------------------------------------------
  // The loop as written

  /** `replace`'s loop at index `i`, with `lastWriteIndex` and the builder's contents `sb`. A
      match found from `i` is written after the text from `lastWrite` up to its start, and the
      scan resumes at its end. Otherwise the byte at `i` goes through `string(s[i])`, which
      encodes it in UTF-8 as the code point U+00xx, and `lastWrite` is set to `i`, so that a
      match found from `i + 1` copies `s[i]` a second time. */
  function ReplaceLoopAsWritten(o: State, s: string, i: nat, lastWrite: nat, sb: string): (r: Fallible<Step>)
    requires !o.mode.Unsupported? && IsByteString(s) && lastWrite <= i <= |s|
    ensures r.Ok? ==> Extends(o.tracker.mapping, r.value.state.tracker.mapping)
    decreases |s| - i
  {
    if i == |s| then Ok(Step(sb, o))
    else
      var f := FindNextIPv4(s, i);
      if f.ip != [] then
        match MatchStep(o, s, f)
        case Fatal(e) => Fatal(e)
        case Ok(p) => ReplaceLoopAsWritten(p.state, s, f.end, f.end, sb + s[lastWrite..f.start] + p.value)
      else ReplaceLoopAsWritten(o, s, i + 1, i, sb + ByteToString(s[i]))
  }

  /** `Contents` and `Path`: `replace` as written, where an empty builder means the input is
      returned. */
  function ReplaceAsWritten(o: State, s: string): (r: Fallible<Step>)
    requires !o.mode.Unsupported? && IsByteString(s)
    ensures r.Ok? ==> Extends(o.tracker.mapping, r.value.state.tracker.mapping)
  {
    match ReplaceLoopAsWritten(o, s, 0, 0, "")
    case Fatal(e) => Fatal(e)
    case Ok(st) => if |st.output| == 0 then Ok(Step(s, st.state)) else Ok(st)
  }

  // ---------------------------------------------------------------------------------------
  // The loop as intended

  /** The loop with each byte outside an address copied once, as it is: `lastWrite` moves past
      the copied byte. */
  function ReplaceLoop(o: State, s: string, i: nat, lastWrite: nat, sb: string): (r: Fallible<Step>)
    requires !o.mode.Unsupported? && lastWrite <= i <= |s|
    ensures r.Ok? ==> Extends(o.tracker.mapping, r.value.state.tracker.mapping)
    ensures r.Ok? ==> r.value.state.mode == o.mode && r.value.state.generator.template == o.generator.template
    decreases |s| - i
  {
    if i == |s| then Ok(Step(sb, o))
    else
      var f := FindNextIPv4(s, i);
      if f.ip != [] then
        match MatchStep(o, s, f)
        case Fatal(e) => Fatal(e)
        case Ok(p) => ReplaceLoop(p.state, s, f.end, f.end, sb + s[lastWrite..f.start] + p.value)
      else ReplaceLoop(o, s, i + 1, i + 1, sb + [s[i]])
  }

  /** `replace` with the corrected loop: the behaviour `Contents` and `Path` evidently intend. */
  function Replace(o: State, s: string): (r: Fallible<Step>)
    requires !o.mode.Unsupported?
    ensures r.Ok? ==> Extends(o.tracker.mapping, r.value.state.tracker.mapping)
  {
    match ReplaceLoop(o, s, 0, 0, "")
    case Fatal(e) => Fatal(e)
    case Ok(st) => if |st.output| == 0 then Ok(Step(s, st.state)) else Ok(st)
  }

  // ---------------------------------------------------------------------------------------
  // What the text becomes: the scan's decomposition of the input

  /** A piece of the input: text copied through, or an address spelling that is swapped. */
  datatype Piece = Copy(text: string) | Swap(literal: string)

  /** The pieces the scan cuts `s[i..]` into: before each address found from the current
      position, the text up to it; with no address, a single byte. */
  function Spans(s: string, i: nat): seq<Piece>
    requires i <= |s|
    decreases |s| - i
  {
    if i == |s| then []
    else
      var f := FindNextIPv4(s, i);
      if f.ip != [] then [Copy(s[i..f.start])] + ([Swap(s[f.start..f.end])] + Spans(s, f.end))
      else [Copy([s[i]])] + Spans(s, i + 1)
  }

  function PieceText(p: Piece): string {
    match p
    case Copy(t) => t
    case Swap(l) => l
  }

  /** An unrecorded spelling is left as it is; `Recorded` rules that case out for the
      corrected loop. */
  function PieceOut(p: Piece, m: Mapping): string {
    match p
    case Copy(t) => t
    case Swap(l) => if l in m then m[l] else l
  }

  /** The text the pieces were cut from. */
  function Original(ps: seq<Piece>): string
  {
    if |ps| == 0 then "" else PieceText(ps[0]) + Original(ps[1..])
  }

  /** The text with each swapped spelling replaced by what `m` records for it. */
  function Obfuscated(ps: seq<Piece>, m: Mapping): string
  {
    if |ps| == 0 then "" else PieceOut(ps[0], m) + Obfuscated(ps[1..], m)
  }

  /** A swapped piece is an address literal whose replacement in `m` is its dotted form's. */
  ghost predicate RecordedPiece(p: Piece, m: Mapping) {
    p.Swap? ==>
      && IsLiteral(p.literal)
      && p.literal in m && Normalized(p.literal) in m
      && m[p.literal] == m[Normalized(p.literal)]
  }

  ghost predicate Recorded(ps: seq<Piece>, m: Mapping) {
    forall j :: 0 <= j < |ps| ==> RecordedPiece(ps[j], m)
  }

  lemma OriginalCons(p: Piece, qs: seq<Piece>)
    ensures Original([p] + qs) == PieceText(p) + Original(qs)
  {
    assert ([p] + qs)[1..] == qs;
  }

  lemma ObfuscatedCons(p: Piece, qs: seq<Piece>, m: Mapping)
    ensures Obfuscated([p] + qs, m) == PieceOut(p, m) + Obfuscated(qs, m)
  {
    assert ([p] + qs)[1..] == qs;
  }

  lemma RecordedCons(p: Piece, qs: seq<Piece>, m: Mapping)
    requires RecordedPiece(p, m) && Recorded(qs, m)
    ensures Recorded([p] + qs, m)
  {
    forall j | 0 <= j < |[p] + qs| ensures RecordedPiece(([p] + qs)[j], m) {
      if j > 0 {
        assert ([p] + qs)[j] == qs[j - 1];
      }
    }
  }

  /** `Spans` at a position where the scan finds an address. */
  lemma SpansAtMatch(s: string, i: nat)
    requires i < |s| && FindNextIPv4(s, i).ip != []
    ensures var f := FindNextIPv4(s, i);
            Spans(s, i) == [Copy(s[i..f.start])] + ([Swap(s[f.start..f.end])] + Spans(s, f.end))
  {
  }

  /** `Spans` at a position where the scan finds nothing. */
  lemma SpansAtByte(s: string, i: nat)
    requires i < |s| && FindNextIPv4(s, i).ip == []
    ensures Spans(s, i) == [Copy([s[i]])] + Spans(s, i + 1)
  {
  }

  /** The pieces put back together are the input: nothing is lost, nothing repeated. */
  lemma {:induction false} SpansOriginal(s: string, i: nat)
    requires i <= |s|
    ensures Original(Spans(s, i)) == s[i..]
    decreases |s| - i
  {
    if i < |s| {
      var f := FindNextIPv4(s, i);
      if f.ip != [] {
        SpansOriginal(s, f.end);
        OriginalAtMatch(s, i);
      } else {
        SpansOriginal(s, i + 1);
        OriginalAtByte(s, i);
      }
    }
  }

  /** The step of `SpansOriginal` at an address. */
  lemma OriginalAtMatch(s: string, i: nat)
    requires i < |s| && FindNextIPv4(s, i).ip != []
    requires Original(Spans(s, FindNextIPv4(s, i).end)) == s[FindNextIPv4(s, i).end..]
    ensures Original(Spans(s, i)) == s[i..]
  {
    var f := FindNextIPv4(s, i);
    SpansAtMatch(s, i);
    OriginalOfMatch(s[i..f.start], s[f.start..f.end], Spans(s, f.end));
    SliceSplit(s, i, f.start, f.end);
  }

  /** The step of `SpansOriginal` at a byte outside an address. */
  lemma OriginalAtByte(s: string, i: nat)
    requires i < |s| && FindNextIPv4(s, i).ip == []
    requires Original(Spans(s, i + 1)) == s[i + 1..]
    ensures Original(Spans(s, i)) == s[i..]
  {
    SpansAtByte(s, i);
    OriginalCons(Copy([s[i]]), Spans(s, i + 1));
    SliceSplit(s, i, i, i + 1);
  }

  lemma OriginalOfMatch(pre: string, lit: string, rest: seq<Piece>)
    ensures Original([Copy(pre)] + ([Swap(lit)] + rest)) == pre + (lit + Original(rest))
  {
    OriginalCons(Copy(pre), [Swap(lit)] + rest);
    OriginalCons(Swap(lit), rest);
  }

  /** A suffix cut in three at `b` and `c`. */
  lemma SliceSplit(s: string, a: nat, b: nat, c: nat)
    requires a <= b <= c <= |s|
    ensures s[a..] == s[a..b] + (s[b..c] + s[c..])
    ensures c == b + 1 && a == b ==> s[a..] == [s[a]] + s[c..]
  {
  }

  lemma RecordedExtends(ps: seq<Piece>, m1: Mapping, m2: Mapping)
    requires Recorded(ps, m1) && Extends(m1, m2)
    ensures Recorded(ps, m2)
  {
    forall j | 0 <= j < |ps| ensures RecordedPiece(ps[j], m2) {
      assert RecordedPiece(ps[j], m1);
    }
  }

  /** What the corrected loop promises from position `i` with builder `sb`: it never exits,
      it writes the obfuscated pieces after the builder, keeps the tracker canonical and
      holding only issued values, and records every swapped spelling together with its dotted
      form under one value. */
  ghost predicate LoopMeets(o: State, s: string, i: nat, sb: string)
    requires !o.mode.Unsupported? && i <= |s|
  {
    var r := ReplaceLoop(o, s, i, i, sb);
    && r.Ok?
    && Issued(r.value.state) && Canonical(r.value.state.tracker.mapping, FastKey)
    && r.value.output == sb + Obfuscated(Spans(s, i), r.value.state.tracker.mapping)
    && Recorded(Spans(s, i), r.value.state.tracker.mapping)
  }

  /** The corrected loop keeps its promise from every position, given an issued, canonical
      tracker. */
  lemma {:induction false} ReplaceLoopSpec(o: State, s: string, i: nat, sb: string)
    requires !o.mode.Unsupported? && Issued(o) && Canonical(o.tracker.mapping, FastKey) && i <= |s|
    ensures LoopMeets(o, s, i, sb)
    decreases |s| - i
  {
    if i < |s| {
      var f := FindNextIPv4(s, i);
      if f.ip != [] {
        MatchStepSafe(o, s, i);
        var p := MatchStep(o, s, f).value;
        ReplaceLoopSpec(p.state, s, f.end, sb + s[i..f.start] + p.value);
        LoopMeetsAtMatch(o, s, i, sb);
      } else {
        ReplaceLoopSpec(o, s, i + 1, sb + [s[i]]);
        LoopMeetsAtByte(o, s, i, sb);
      }
    } else {
      assert Spans(s, i) == [];
      assert sb + Obfuscated([], o.tracker.mapping) == sb;
    }
  }

  /** The step of `ReplaceLoopSpec` at an address. */
  lemma LoopMeetsAtMatch(o: State, s: string, i: nat, sb: string)
    requires !o.mode.Unsupported? && i < |s| && FindNextIPv4(s, i).ip != []
    requires MatchStep(o, s, FindNextIPv4(s, i)).Ok?
    requires var f := FindNextIPv4(s, i);
             var p := MatchStep(o, s, f).value;
             LoopMeets(p.state, s, f.end, sb + s[i..f.start] + p.value)
    ensures LoopMeets(o, s, i, sb)
  {
    var f := FindNextIPv4(s, i);
    var p := MatchStep(o, s, f).value;
    var sb' := sb + s[i..f.start] + p.value;
    LoopAtMatch(o, s, i, sb);
    var m := ReplaceLoop(p.state, s, f.end, f.end, sb').value.state.tracker.mapping;
    var lit := s[f.start..f.end];
    MatchIsLiteral(s, i);
    assert lit in m && m[lit] == p.value && m[f.ip] == p.value;
    SpansAtMatch(s, i);
    MatchOutput(s[i..f.start], lit, Spans(s, f.end), m, sb);
    MatchRecorded(s[i..f.start], lit, Spans(s, f.end), m);
  }

  /** The step of `ReplaceLoopSpec` at a byte outside an address. */
  lemma LoopMeetsAtByte(o: State, s: string, i: nat, sb: string)
    requires !o.mode.Unsupported? && i < |s| && FindNextIPv4(s, i).ip == []
    requires LoopMeets(o, s, i + 1, sb + [s[i]])
    ensures LoopMeets(o, s, i, sb)
  {
    var r := ReplaceLoop(o, s, i + 1, i + 1, sb + [s[i]]).value;
    var m := r.state.tracker.mapping;
    LoopAtByte(o, s, i, sb);
    SpansAtByte(s, i);
    ByteOutput(s[i], Spans(s, i + 1), m, sb);
    RecordedCons(Copy([s[i]]), Spans(s, i + 1), m);
  }

  /** A copied byte, then what follows, is the obfuscation of the pieces from the byte on. */
  lemma ByteOutput(c: char, rest: seq<Piece>, m: Mapping, sb: string)
    ensures sb + [c] + Obfuscated(rest, m) == sb + Obfuscated([Copy([c])] + rest, m)
  {
    ObfuscatedCons(Copy([c]), rest, m);
  }

  /** The corrected loop at a position where the scan finds an address. */
  lemma LoopAtMatch(o: State, s: string, i: nat, sb: string)
    requires !o.mode.Unsupported? && i < |s| && FindNextIPv4(s, i).ip != []
    requires MatchStep(o, s, FindNextIPv4(s, i)).Ok?
    ensures var f := FindNextIPv4(s, i);
            var p := MatchStep(o, s, f).value;
            ReplaceLoop(o, s, i, i, sb) == ReplaceLoop(p.state, s, f.end, f.end, sb + s[i..f.start] + p.value)
  {
  }

  /** At a match, the text before it, then its replacement, then what follows, is the
      obfuscation of the pieces from the match's position. */
  lemma MatchOutput(pre: string, lit: string, rest: seq<Piece>, m: Mapping, sb: string)
    requires lit in m
    ensures sb + pre + m[lit] + Obfuscated(rest, m) == sb + Obfuscated([Copy(pre)] + ([Swap(lit)] + rest), m)
  {
    ObfuscatedCons(Copy(pre), [Swap(lit)] + rest, m);
    ObfuscatedCons(Swap(lit), rest, m);
  }

  lemma MatchRecorded(pre: string, lit: string, rest: seq<Piece>, m: Mapping)
    requires RecordedPiece(Swap(lit), m) && Recorded(rest, m)
    ensures Recorded([Copy(pre)] + ([Swap(lit)] + rest), m)
  {
    RecordedCons(Swap(lit), rest, m);
    RecordedCons(Copy(pre), [Swap(lit)] + rest, m);
  }

  /** Every value an IPv4 obfuscator hands out is non-empty: the placeholder, or a value with
      the template's prefix and suffix around the counter. */
  lemma IssuedNonEmpty(o: State)
    requires !o.mode.Unsupported? && Issued(o) && o.generator.template == Ipv4Template
    ensures forall k :: k in o.tracker.mapping ==> |o.tracker.mapping[k]| > 0
  {
    forall k | k in o.tracker.mapping ensures |o.tracker.mapping[k]| > 0 {
      if o.mode.Consistent? {
        var c: nat :| c < o.generator.next && CounterOf(Ipv4Template, o.tracker.mapping[k]) == Some(c);
      }
    }
  }

  /** Non-empty text with non-empty replacements never obfuscates to nothing. */
  lemma ObfuscatedNonEmpty(s: string, m: Mapping)
    requires 0 < |s| && Recorded(Spans(s, 0), m)
    requires forall k :: k in m ==> |m[k]| > 0
    ensures |Obfuscated(Spans(s, 0), m)| > 0
  {
    var f := FindNextIPv4(s, 0);
    if f.ip != [] {
      var lit := s[f.start..f.end];
      SpansAtMatch(s, 0);
      assert Spans(s, 0)[1] == Swap(lit);
      assert RecordedPiece(Swap(lit), m);
      MatchOutput(s[0..f.start], lit, Spans(s, f.end), m, "");
    } else {
      SpansAtByte(s, 0);
      ObfuscatedCons(Copy([s[0]]), Spans(s, 1), m);
    }
  }

  /** `Replace`'s promise: the output is the input with some address spellings swapped for
      their replacements, every other byte kept in place, each swapped spelling reported under
      the same replacement as its dotted form; and the process never exits. Only empty text
      gives empty output, so the fallback to the input never changes the result. */
  lemma ReplaceSpec(o: State, s: string)
    requires !o.mode.Unsupported? && Issued(o) && Canonical(o.tracker.mapping, FastKey)
    requires o.generator.template == Ipv4Template
    ensures var r := Replace(o, s);
            && r.Ok?
            && Issued(r.value.state) && Canonical(r.value.state.tracker.mapping, FastKey)
            && Original(Spans(s, 0)) == s
            && r.value.output == Obfuscated(Spans(s, 0), r.value.state.tracker.mapping)
            && Recorded(Spans(s, 0), r.value.state.tracker.mapping)
            && (|r.value.output| == 0 <==> |s| == 0)
  {
    ReplaceLoopSpec(o, s, 0, "");
    assert LoopMeets(o, s, 0, "");
    SpansOriginal(s, 0);
    var st := ReplaceLoop(o, s, 0, 0, "").value;
    var m := st.state.tracker.mapping;
    assert st.output == Obfuscated(Spans(s, 0), m);
    if |s| > 0 {
      IssuedNonEmpty(st.state);
      ObfuscatedNonEmpty(s, m);
    } else {
      assert Spans(s, 0) == [];
    }
  }

  /** When the scan finds an address, the output starts with the text before it, then the
      replacement its dotted form is given on this call, which the spelling is reported
      under as well. */
  lemma ReplaceFirstMatch(o: State, s: string)
    requires !o.mode.Unsupported? && Issued(o) && Canonical(o.tracker.mapping, FastKey)
    requires o.generator.template == Ipv4Template
    requires FindNextIPv4(s, 0).ip != []
    ensures var f := FindNextIPv4(s, 0);
            var r := Replace(o, s);
            && r.Ok?
            && var m := r.value.state.tracker.mapping;
               && f.ip in m && s[f.start..f.end] in m && m[s[f.start..f.end]] == m[f.ip]
               && m[f.ip] == Replacement(o, f.ip).value
               && r.value.output == s[..f.start] + m[f.ip] + Obfuscated(Spans(s, f.end), m)
  {
    var f := FindNextIPv4(s, 0);
    var lit := s[f.start..f.end];
    ReplaceSpec(o, s);
    FirstMatchValue(o, s);
    var m := Replace(o, s).value.state.tracker.mapping;
    SpansAtMatch(s, 0);
    assert Spans(s, 0)[1] == Swap(lit);
    assert RecordedPiece(Swap(lit), m);
    MatchIsLiteral(s, 0);
    MatchOutput(s[0..f.start], lit, Spans(s, f.end), m, "");
    assert "" + s[0..f.start] == s[..f.start];
  }

  /** The value the first address gets is the one `Replacement` picks for its dotted form. */
  lemma FirstMatchValue(o: State, s: string)
    requires !o.mode.Unsupported? && Issued(o) && Canonical(o.tracker.mapping, FastKey)
    requires o.generator.template == Ipv4Template
    requires FindNextIPv4(s, 0).ip != []
    ensures var f := FindNextIPv4(s, 0);
            var r := ReplaceLoop(o, s, 0, 0, "");
            && r.Ok?
            && f.ip in r.value.state.tracker.mapping
            && r.value.state.tracker.mapping[f.ip] == Replacement(o, f.ip).value
  {
    var f := FindNextIPv4(s, 0);
    MatchStepSafe(o, s, 0);
    var p := MatchStep(o, s, f).value;
    MatchStepValue(o, s, f);
    LoopAtMatch(o, s, 0, "");
    var sb := "" + s[0..f.start] + p.value;
    LoopOk(p.state, s, f.end, sb);
    var r := ReplaceLoop(p.state, s, f.end, f.end, sb);
    assert Extends(p.state.tracker.mapping, r.value.state.tracker.mapping);
  }

  /** The corrected loop never exits the process, given an issued, canonical tracker. */
  lemma LoopOk(o: State, s: string, i: nat, sb: string)
    requires !o.mode.Unsupported? && Issued(o) && Canonical(o.tracker.mapping, FastKey) && i <= |s|
    ensures ReplaceLoop(o, s, i, i, sb).Ok?
  {
    ReplaceLoopSpec(o, s, i, sb);
  }

  // ---------------------------------------------------------------------------------------
  // The loop as written makes the corrected loop's reports

  /** The two loops visit the same positions and find the same addresses, so they make the
      same reports: both exit or neither does, and they leave the same obfuscator behind,
      whatever their builders hold. */
  lemma {:induction false} AsWrittenSameState(o: State, s: string, i: nat, lastWrite: nat, sb: string, sb': string)
    requires !o.mode.Unsupported? && IsByteString(s) && lastWrite <= i <= |s|
    ensures var a := ReplaceLoopAsWritten(o, s, i, lastWrite, sb);
            var c := ReplaceLoop(o, s, i, i, sb');
            a.Ok? == c.Ok? && (a.Ok? ==> a.value.state == c.value.state)
    decreases |s| - i
  {
    if i < |s| {
      var f := FindNextIPv4(s, i);
      if f.ip != [] {
        match MatchStep(o, s, f)
        case Fatal(_) =>
        case Ok(p) =>
          AsWrittenSameState(p.state, s, f.end, f.end, sb + s[lastWrite..f.start] + p.value, sb' + s[i..f.start] + p.value);
      } else {
        AsWrittenSameState(o, s, i + 1, i, sb + ByteToString(s[i]), sb' + [s[i]]);
      }
    }
  }

  /** A prefix of a prefix. */
  lemma PrefixOfAppended(out: string, sb: string, x: string)
    requires |sb + x| <= |out| && out[..|sb + x|] == sb + x
    ensures |sb| <= |out| && out[..|sb|] == sb
  {
    assert out[..|sb|] == out[..|sb + x|][..|sb|];
  }

  /** The loop as written only appends to its builder. */
  lemma {:induction false} AsWrittenKeepsBuilder(o: State, s: string, i: nat, lastWrite: nat, sb: string)
    requires !o.mode.Unsupported? && IsByteString(s) && lastWrite <= i <= |s|
    ensures var a := ReplaceLoopAsWritten(o, s, i, lastWrite, sb);
            a.Ok? ==> |sb| <= |a.value.output| && a.value.output[..|sb|] == sb
    decreases |s| - i
  {
    if i < |s| {
      var f := FindNextIPv4(s, i);
      if f.ip != [] {
        if MatchStep(o, s, f).Ok? {
          var p := MatchStep(o, s, f).value;
          var x := s[lastWrite..f.start] + p.value;
          AsWrittenAtMatch(o, s, i, lastWrite, sb);
          assert sb + s[lastWrite..f.start] + p.value == sb + x;
          AsWrittenKeepsBuilder(p.state, s, f.end, f.end, sb + x);
          var a := ReplaceLoopAsWritten(p.state, s, f.end, f.end, sb + x);
          if a.Ok? {
            PrefixOfAppended(a.value.output, sb, x);
          }
        }
      } else {
        var x := ByteToString(s[i]);
        AsWrittenAtByte(o, s, i, lastWrite, sb);
        AsWrittenKeepsBuilder(o, s, i + 1, i, sb + x);
        var a := ReplaceLoopAsWritten(o, s, i + 1, i, sb + x);
        if a.Ok? {
          PrefixOfAppended(a.value.output, sb, x);
        }
      }
    }
  }

  /** On non-empty text the loop as written writes something in its first turn: a byte's
      encoding, or the text before the first address and its non-empty replacement. */
  lemma AsWrittenBuilderNonEmpty(o: State, s: string)
    requires !o.mode.Unsupported? && IsByteString(s) && 0 < |s|
    requires Issued(o) && Canonical(o.tracker.mapping, FastKey) && o.generator.template == Ipv4Template
    ensures var a := ReplaceLoopAsWritten(o, s, 0, 0, "");
            a.Ok? ==> 0 < |a.value.output|
  {
    var f := FindNextIPv4(s, 0);
    if f.ip != [] {
      MatchStepSafe(o, s, 0);
      var p := MatchStep(o, s, f).value;
      IssuedNonEmpty(p.state);
      assert |p.value| > 0;
      AsWrittenAtMatch(o, s, 0, 0, "");
      AsWrittenKeepsBuilder(p.state, s, f.end, f.end, "" + s[0..f.start] + p.value);
    } else {
      AsWrittenAtByte(o, s, 0, 0, "");
      AsWrittenKeepsBuilder(o, s, 1, 0, "" + ByteToString(s[0]));
    }
  }

  /** `replace` as written, which `Contents` and `Path` run, makes the reports of the corrected
      loop: it never exits, leaves the same obfuscator as `Replace`, keeps the tracker canonical
      and holding only issued values, and records every address spelling the scan finds under
      its dotted form's replacement. Its builder is empty only for empty text, so the fallback
      to the input never changes the result. */
  lemma ReplaceAsWrittenSpec(o: State, s: string)
    requires !o.mode.Unsupported? && IsByteString(s) && Issued(o) && Canonical(o.tracker.mapping, FastKey)
    requires o.generator.template == Ipv4Template
    ensures var r := ReplaceAsWritten(o, s);
            var b := ReplaceLoopAsWritten(o, s, 0, 0, "");
            && r.Ok? && b.Ok?
            && (|b.value.output| == 0 <==> |s| == 0)
            && r == b
            && Replace(o, s).Ok? && r.value.state == Replace(o, s).value.state
            && Issued(r.value.state) && Canonical(r.value.state.tracker.mapping, FastKey)
            && Recorded(Spans(s, 0), r.value.state.tracker.mapping)
  {
    AsWrittenSameState(o, s, 0, 0, "", "");
    ReplaceLoopSpec(o, s, 0, "");
    assert LoopMeets(o, s, 0, "");
    if |s| > 0 {
      AsWrittenBuilderNonEmpty(o, s);
    }
  }

  /** The output of `replace` as written starts with the text before the first address and
      that address's replacement. */
  lemma AsWrittenFirstOutput(o: State, s: string)
    requires !o.mode.Unsupported? && IsByteString(s) && 0 < |s| && FindNextIPv4(s, 0).ip != []
    requires MatchStep(o, s, FindNextIPv4(s, 0)).Ok?
    ensures var f := FindNextIPv4(s, 0);
            var a := ReplaceLoopAsWritten(o, s, 0, 0, "");
            var v := MatchStep(o, s, f).value.value;
            a.Ok? ==> f.start + |v| <= |a.value.output| && a.value.output[..f.start + |v|] == s[..f.start] + v
  {
    var f := FindNextIPv4(s, 0);
    var p := MatchStep(o, s, f).value;
    var sb := "" + s[..f.start] + p.value;
    assert ReplaceLoopAsWritten(o, s, 0, 0, "") == ReplaceLoopAsWritten(p.state, s, f.end, f.end, sb) by {
      assert s[0..f.start] == s[..f.start];
      AsWrittenAtMatch(o, s, 0, 0, "");
    }
    AsWrittenKeepsBuilder(p.state, s, f.end, f.end, sb);
    BuilderStartsWith(ReplaceLoopAsWritten(o, s, 0, 0, ""), s[..f.start], p.value, sb);
  }

  /** A builder that starts with `pre + v`, restated with the length split. */
  lemma BuilderStartsWith(a: Fallible<Step>, pre: string, v: string, sb: string)
    requires sb == "" + pre + v
    requires a.Ok? ==> |sb| <= |a.value.output| && a.value.output[..|sb|] == sb
    ensures a.Ok? ==> |pre| + |v| <= |a.value.output| && a.value.output[..|pre| + |v|] == pre + v
  {
  }

  /** `replace` as written at its first address: the output starts with the text before it and
      then the replacement its dotted form is given on this call, the value the spelling is
      reported under as well. */
  lemma AsWrittenFirstMatch(o: State, s: string)
    requires !o.mode.Unsupported? && IsByteString(s) && Issued(o) && Canonical(o.tracker.mapping, FastKey)
    requires o.generator.template == Ipv4Template
    requires FindNextIPv4(s, 0).ip != []
    ensures var f := FindNextIPv4(s, 0);
            var r := ReplaceAsWritten(o, s);
            && r.Ok?
            && var m := r.value.state.tracker.mapping;
               && f.ip in m && s[f.start..f.end] in m && m[s[f.start..f.end]] == m[f.ip]
               && m[f.ip] == Replacement(o, f.ip).value
               && f.start + |m[f.ip]| <= |r.value.output|
               && r.value.output[..f.start + |m[f.ip]|] == s[..f.start] + m[f.ip]
  {
    var f := FindNextIPv4(s, 0);
    var r := ReplaceAsWritten(o, s);
    var v := Replacement(o, f.ip).value;
    AsWrittenFirstReports(o, s);
    assert r == ReplaceLoopAsWritten(o, s, 0, 0, "") by {
      ReplaceAsWrittenSpec(o, s);
    }
    assert MatchStep(o, s, f).Ok? && MatchStep(o, s, f).value.value == v by {
      MatchStepSafe(o, s, 0);
      MatchStepValue(o, s, f);
    }
    AsWrittenFirstOutput(o, s);
  }

  /** The reports half of `AsWrittenFirstMatch`, read off the corrected loop's. */
  lemma AsWrittenFirstReports(o: State, s: string)
    requires !o.mode.Unsupported? && IsByteString(s) && Issued(o) && Canonical(o.tracker.mapping, FastKey)
    requires o.generator.template == Ipv4Template
    requires FindNextIPv4(s, 0).ip != []
    ensures var f := FindNextIPv4(s, 0);
            var r := ReplaceAsWritten(o, s);
            && r.Ok?
            && var m := r.value.state.tracker.mapping;
               && f.ip in m && s[f.start..f.end] in m && m[s[f.start..f.end]] == m[f.ip]
               && m[f.ip] == Replacement(o, f.ip).value
  {
    ReplaceAsWrittenSpec(o, s);
    ReplaceFirstMatch(o, s);
  }

  // ---------------------------------------------------------------------------------------
  // Where the loop as written and the loop as intended part

  /** When no scan from `i` on finds an address, the loop as written emits every remaining
      byte through Go's `string(byte)` conversion. */
  lemma {:induction false} AsWrittenPlain(o: State, s: string, i: nat, lastWrite: nat, sb: string)
    requires !o.mode.Unsupported? && IsByteString(s) && lastWrite <= i <= |s|
    requires forall j :: i <= j < |s| ==> FindNextIPv4(s, j).ip == []
    ensures IsByteString(s[i..])
    ensures ReplaceLoopAsWritten(o, s, i, lastWrite, sb) == Ok(Step(sb + Transcode(s[i..]), o))
    decreases |s| - i
  {
    if i < |s| {
      assert FindNextIPv4(s, i).ip == [];
      AsWrittenPlain(o, s, i + 1, i, sb + ByteToString(s[i]));
      assert s[i..] == [s[i]] + s[i + 1..];
      TranscodeCons(s[i], s[i + 1..]);
      assert sb + ByteToString(s[i]) + Transcode(s[i + 1..]) == sb + Transcode(s[i..]);
    } else {
      assert s[i..] == [];
      assert sb + Transcode(s[i..]) == sb;
    }
  }

  /** ... while the corrected loop copies the remaining text unchanged. */
  lemma {:induction false} LoopPlain(o: State, s: string, i: nat, sb: string)
    requires !o.mode.Unsupported? && i <= |s|
    requires forall j :: i <= j < |s| ==> FindNextIPv4(s, j).ip == []
    ensures ReplaceLoop(o, s, i, i, sb) == Ok(Step(sb + s[i..], o))
    decreases |s| - i
  {
    if i < |s| {
      assert FindNextIPv4(s, i).ip == [];
      LoopPlain(o, s, i + 1, sb + [s[i]]);
      assert sb + [s[i]] + s[i + 1..] == sb + s[i..];
    } else {
      assert sb + s[i..] == sb;
    }
  }

  /** The as-written `replace` on text holding no address: the builder gets the re-encoded
      text, which is empty only for empty text, so it is what comes back. */
  lemma AsWrittenPlainReplace(o: State, s: string)
    requires !o.mode.Unsupported? && IsByteString(s)
    requires forall j :: 0 <= j < |s| ==> FindNextIPv4(s, j).ip == []
    ensures ReplaceAsWritten(o, s) == Ok(Step(Transcode(s), o))
  {
    AsWrittenPlain(o, s, 0, 0, "");
    assert s[0..] == s;
    assert "" + Transcode(s) == Transcode(s);
    TranscodeLength(s);
  }

  lemma PlainReplace(o: State, s: string)
    requires !o.mode.Unsupported?
    requires forall j :: 0 <= j < |s| ==> FindNextIPv4(s, j).ip == []
    ensures Replace(o, s) == Ok(Step(s, o))
  {
    LoopPlain(o, s, 0, "");
    assert "" + s[0..] == s;
  }

  /** Text without a '1'..'9' holds no address: the corrected `replace` returns it unchanged
      and records nothing, and `replace` as written returns it re-encoded byte by byte. */
  lemma NoCandidateReplace(o: State, s: string)
    requires !o.mode.Unsupported? && IsByteString(s)
    requires forall j :: 0 <= j < |s| ==> !Candidate(s[j])
    ensures Replace(o, s) == Ok(Step(s, o))
    ensures ReplaceAsWritten(o, s) == Ok(Step(Transcode(s), o))
  {
    NoCandidateNowhere(s);
    PlainReplace(o, s);
    AsWrittenReencodes(o, s);
  }

  /** On text in which no scan finds an address, `replace` as written returns the text
      re-encoded byte by byte, which is the text itself exactly when it is ASCII: a byte from
      0x80 up (the first byte of a UTF-8 character such as "é") comes out as two bytes. The
      corrected `Replace` returns the text unchanged and records nothing. */
  lemma AsWrittenReencodes(o: State, s: string)
    requires !o.mode.Unsupported? && IsByteString(s)
    requires forall j :: 0 <= j < |s| ==> FindNextIPv4(s, j).ip == []
    ensures ReplaceAsWritten(o, s) == Ok(Step(Transcode(s), o))
    ensures Transcode(s) == s <==> IsAscii(s)
    ensures Replace(o, s) == Ok(Step(s, o))
  {
    AsWrittenPlainReplace(o, s);
    PlainReplace(o, s);
    if IsAscii(s) {
      TranscodeAscii(s);
    } else {
      var j :| 0 <= j < |s| && s[j] as int >= 0x80;
      TranscodeGrows(s, j);
    }
  }

  /** A single digit followed by a non-digit is a complete octet. */
  lemma OneDigitOctet(s: string, at: nat)
    requires at < |s| && IsDigit(s[at]) && Maximal(s, at + 1)
    ensures ParseOctet(s, at) == Octet(DigitValue(s[at]), at + 1, true)
  {
    var d := DigitValue(s[at]);
    assert ParseOctetLoop(s, at, at + 1, d) == Octet(d, at + 1, true);
    assert ParseOctetLoop(s, at, at, 0) == ParseOctetLoop(s, at, at + 1, d);
  }

  /** `s` spells "1-2.3.4.5", stated character by character. */
  predicate DashedText(s: string) {
    && |s| == 9
    && s[0] == '1' && s[1] == '-' && s[2] == '2' && s[3] == '.' && s[4] == '3'
    && s[5] == '.' && s[6] == '4' && s[7] == '.' && s[8] == '5'
  }

  /** From 0 the scanner rejects "1-2" at the '.' and then "3.4.5" for want of a fourth
      octet, and reports nothing. */
  lemma DashedScanFromZero(s: string)
    requires DashedText(s)
    ensures FindNextIPv4(s, 0).ip == []
  {
    OneDigitOctet(s, 0);
    OneDigitOctet(s, 2);
    assert TryParseIPv4(s, 0) == TryParseRest(s, 1, 1, NoSep, [1]);
    TryParseStep(s, 1, 1, NoSep, [1]);
    assert TryParseRest(s, 3, 2, '-', [1] + [2]) == Parsed(None, 3);
    assert FindLoop(s, 0) == FindLoop(s, 4);
    OneDigitOctet(s, 4);
    OneDigitOctet(s, 6);
    OneDigitOctet(s, 8);
    assert TryParseIPv4(s, 4) == TryParseRest(s, 5, 1, NoSep, [3]);
    TryParseStep(s, 5, 1, NoSep, [3]);
    TryParseStep(s, 7, 2, '.', [3] + [4]);
    assert TryParseRest(s, 9, 3, '.', [3] + [4] + [5]) == Parsed(None, 9);
    assert FindLoop(s, 4) == FindLoop(s, 10);
  }

  /** From 1 the scanner finds "2.3.4.5" at 2..9. */
  lemma DashedScanFromOne(s: string)
    requires DashedText(s)
    ensures var f := FindNextIPv4(s, 1); f.ip == "2.3.4.5" && f.start == 2 && f.end == 9
  {
    OneDigitOctet(s, 2);
    OneDigitOctet(s, 4);
    OneDigitOctet(s, 6);
    OneDigitOctet(s, 8);
    assert TryParseIPv4(s, 2) == TryParseRest(s, 3, 1, NoSep, [2]);
    TryParseStep(s, 3, 1, NoSep, [2]);
    TryParseStep(s, 5, 2, '.', [2] + [3]);
    TryParseStep(s, 7, 3, '.', [2] + [3] + [4]);
    assert [2] + [3] + [4] + [5] == [2, 3, 4, 5];
    assert TryParseIPv4(s, 2) == Parsed(Some([2, 3, 4, 5]), 9);
    assert FindLoop(s, 1) == FindLoop(s, 2);
    assert Decimal(2) == "2" && Decimal(3) == "3" && Decimal(4) == "4" && Decimal(5) == "5";
  }

  lemma DashedBytes(s: string)
    requires DashedText(s)
    ensures IsByteString(s) && ByteToString(s[0]) == [s[0]]
  {
  }

  /** The loop as written at a byte outside an address. */
  lemma AsWrittenAtByte(o: State, s: string, i: nat, lastWrite: nat, sb: string)
    requires !o.mode.Unsupported? && IsByteString(s) && lastWrite <= i < |s|
    requires FindNextIPv4(s, i).ip == []
    ensures ReplaceLoopAsWritten(o, s, i, lastWrite, sb) == ReplaceLoopAsWritten(o, s, i + 1, i, sb + ByteToString(s[i]))
  {
  }

  /** The loop as written at an address, with `lastWrite` wherever it was left. */
  lemma AsWrittenAtMatch(o: State, s: string, i: nat, lastWrite: nat, sb: string)
    requires !o.mode.Unsupported? && IsByteString(s) && lastWrite <= i < |s|
    requires FindNextIPv4(s, i).ip != [] && MatchStep(o, s, FindNextIPv4(s, i)).Ok?
    ensures var f := FindNextIPv4(s, i);
            var p := MatchStep(o, s, f).value;
            ReplaceLoopAsWritten(o, s, i, lastWrite, sb)
            == ReplaceLoopAsWritten(p.state, s, f.end, f.end, sb + s[lastWrite..f.start] + p.value)
  {
  }

  /** The corrected loop at a byte outside an address. */
  lemma LoopAtByte(o: State, s: string, i: nat, sb: string)
    requires !o.mode.Unsupported? && i < |s| && FindNextIPv4(s, i).ip == []
    ensures ReplaceLoop(o, s, i, i, sb) == ReplaceLoop(o, s, i + 1, i + 1, sb + [s[i]])
  {
  }

  /** Both loops at the end of the text hand back the builder. */
  lemma LoopsAtEnd(o: State, s: string, sb: string)
    requires !o.mode.Unsupported? && IsByteString(s)
    ensures ReplaceLoopAsWritten(o, s, |s|, |s|, sb) == Ok(Step(sb, o))
    ensures ReplaceLoop(o, s, |s|, |s|, sb) == Ok(Step(sb, o))
  {
  }

  /** What a match step hands out is the replacement chosen for the dotted address. */
  lemma MatchStepValue(o: State, s: string, f: Found)
    requires !o.mode.Unsupported? && f.start <= f.end <= |s| && MatchStep(o, s, f).Ok?
    ensures MatchStep(o, s, f).value.value == Replacement(o, f.ip).value
  {
  }

  /** A byte outside an address followed by an address found from the next index: the loop
      as written emits the byte, then emits it again with the text in front of the address,
      because `lastWrite` was left on it; the corrected loop emits it once. */
  lemma AsWrittenRepeatsByte(o: State, s: string, i: nat, lastWrite: nat, sb: string)
    requires !o.mode.Unsupported? && IsByteString(s) && lastWrite <= i && i + 1 < |s|
    requires FindNextIPv4(s, i).ip == [] && FindNextIPv4(s, i + 1).ip != []
    requires MatchStep(o, s, FindNextIPv4(s, i + 1)).Ok?
    ensures var f := FindNextIPv4(s, i + 1);
            var p := MatchStep(o, s, f).value;
            && ReplaceLoopAsWritten(o, s, i, lastWrite, sb)
               == ReplaceLoopAsWritten(p.state, s, f.end, f.end, sb + ByteToString(s[i]) + s[i..f.start] + p.value)
            && ReplaceLoop(o, s, i, i, sb)
               == ReplaceLoop(p.state, s, f.end, f.end, sb + [s[i]] + s[i + 1..f.start] + p.value)
  {
    AsWrittenAtByte(o, s, i, lastWrite, sb);
    AsWrittenAtMatch(o, s, i + 1, i, sb + ByteToString(s[i]));
    LoopAtByte(o, s, i, sb);
    LoopAtMatch(o, s, i + 1, sb + [s[i]]);
  }

  /** Both loops on "1-2.3.4.5". */
  lemma DashedLoops(o: State, s: string)
    requires DashedText(s) && IsByteString(s) && !o.mode.Unsupported?
    requires FindNextIPv4(s, 0).ip == [] && FindNextIPv4(s, 1).ip != [] && FindNextIPv4(s, 1).start == 2
    requires FindNextIPv4(s, 1).end == 9 && MatchStep(o, s, FindNextIPv4(s, 1)).Ok?
    ensures var p := MatchStep(o, s, FindNextIPv4(s, 1)).value;
            && ReplaceLoopAsWritten(o, s, 0, 0, "") == Ok(Step([s[0], s[0], s[1]] + p.value, p.state))
            && ReplaceLoop(o, s, 0, 0, "") == Ok(Step([s[0], s[1]] + p.value, p.state))
  {
    DashedAsWritten(o, s);
    DashedCorrected(o, s);
  }

  lemma DashedAsWritten(o: State, s: string)
    requires DashedText(s) && IsByteString(s) && !o.mode.Unsupported?
    requires FindNextIPv4(s, 0).ip == [] && FindNextIPv4(s, 1).ip != [] && FindNextIPv4(s, 1).start == 2
    requires FindNextIPv4(s, 1).end == 9 && MatchStep(o, s, FindNextIPv4(s, 1)).Ok?
    ensures var p := MatchStep(o, s, FindNextIPv4(s, 1)).value;
            ReplaceLoopAsWritten(o, s, 0, 0, "") == Ok(Step([s[0], s[0], s[1]] + p.value, p.state))
  {
    AsWrittenAtByte(o, s, 0, 0, "");
    AsWrittenAtMatch(o, s, 1, 0, ByteToString(s[0]));
    DashedPrefixes(s);
    DashedAsWrittenEnd(o, s);
  }

  lemma DashedCorrected(o: State, s: string)
    requires DashedText(s) && !o.mode.Unsupported?
    requires FindNextIPv4(s, 0).ip == [] && FindNextIPv4(s, 1).ip != [] && FindNextIPv4(s, 1).start == 2
    requires FindNextIPv4(s, 1).end == 9 && MatchStep(o, s, FindNextIPv4(s, 1)).Ok?
    ensures var p := MatchStep(o, s, FindNextIPv4(s, 1)).value;
            ReplaceLoop(o, s, 0, 0, "") == Ok(Step([s[0], s[1]] + p.value, p.state))
  {
    LoopAtByte(o, s, 0, "");
    LoopAtMatch(o, s, 1, "" + [s[0]]);
    DashedPrefixes(s);
    DashedCorrectedEnd(o, s);
  }

  lemma DashedAsWrittenEnd(o: State, s: string)
    requires DashedText(s) && IsByteString(s) && !o.mode.Unsupported?
    requires FindNextIPv4(s, 1).ip != [] && FindNextIPv4(s, 1).end == 9 && MatchStep(o, s, FindNextIPv4(s, 1)).Ok?
    ensures var p := MatchStep(o, s, FindNextIPv4(s, 1)).value;
            ReplaceLoopAsWritten(p.state, s, 9, 9, [s[0], s[0], s[1]] + p.value)
            == Ok(Step([s[0], s[0], s[1]] + p.value, p.state))
  {
  }

  lemma DashedCorrectedEnd(o: State, s: string)
    requires DashedText(s) && !o.mode.Unsupported?
    requires FindNextIPv4(s, 1).ip != [] && FindNextIPv4(s, 1).end == 9 && MatchStep(o, s, FindNextIPv4(s, 1)).Ok?
    ensures var p := MatchStep(o, s, FindNextIPv4(s, 1)).value;
            ReplaceLoop(p.state, s, 9, 9, [s[0], s[1]] + p.value) == Ok(Step([s[0], s[1]] + p.value, p.state))
  {
  }

  lemma DashedPrefixes(s: string)
    requires 2 <= |s| && s[0] == '1'
    ensures ByteToString(s[0]) == [s[0]]
    ensures "" + ByteToString(s[0]) + s[0..2] == [s[0], s[0], s[1]]
    ensures "" + [s[0]] + s[1..2] == [s[0], s[1]]
  {
  }

  /** On "1-2.3.4.5" the loop as written writes the leading "1" twice: the byte goes to the
      builder with `lastWriteIndex` left on it, and the match found from the next index copies
      from `lastWriteIndex` again. The corrected loop keeps the text in front of the address
      as it is. Both report "2.3.4.5" under one replacement. */
  lemma AsWrittenDuplicates(o: State, s: string)
    requires s == "1-2.3.4.5"
    requires !o.mode.Unsupported? && Issued(o) && Canonical(o.tracker.mapping, FastKey)
    ensures IsByteString(s) && FindNextIPv4(s, 1).ip == "2.3.4.5"
    ensures var m := MatchStep(o, s, FindNextIPv4(s, 1));
            && m.Ok? && m.value.value == Replacement(o, "2.3.4.5").value
            && ReplaceAsWritten(o, s) == Ok(Step("11-" + m.value.value, m.value.state))
            && Replace(o, s) == Ok(Step("1-" + m.value.value, m.value.state))
  {
    assert DashedText(s);
    DashedBytes(s);
    DashedScanFromZero(s);
    DashedScanFromOne(s);
    MatchStepSafe(o, s, 1);
    MatchStepValue(o, s, FindNextIPv4(s, 1));
    DashedLoops(o, s);
    assert [s[0], s[0], s[1]] == "11-" && [s[0], s[1]] == "1-";
  }
}
