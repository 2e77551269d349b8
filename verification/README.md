# Address obfuscators and replacement trackers

This project models the part of `must-gather-clean` that finds IP and MAC
addresses in text and swaps them for replacements. It covers:

- the hand-written IPv4 scanner of package `match` (`FindNextIPv4`, `tryParseIPv4`,
  `parseOctet`);
- the scanner-based IPv4 obfuscator (`fastIpv4Obfuscator.replace`);
- the regular-expression IPv4, IPv6 and MAC address obfuscators;
- the replacement trackers that record which original was replaced by what: the single-map
  `SimpleTracker` and the sharded `StripedTracker`.

Go strings are Dafny strings whose characters are bytes. `klog.Exitf`, which ends the
process, is the `Fatal` case of `Wrappers.Fallible`. A tracker is a value: every operation
returns the tracker it leaves behind. The matches a regular expression finds and the
verdict of `net.ParseIP` are inputs to the model.

The main results:

- **The address parser is sound and complete.** `tryParseIPv4` accepts exactly four octets
  below 255 joined by one kind of separator (`.` or `-`) that end a digit run
  (`Ipv4Matcher.TryParseSound`, `Ipv4Matcher.TryParseComplete`). The scan in `FindNextIPv4`
  reports the first candidate that parses when no failed candidate lies before it
  (`Ipv4Matcher.FindNextFirstCandidate`). It can skip an address that starts inside a failed
  candidate: "1-2.3.4.5" gives nothing from index 0 (`FastIpv4.DashedScanFromZero`). It reads every rendered address back
  (`Ipv4Matcher.RenderRoundTrip`). It reports the test table's answers (the
  `Ipv4MatcherExamples` lemmas).
- **The corrected scanner loop keeps the text.** Cut into pieces and put back together, the
  input is unchanged. The output is those pieces with each address spelling swapped for the
  replacement of its dotted form. The process never exits (`FastIpv4.ReplaceSpec`).
- **The loop as written makes the same reports.** It never exits and leaves the tracker the
  corrected loop leaves, with every spelling recorded under its dotted form's value
  (`FastIpv4.ReplaceAsWrittenSpec`).
- **The loop as written has two faults**, both under "## Findings": it duplicates a byte in
  front of an address, and it re-encodes bytes above 0x7F.
- **The regular-expression obfuscators never exit.** Every spelling of an address shares one
  replacement with its canonical key. Consistent values are never reused.
- **The striped tracker refines the single-map tracker.** Its report is the union of its
  shards (`StripedTracker.*Refines`).

## Model

| member | source | states |
|---|---|---|
| Tracker.Record | pkg/obfuscator/tracker.go:47-57 | adding an entry is fatal exactly when the original already holds a different replacement, with the conflict message; otherwise every old entry is kept and the original maps to the replacement |
| Tracker.Generate | pkg/obfuscator/tracker.go:59-71 | a recorded value wins and nothing changes; with no generator the answer is "" and nothing is stored; otherwise the generator's value for the key is stored under the original |
| Tracker.NewSimple | pkg/obfuscator/tracker.go:84-86 | a new tracker holds nothing |
| Tracker.Report | pkg/obfuscator/tracker.go:37-45 | the report holds exactly the recorded originals with their replacements |
| Tracker.AddReplacement | pkg/obfuscator/tracker.go:47-57 | fatal exactly on a conflicting report; otherwise the tracker gains the entry and keeps every other one |
| Tracker.GenerateIfAbsent | pkg/obfuscator/tracker.go:59-71 | the tracker only grows, and a value is generated only for an original not yet recorded |
| Tracker.Initialize | pkg/obfuscator/tracker.go:73-82 | fatal, with its message, exactly when something is already recorded; otherwise the seed becomes the mapping |
| Tracker.AddReplacementIdempotent | pkg/obfuscator/tracker.go:47-57 | reporting the same replacement twice is the same as reporting it once |
| Tracker.AddReplacementCommutes | pkg/obfuscator/tracker.go:47-57 | reports for different originals can be made in either order |
| Tracker.GenerateIfAbsentStable | pkg/obfuscator/tracker.go:59-71 | once a value is stored, later lookups return it, change nothing and never call the generator |
| Tracker.GenerateThenAdd | pkg/obfuscator/tracker.go:59-71 | reporting the value just returned never conflicts and changes nothing |
| Tracker.InitializeAsAdd | pkg/obfuscator/tracker.go:73-82 | on a fresh tracker, a one-entry seed and a report of that entry agree |
| Tracker.InitializeTwice | pkg/obfuscator/tracker.go:73-82 | a second `Initialize` is fatal exactly when the first seed was non-empty |
| StripedTracker.Fnv32Vector | pkg/obfuscator/tracker.go:163-168 | the FNV-1 32-bit hash of "a" is the published value 0x050c5d7e |
| StripedTracker.Fnv32 | pkg/obfuscator/tracker.go:164-166 | no contract of its own: FNV-1 32 over the key's bytes; `Fnv32Vector` ties it to the published hash |
| StripedTracker.StripeOf | pkg/obfuscator/tracker.go:163-168 | the stripe index is always a valid stripe |
| StripedTracker.NewStriped | pkg/obfuscator/tracker.go:170-183 | four stripes per processor, not initialised, nothing recorded |
| StripedTracker.FlattenLookup | pkg/obfuscator/tracker.go:94-107 | when keys sit in their hash's stripe, the merged report finds a key exactly in its own stripe, with that stripe's value |
| StripedTracker.Report | pkg/obfuscator/tracker.go:94-107 | a key is reported exactly when its own stripe holds it |
| StripedTracker.AddReplacement | pkg/obfuscator/tracker.go:109-121 | fatal exactly when the original's own stripe holds a different value; the stripe count and the initialised flag are kept |
| StripedTracker.GenerateIfAbsent | pkg/obfuscator/tracker.go:123-137 | a value is generated only for an original absent from its stripe |
| StripedTracker.Initialize | pkg/obfuscator/tracker.go:139-159 | fatal, with its message, exactly on a second call; otherwise the tracker becomes initialised with the same stripes |
| StripedTracker.FlattenUpdate | pkg/obfuscator/tracker.go:109-121 | writing a key into its own stripe keeps placement and writes it into the merged map |
| StripedTracker.AddReplacementRefines | pkg/obfuscator/tracker.go:109-121 | the striped report behaves as the single-map one on the merged map: same conflicts, same resulting map |
| StripedTracker.GenerateIfAbsentRefines | pkg/obfuscator/tracker.go:123-137 | same value, same generator use and same merged map as the single-map tracker |
| StripedTracker.InitializeRefines | pkg/obfuscator/tracker.go:139-159 | a first `Initialize` adds the seed over the merged map and keeps placement |
| StripedTracker.InitializeAfterReport | pkg/obfuscator/tracker.go:139-159 | the striped tracker accepts a seed after a report and the seed wins, where the single-map one exits |
| Generator.FormatRoundTrip | pkg/obfuscator/ipv4.go:15 | the counter can be read back out of a formatted consistent value |
| Generator.FormatInjective | pkg/obfuscator/ipv6.go:14 | distinct counters format to distinct values |
| Generator.Format | pkg/obfuscator/ipv4.go:15 | no contract of its own: prefix, zero-padded counter, suffix, as `%010d` lays it out; `FormatRoundTrip` and `FormatInjective` state what it means |
| Generator.GenerateStatic | pkg/obfuscator/ipv4.go:55 | no contract of its own: the family's placeholder whatever the key; `Obfuscator.Replacement` states that a static obfuscator hands it out |
| Generator.GenerateConsistent | pkg/obfuscator/ipv4.go:72 | the value carries the current counter, and the counter then grows |
| Generator.ConsistentFresh | pkg/obfuscator/ipv4.go:72 | a generator never hands out the same consistent value twice |
| Generator.FirstValue | pkg/obfuscator/ipv4.go:15 | the first consistent value is the counter 1 zero-padded to the template width |
| Generator.FirstIpv6Value | pkg/obfuscator/ipv6_test.go:51-58 | the first IPv6 consistent value is "xx-ipv6-000000000000000001-xx" |
| Generator.FirstIpv4Value | pkg/obfuscator/ipv4.go:15 | the first IPv4 consistent value is "x-ipv4-0000000001-x" |
| Text.Decimal | pkg/match/ipv4_matcher.go:17 | a rendered octet is non-empty digits with no leading zero, and reads back as the number |
| Text.DecimalInjective | pkg/match/ipv4_matcher.go:17 | distinct numbers render differently |
| Text.PaddedDecimalValue | pkg/obfuscator/ipv4.go:15 | zero padding to the template width does not change the value read back |
| Text.ValueMonotone | pkg/match/ipv4_matcher.go:56-68 | reading more digits never lowers the running value |
| Text.ByteToString | pkg/obfuscator/fast_ipv4.go:48 | `string(byte)` keeps an ASCII byte and turns a byte from 0x80 on into a two-byte UTF-8 sequence that decodes to it |
| Text.TranscodeAscii | pkg/obfuscator/fast_ipv4.go:48 | converting ASCII text byte by byte gives the text back |
| Text.TranscodeGrows | pkg/obfuscator/fast_ipv4.go:48 | a byte from 0x80 on makes the converted text longer than the input |
| Text.TranscodeLength | pkg/obfuscator/fast_ipv4.go:48 | conversion never shortens the text |
| Text.Transcode | pkg/obfuscator/fast_ipv4.go:48 | no contract of its own: every byte through `string(byte)`; `TranscodeAscii`, `TranscodeGrows` and `TranscodeLength` state what it means |
| GoStrings.ReplaceAllNoMatch | pkg/obfuscator/mac_address.go:42 | `strings.ReplaceAll` leaves text without the pattern unchanged |
| GoStrings.ReplaceAll | pkg/obfuscator/ipv4.go:59 | no contract of its own: `strings.ReplaceAll`, left to right without overlaps; `ReplaceAllNoMatch`, `ReplaceFromSame`, `ReplaceInContext` and `ReplaceCharIsMap` state what it means |
| GoStrings.ReplaceFromSame | pkg/obfuscator/mac_address.go:42 | the scan that replaces a pattern by itself changes nothing, so the equal-arguments shortcut agrees with it |
| GoStrings.ReplaceInContext | pkg/obfuscator/ipv6.go:59 | a single occurrence whose first character appears nowhere around it is replaced in place |
| GoStrings.ReplaceCharIsMap | pkg/obfuscator/mac_address.go:34 | replacing one character by another is a pointwise swap |
| GoStrings.ReplaceCharUndo | pkg/obfuscator/ipv4.go:50 | swapping to a character the text lacks is undone by the reverse swap |
| GoStrings.ToUpper | pkg/obfuscator/mac_address.go:34 | upper-casing keeps the length and folds each ASCII lower-case letter |
| GoStrings.MacKeyIff | pkg/obfuscator/mac_address.go:34 | two MAC spellings normalise to one key exactly when they agree up to case and separator |
| GoStrings.NormalizeMacIdempotent | pkg/obfuscator/mac_address.go:34 | a normalised MAC holds no dash and no lower-case letter, and normalising it again changes nothing |
| GoStrings.NormalizeMac | pkg/obfuscator/mac_address.go:34 | no contract of its own: dashes to colons, then upper case; `MacKeyIff` and `NormalizeMacIdempotent` state what it means |
| Obfuscator.New | pkg/obfuscator/ipv4.go:66-75 | construction fails, with "unsupported replacement type: " and the mode, exactly for an unknown mode; otherwise the tracker is empty |
| Obfuscator.Replacement | pkg/obfuscator/ipv4.go:53-58 | a recorded key gives its value and changes nothing; a new key gets the placeholder in static mode, the current counter in consistent mode, and is stored |
| Obfuscator.ReplacementStable | pkg/obfuscator/ipv4.go:53-58 | asking again for a key gives the same value and state |
| Obfuscator.ReplacementFresh | pkg/obfuscator/ipv4.go:53-58 | a new consistent value differs from every value already held, and the tracker holds only issued values |
| Obfuscator.Substitute | pkg/obfuscator/ipv4.go:53-60 | the output is `ReplaceAll` of the match by its key's replacement, and the match is stored with its key's value |
| Obfuscator.SubstituteSafe | pkg/obfuscator/ipv4.go:53-60 | with a canonical key, the report after the lookup never exits |
| Obfuscator.CleanCanonical | pkg/obfuscator/ipv4.go:50 | the cleaned spelling turns dashes into dots, keeps everything else, and is its own cleaned spelling |
| Obfuscator.CleanNoDash | pkg/obfuscator/ipv4.go:50 | a match without a dash is its own key |
| Obfuscator.Clean | pkg/obfuscator/ipv4.go:50 | no contract of its own: `strings.ReplaceAll(m, "-", ".")`; `CleanCanonical` states what it means |
| Obfuscator.Skipped | pkg/obfuscator/ipv4.go:44-51 | no contract of its own: a match is passed over when it is on the exclusion list as spelled, or its cleaned key fails `net.ParseIP`; `ReplaceMatchesAllSkipped` and `ReplaceMatchesReports` state what that means for the loop |
| Obfuscator.ReplaceMatches | pkg/obfuscator/ipv4.go:40-64 | the match loop keeps the mode and family, and the tracker only grows |
| Obfuscator.ReplaceMatchesSafe | pkg/obfuscator/ipv4.go:40-64 | the loop never exits, and the tracker stays canonical and holds only issued values |
| Obfuscator.ReplaceMatchesReports | pkg/obfuscator/ipv4.go:59-60 | every match that is not skipped is reported under its key's replacement |
| Obfuscator.SingleMatch | pkg/obfuscator/ipv4.go:59-60 | one match that is its own key: the text gets its replacement, and reporting it adds nothing |
| Obfuscator.ReplaceMatchesAllSkipped | pkg/obfuscator/ipv4.go:46-51 | when every match is skipped, text and obfuscator are unchanged |
| Ipv4Obfuscator.NewIpv4 | pkg/obfuscator/ipv4.go:66-75 | fails exactly for an unknown mode; otherwise the IPv4 generator starts at 1 |
| Ipv4Obfuscator.Ipv4Family | pkg/obfuscator/ipv4.go:20-23 | no contract of its own: skip "127.0.0.1" and "0.0.0.0", look a match up under its dash-to-dot cleaned spelling, replace only what `net.ParseIP` accepts |
| Ipv4Obfuscator.Contents | pkg/obfuscator/ipv4.go:40-64 | `Contents` and `Path`: the tracker only grows; `ContentsSafe`, `ExcludedUntouched`, `DashedSpellingShares`, `DashedLoopbackReported` and `ExcludedTailRewritten` state what it returns and records |
| Ipv4Obfuscator.ContentsSafe | pkg/obfuscator/ipv4.go:40-64 | the IPv4 obfuscator never exits and keeps dashed and dotted spellings on one value |
| Ipv4Obfuscator.ExcludedUntouched | pkg/obfuscator/ipv4.go:44-48 | when every match is an excluded spelling, exactly "127.0.0.1" or "0.0.0.0", the text and the tracker are unchanged |
| Ipv4Obfuscator.CleanDashedLoopback | pkg/obfuscator/ipv4.go:50 | "127-0-0-1" cleans to the excluded "127.0.0.1" |
| Ipv4Obfuscator.DashedLoopbackReported | pkg/obfuscator/ipv4.go:44-60 | the exclusion is tested on the raw match, so "127-0-0-1" is replaced and reported, and "127.0.0.1" is recorded under the same value |
| Ipv4Obfuscator.ReplaceTwice | pkg/obfuscator/ipv4.go:59 | `strings.ReplaceAll` replaces both occurrences of a match |
| Ipv4Obfuscator.TailRewriteText | pkg/obfuscator/ipv4.go:59 | replacing "27.0.0.1" in "127.0.0.1 27.0.0.1" also rewrites the tail of "127.0.0.1" |
| Ipv4Obfuscator.SkipThenReplace | pkg/obfuscator/ipv4.go:44-60 | a skipped match followed by a replaced one leaves the text with every occurrence of the second replaced |
| Ipv4Obfuscator.ExcludedTailRewritten | pkg/obfuscator/ipv4.go:44-60 | with "127.0.0.1" excluded and "27.0.0.1" replaced, the text "127.0.0.1 27.0.0.1" becomes "1", the replacement, a space, the replacement: the excluded address is not kept intact |
| Ipv4Obfuscator.DashedSpellingShares | pkg/obfuscator/ipv4.go:50-60 | two matches with one dotted form share one recorded replacement |
| Ipv6Obfuscator.NewIpv6 | pkg/obfuscator/ipv6.go:65-74 | fails exactly for an unknown mode; otherwise the IPv6 generator starts at 1 |
| Ipv6Obfuscator.Ipv6Family | pkg/obfuscator/ipv6.go:20-22 | no contract of its own: skip "::1", look a match up under its cleaned spelling, replace only what `net.ParseIP` accepts |
| Ipv6Obfuscator.Contents | pkg/obfuscator/ipv6.go:39-63 | `Contents` and `Path`: the tracker only grows; `ContentsSafe` and the test lemmas state what it returns and records |
| Ipv6Obfuscator.ContentsSafe | pkg/obfuscator/ipv6.go:39-63 | the IPv6 obfuscator never exits and its tracker stays canonical |
| Ipv6Obfuscator.FreshSingleMatch | pkg/obfuscator/ipv6.go:39-63 | on a fresh obfuscator, a lone address becomes the first replacement and is the only entry reported |
| Ipv6Obfuscator.StaticValidAddress | pkg/obfuscator/ipv6_test.go:19-26 | the static test's address becomes the placeholder and is reported against it |
| Ipv6Obfuscator.StaticExcludedAddress | pkg/obfuscator/ipv6_test.go:27-32 | "::1" is excluded and ":8080" is not an address, so the text is unchanged and nothing is reported |
| Ipv6Obfuscator.ConsistentMixed | pkg/obfuscator/ipv6_test.go:59-66 | only the IPv6 address is replaced, by the first consistent value |
| MacObfuscator.NewMac | pkg/obfuscator/mac_address.go:52-69 | fails exactly for an unknown mode; otherwise the MAC generator starts at 1 |
| MacObfuscator.Contents | pkg/obfuscator/mac_address.go:30-46 | `Contents` (and `Path`): the tracker only grows; `ContentsSafe` and `SpellingsShareReplacement` state what it records |
| MacObfuscator.ContentsSafe | pkg/obfuscator/mac_address.go:30-46 | the MAC obfuscator never exits and every spelling shares its normalised key's value |
| MacObfuscator.SpellingsShareReplacement | pkg/obfuscator/mac_address.go:33-43 | two matches that agree up to case and separator are reported under one replacement |
| Ipv4Matcher.RunIn | pkg/match/ipv4_matcher.go:56-68 | the digit run found is all digits and is followed by a non-digit or the window's end |
| Ipv4Matcher.RunInIs | pkg/match/ipv4_matcher.go:56-68 | those two properties determine the run |
| Ipv4Matcher.JoinedLength | pkg/match/ipv4_matcher.go:27-53 | joined octets need room for their separators, and each is below 255 |
| Ipv4Matcher.JoinedTransfer | pkg/match/ipv4_matcher.go:27-53 | whether a window spells octets depends only on the characters in it |
| Ipv4Matcher.ParseOctetLoop | pkg/match/ipv4_matcher.go:56-68 | a successful octet ends a digit run and is below 255 |
| Ipv4Matcher.ParseOctet | pkg/match/ipv4_matcher.go:56-68 | a successful octet consumes at least one digit, ends a digit run and is below 255 |
| Ipv4Matcher.ParseOctetLoopSpec | pkg/match/ipv4_matcher.go:56-68 | from any point in the run, the loop succeeds exactly on a non-empty run below 255 and returns its value and end |
| Ipv4Matcher.ParseOctetSpec | pkg/match/ipv4_matcher.go:56-68 | `parseOctet` succeeds exactly on a non-empty digit run whose value stays below 255, and returns that value and the run's end |
| Ipv4Matcher.TryParseRest | pkg/match/ipv4_matcher.go:32-52 | a successful parse has four octets, keeps those already read, and ends a digit run |
| Ipv4Matcher.TryParseIPv4 | pkg/match/ipv4_matcher.go:27-53 | a successful parse has four octets and ends a digit run |
| Ipv4Matcher.TryParseTurn | pkg/match/ipv4_matcher.go:37-42 | each later turn has read a separator, the same as the first one, then a valid octet |
| Ipv4Matcher.TryParseSound | pkg/match/ipv4_matcher.go:27-53 | what the parser accepts spells its four octets with one separator kind and ends a digit run |
| Ipv4Matcher.TryParseComplete | pkg/match/ipv4_matcher.go:27-53 | every such spelling is accepted, with exactly those octets and that end |
| Ipv4Matcher.RenderJoined | pkg/match/ipv4_matcher.go:17 | the dotted rendering spells its octets |
| Ipv4Matcher.RenderRoundTrip | pkg/match/ipv4_matcher.go:17 | the parser reads a rendered address back, whatever non-digit follows |
| Ipv4Matcher.Render | pkg/match/ipv4_matcher.go:17 | no contract of its own: the dotted text of four octets; `RenderJoined` and `RenderRoundTrip` state what it means |
| Ipv4Matcher.FindLoop | pkg/match/ipv4_matcher.go:11-25 | a match starts at '1'..'9' at or after the index, is a successful parse there, and is reported rendered; no match reports start 0 and an end at the text's length or one past it |
| Ipv4Matcher.FindNextIPv4 | pkg/match/ipv4_matcher.go:11-25 | the same for the whole scan |
| Ipv4Matcher.FindLoopFinds | pkg/match/ipv4_matcher.go:13-18 | the loop reaches the first candidate after non-candidates and reports it when it parses |
| Ipv4Matcher.FindNextFirstCandidate | pkg/match/ipv4_matcher.go:11-25 | when no candidate lies before `j` and an address parses at `j`, the scan reports that address, its start `j` and its end |
| Ipv4Matcher.NoCandidateNoMatch | pkg/match/ipv4_matcher.go:13-24 | with no '1'..'9' from the index on, the loop reports nothing |
| Ipv4Matcher.NoCandidateNowhere | pkg/match/ipv4_matcher.go:11-25 | text without '1'..'9' holds no address from any position |
| Ipv4Matcher.NormalizedIdempotent | pkg/match/ipv4_matcher.go:17 | the dotted form of a literal is a literal and is its own dotted form |
| Ipv4Matcher.Normalized | pkg/match/ipv4_matcher.go:15-17 | no contract of its own: the dotted form the scanner reports for a literal; `NormalizedIdempotent` and `MatchIsLiteral` state what it means |
| Ipv4Matcher.SpanIsLiteral | pkg/match/ipv4_matcher.go:27-53 | an accepted span, cut out of its text, is accepted whole with the same octets |
| Ipv4Matcher.MatchIsLiteral | pkg/match/ipv4_matcher.go:11-25 | a matched span on its own is a literal whose dotted form is the reported address |
| Ipv4MatcherExamples.Octet255Rejected | pkg/match/ipv4_matcher.go:7 | "255" is not an octet, so no address holding it is parsed |
| Ipv4MatcherExamples.OverflowSkip | pkg/match/ipv4_matcher.go:60-61 | a candidate whose first three digits reach 255 fails without consuming, and the scan moves on one character |
| Ipv4MatcherExamples.DashedHostFound | pkg/match/ipv4_matcher_test.go:60-66 | "ip-10-0-129-220.ec2.aws.yaml" gives "10.0.129.220" at 3..15 |
| Ipv4MatcherExamples.PlusHostNoMatch | pkg/match/ipv4_matcher_test.go:67-73 | "ip+10+0+129+220.ec2.aws.yaml" gives no address, end 28 |
| Ipv4MatcherExamples.FirstOfTwo | pkg/match/ipv4_matcher_test.go:47-52 | with two addresses the first, "192.168.1.20" at 22..34, is found |
| Ipv4MatcherExamples.NightlyNoMatch | pkg/match/ipv4_matcher_test.go:81-87 | the nightly version string gives no address, end 43 |
| Ipv4MatcherExamples.VersionLineNoMatch | pkg/match/ipv4_matcher_test.go:88-94 | "version: 4.8.12" gives no address, end 16 |
| Ipv4MatcherExamples.ListeningLineNoMatch | pkg/match/ipv4_matcher_test.go:95-101 | "Listening on 0.0.0.0:8080" gives no address, end 26 |
| FastIpv4.NewFastIpv4 | pkg/obfuscator/fast_ipv4.go:60-69 | fails with the unsupported-type message exactly for an unknown mode; otherwise the IPv4 generator starts at 1 |
| FastIpv4.FastKeyIdempotent | pkg/obfuscator/fast_ipv4.go:39-41 | the key a spelling shares its replacement with is its own key |
| FastIpv4.FastKey | pkg/obfuscator/fast_ipv4.go:39-41 | no contract of its own: the key a spelling shares its replacement with, its dotted form for a literal; `FastKeyIdempotent` and `MatchStep` state what it means |
| FastIpv4.MatchStep | pkg/obfuscator/fast_ipv4.go:31-41 | after a match both the dotted address and its spelling are recorded under the value handed out, and the tracker only grows |
| FastIpv4.MatchStepSafe | pkg/obfuscator/fast_ipv4.go:39-41 | the two reports after a match never exit, and the tracker stays canonical and holds only issued values |
| FastIpv4.MatchStepValue | pkg/obfuscator/fast_ipv4.go:31-37 | the value handed out is the one the lookup picks for the dotted address |
| FastIpv4.ReplaceLoopAsWritten | pkg/obfuscator/fast_ipv4.go:28-51 | the loop as written only grows the tracker |
| FastIpv4.ReplaceAsWritten | pkg/obfuscator/fast_ipv4.go:17-58 | `Contents` and `Path` as written: the tracker only grows; what the call returns and records is stated by `ReplaceAsWrittenSpec`, `AsWrittenFirstMatch`, `AsWrittenReencodes` and `AsWrittenDuplicates` |
| FastIpv4.AsWrittenSameState | pkg/obfuscator/fast_ipv4.go:28-51 | the loop as written and the corrected loop find the same addresses: both exit or neither, and they leave the same obfuscator, whatever their builders |
| FastIpv4.AsWrittenKeepsBuilder | pkg/obfuscator/fast_ipv4.go:43-48 | the loop as written only appends to its builder |
| FastIpv4.AsWrittenBuilderNonEmpty | pkg/obfuscator/fast_ipv4.go:43-55 | on non-empty text the builder of the loop as written is non-empty, so the fallback to the input is never taken |
| FastIpv4.ReplaceAsWrittenSpec | pkg/obfuscator/fast_ipv4.go:17-58 | `replace` as written never exits, returns its builder (empty only for empty input), leaves the tracker the corrected `replace` leaves, keeps it canonical with issued values only, and records every spelling the scan finds under its dotted form's value |
| FastIpv4.AsWrittenFirstOutput | pkg/obfuscator/fast_ipv4.go:43-46 | the builder of the loop as written starts with the text before the first address and its replacement |
| FastIpv4.AsWrittenFirstReports | pkg/obfuscator/fast_ipv4.go:31-41 | as written, the first address and its spelling are recorded under the value the lookup picks for the address |
| FastIpv4.AsWrittenFirstMatch | pkg/obfuscator/fast_ipv4.go:28-46 | `replace` as written starts its output with the text before the first address and that address's replacement, under which the spelling and the dotted form are both recorded |
| FastIpv4.ReplaceLoop | pkg/obfuscator/fast_ipv4.go:28-51 | the corrected loop only grows the tracker and keeps mode and family |
| FastIpv4.Replace | pkg/obfuscator/fast_ipv4.go:17-58 | the corrected `replace`: the tracker only grows; what it returns and records is stated by `ReplaceSpec`, `ReplaceFirstMatch` and `PlainReplace` |
| FastIpv4.SpansOriginal | pkg/obfuscator/fast_ipv4.go:28-51 | the pieces the scan cuts the text into join back to the text |
| FastIpv4.ReplaceLoopSpec | pkg/obfuscator/fast_ipv4.go:28-51 | from any position the corrected loop never exits, writes the obfuscated pieces after the builder, and records each spelling with its dotted form under one value |
| FastIpv4.LoopOk | pkg/obfuscator/fast_ipv4.go:28-51 | from any position the corrected loop never exits |
| FastIpv4.IssuedNonEmpty | pkg/obfuscator/ipv4.go:13-15 | every value an IPv4 obfuscator hands out is non-empty |
| FastIpv4.ObfuscatedNonEmpty | pkg/obfuscator/fast_ipv4.go:53-55 | non-empty text with non-empty replacements never obfuscates to nothing |
| FastIpv4.ReplaceSpec | pkg/obfuscator/fast_ipv4.go:17-58 | corrected `replace` (each byte outside an address copied once, unchanged): the output is the input with address spellings swapped for their dotted forms' replacements and every other byte kept; each spelling is reported with its dotted form; the process never exits; output is empty only for empty input |
| FastIpv4.ReplaceFirstMatch | pkg/obfuscator/fast_ipv4.go:43-46 | corrected `replace`: the output starts with the text before the first address, then that address's replacement, under which its spelling is reported as well |
| FastIpv4.FirstMatchValue | pkg/obfuscator/fast_ipv4.go:31-39 | corrected loop: the first address is recorded with the value the lookup picks for it |
| FastIpv4.NoCandidateReplace | pkg/obfuscator/fast_ipv4.go:25-58 | on text without '1'..'9' the corrected `replace` returns the text and records nothing, and `replace` as written returns it re-encoded byte by byte |
| FastIpv4.AsWrittenPlain | pkg/obfuscator/fast_ipv4.go:47-50 | with no address ahead, the loop as written emits every remaining byte through `string(byte)` |
| FastIpv4.LoopPlain | pkg/obfuscator/fast_ipv4.go:47-50 | with no address ahead, the corrected loop copies the remaining text unchanged |
| FastIpv4.AsWrittenPlainReplace | pkg/obfuscator/fast_ipv4.go:48-55 | `replace` as written on text with no address returns the re-encoded text |
| FastIpv4.PlainReplace | pkg/obfuscator/fast_ipv4.go:53-55 | the corrected `replace` returns text with no address unchanged and records nothing |
| FastIpv4.AsWrittenReencodes | pkg/obfuscator/fast_ipv4.go:48 | on text with no address, as written gives the re-encoded text, which equals the input exactly when it is ASCII; the corrected version gives the input |
| FastIpv4.DashedScanFromZero | pkg/match/ipv4_matcher.go:37-42 | on "1-2.3.4.5" the scan from 0 rejects the mixed separators and finds nothing |
| FastIpv4.DashedScanFromOne | pkg/match/ipv4_matcher.go:11-25 | from 1 it finds "2.3.4.5" at 2..9 |
| FastIpv4.AsWrittenRepeatsByte | pkg/obfuscator/fast_ipv4.go:43-50 | a byte outside an address followed by an address is written twice as written and once when corrected |
| FastIpv4.DashedLoops | pkg/obfuscator/fast_ipv4.go:28-51 | on "1-2.3.4.5" the loop as written builds "11-" then the replacement, the corrected loop "1-" then the replacement |
| FastIpv4.AsWrittenDuplicates | pkg/obfuscator/fast_ipv4.go:47-50 | `replace` as written turns "1-2.3.4.5" into "11-" and the replacement; the corrected one into "1-" and the replacement |

## Left out

- The regular expressions (`ipv4Pattern`, `ipv6Pattern`, the MAC pattern) are not modelled: the list of matches they find is an input.
- `net.ParseIP` is not modelled: its verdict on the cleaned match is an input predicate.
- Locks, `sync.RWMutex` and concurrency are not modelled. This includes the write `SimpleTracker.GenerateIfAbsent` makes under a read lock (pkg/obfuscator/tracker.go:60-69), which a sequential model cannot show.
- `klog.Exitf` is modelled as the `Fatal` outcome, not as process termination.
- The replacement generator's source is not part of this model. Its counter, templates and placeholders are modelled from the constructors' arguments.
- Generator.GenerateConsistent: the ceiling passed to `newGenerator` (9999999999 and so on) is carried in the template but not enforced, since its behaviour is not visible.
- The interface's `GenerateIfAbsent(original, key, generator)` is called by the obfuscators with only a key. The model passes the key as both original and key.
- `strings.ReplaceAll` with an empty pattern is modelled per character rather than per rune; no modelled caller uses an empty pattern.
- GoStrings.ToUpper: folds ASCII letters only; MAC matches are ASCII, and the Unicode case tables are not modelled.
- StripedTracker.Fnv32: characters are taken mod 256. This is exact on the byte strings the model uses.
- StripedTracker.StripeOf: assumes a 64-bit `int`, so the hash is never negative.
- `runtime.NumCPU()` is the parameter `cpus`.
- The `switch` default of every `replace` (a mode that is neither static nor consistent) is not modelled: construction rejects such a mode, so it never runs.
- FastIpv4.ReplaceAsWrittenSpec: the output of `replace` as written is characterised for text with no address (`FastIpv4.AsWrittenPlainReplace`), up to the first address (`FastIpv4.AsWrittenFirstMatch`) and on the examples under "## Findings", not in general; its reports and its tracker are characterised in general.
- FastIpv4.ReplaceSpec: requires the IPv4 template. It uses that template's non-empty values to show the empty-builder fallback never changes the result.
- The rejection of 255 by `parseOctet` (pkg/match/ipv4_matcher.go:60) is modelled as written, with `Ipv4MatcherExamples.Octet255Rejected` stating it. A broadcast address such as 192.168.1.255 is therefore never found. This is documented behaviour, not claimed as a finding.
- Obfuscator.Substitute: states the output as `ReplaceAll` of the match. That every occurrence is replaced is proved only for a single occurrence (`Obfuscator.SingleMatch`, `GoStrings.ReplaceInContext`).
- Test cases of pkg/match/ipv4_matcher_test.go other than those in `Ipv4MatcherExamples` are not restated; `Ipv4Matcher.RenderRoundTrip` and `Ipv4Matcher.TryParseComplete` cover them in general.
- `Report` of the obfuscators delegates to the tracker's `Report` and is not modelled separately.

## Findings

| source | as written | input that shows it | evidently intended | confidence | as-written member | corrected member |
|---|---|---|---|---|---|---|
| pkg/obfuscator/fast_ipv4.go:47-50 | a byte with no address after it is written and `lastWriteIndex` is set to that byte, so a match found from the next index copies the byte again | "1-2.3.4.5" becomes "11-" followed by the replacement | every byte outside an address is copied exactly once ("1-" followed by the replacement) | not executed | FastIpv4.AsWrittenDuplicates | FastIpv4.ReplaceSpec |
| pkg/obfuscator/fast_ipv4.go:48 | `string(s[i])` converts a byte to the code point U+00xx and writes its UTF-8 encoding | text holding a byte 0xC3 (as in UTF-8 "é") and no address comes back longer than it went in | bytes outside an address are copied unchanged | not executed | FastIpv4.AsWrittenReencodes | FastIpv4.PlainReplace |
