/** The scanner's documented behaviour on the inputs of its test table
    (pkg/match/ipv4_matcher_test.go), each input stated character by character, and the rule
    that 255 is not an octet. */
module Ipv4MatcherExamples {
  import opened Wrappers
  import opened Text
  import opened Ipv4Matcher

  /** From a position with no candidate left, the scan stops at the end of the text. */
  lemma {:induction false} ScanTail(s: string, i: nat)
    requires i <= |s| && forall k :: i <= k < |s| ==> !Candidate(s[k])
    ensures FindLoop(s, i) == Found("", 0, |s|)
    decreases |s| - i
  {
    if i < |s| {
      ScanTail(s, i + 1);
    }
  }

  /** A character that cannot start a candidate is stepped over. */
  lemma Skip(s: string, i: nat)
    requires i < |s| && !Candidate(s[i])
    ensures FindLoop(s, i) == FindLoop(s, i + 1)
  {
  }

  /** A complete run of `c` digits whose value is below 255 is read whole. */
  lemma OctetRun(s: string, at: nat, c: nat)
    requires 0 < c && at + c <= |s| && DigitsIn(s, at, at + c) && Maximal(s, at + c)
    requires Value(s, at, at + c) < MaxOctetSize
    ensures ParseOctet(s, at) == Octet(Value(s, at, at + c), at + c, true)
  {
    ParseOctetSpec(s, at);
    RunInIs(s, at, |s|, c);
  }

  /** A run of digits reaching 255 is not an octet: "255" itself is rejected, so the scanner
      never reports an address holding a 255 octet. */
  lemma Octet255Rejected(s: string, at: nat)
    requires at + 3 <= |s| && s[at] == '2' && s[at + 1] == '5' && s[at + 2] == '5'
    ensures !ParseOctet(s, at).ok && ParseOctet(s, at).n == MaxOctetSize
    ensures TryParseIPv4(s, at).ip.None?
  {
    assert ParseOctetLoop(s, at, at, 0) == ParseOctetLoop(s, at, at + 1, 2);
    assert ParseOctetLoop(s, at, at + 1, 2) == ParseOctetLoop(s, at, at + 2, 25);
  }

  /** A candidate whose first three digits reach 255 fails at once, consuming nothing, and the
      scan moves on to the next character. */
  lemma OverflowSkip(s: string, at: nat)
    requires at + 3 <= |s| && Candidate(s[at]) && IsDigit(s[at + 1]) && IsDigit(s[at + 2])
    requires 100 * DigitValue(s[at]) + 10 * DigitValue(s[at + 1]) + DigitValue(s[at + 2]) >= MaxOctetSize
    ensures TryParseIPv4(s, at) == Parsed(None, at)
    ensures FindLoop(s, at) == FindLoop(s, at + 1)
  {
    var d0, d1 := DigitValue(s[at]), DigitValue(s[at + 1]);
    assert ParseOctetLoop(s, at, at, 0) == ParseOctetLoop(s, at, at + 1, d0);
    assert ParseOctetLoop(s, at, at + 1, d0) == ParseOctetLoop(s, at, at + 2, 10 * d0 + d1);
    assert !ParseOctet(s, at).ok;
  }

  // ---------------------------------------------------------------------------------------
  // "ip-10-0-129-220.ec2.aws.yaml": a dashed address inside a host name

  predicate DashedHost(s: string) {
    && |s| == 28
    && s[0] == 'i' && s[1] == 'p' && s[2] == '-'
    && s[3] == '1' && s[4] == '0' && s[5] == '-' && s[6] == '0' && s[7] == '-'
    && s[8] == '1' && s[9] == '2' && s[10] == '9' && s[11] == '-'
    && s[12] == '2' && s[13] == '2' && s[14] == '0' && s[15] == '.'
  }

  lemma DashedHostOctets(s: string)
    requires DashedHost(s)
    ensures ParseOctet(s, 3) == Octet(10, 5, true)
    ensures ParseOctet(s, 6) == Octet(0, 7, true)
    ensures ParseOctet(s, 8) == Octet(129, 11, true)
    ensures ParseOctet(s, 12) == Octet(220, 15, true)
  {
    assert Value(s, 3, 4) == 1;
    OctetRun(s, 3, 2);
    OctetRun(s, 6, 1);
    assert Value(s, 8, 9) == 1 && Value(s, 8, 10) == 12;
    OctetRun(s, 8, 3);
    assert Value(s, 12, 13) == 2 && Value(s, 12, 14) == 22;
    OctetRun(s, 12, 3);
  }

  /** The dashed spelling is found at 3..15 and reported in dotted form. */
  lemma DashedHostFound(s: string)
    requires DashedHost(s)
    ensures FindNextIPv4(s, 0) == Found(Render([10, 0, 129, 220]), 3, 15)
    ensures Render([10, 0, 129, 220]) == "10.0.129.220"
  {
    DashedHostScan(s);
    RenderDashedHost();
  }

  lemma RenderDashedHost()
    ensures Render([10, 0, 129, 220]) == "10.0.129.220"
  {
    DecimalTwo(10);
    DecimalThree(129);
    DecimalThree(220);
    assert Decimal(0) == "0";
  }

  /** The decimal digits of a two- and a three-digit number. */
  lemma DecimalTwo(n: nat)
    requires 10 <= n < 100
    ensures Decimal(n) == [DigitChar(n / 10), DigitChar(n % 10)]
  {
  }

  lemma DecimalThree(n: nat)
    requires 100 <= n < 1000
    ensures Decimal(n) == [DigitChar(n / 100), DigitChar(n / 10 % 10), DigitChar(n % 10)]
  {
    DecimalTwo(n / 10);
  }

  lemma DashedHostScan(s: string)
    requires DashedHost(s)
    ensures FindNextIPv4(s, 0) == Found(Render([10, 0, 129, 220]), 3, 15)
  {
    DashedHostOctets(s);
    Skip(s, 0);
    Skip(s, 1);
    Skip(s, 2);
    assert TryParseIPv4(s, 3) == TryParseRest(s, 5, 1, NoSep, [10]);
    TryParseStep(s, 5, 1, NoSep, [10]);
    TryParseStep(s, 7, 2, '-', [10] + [0]);
    TryParseStep(s, 11, 3, '-', [10] + [0] + [129]);
    assert [10] + [0] + [129] + [220] == [10, 0, 129, 220];
    assert TryParseIPv4(s, 3) == Parsed(Some([10, 0, 129, 220]), 15);
  }

  // ---------------------------------------------------------------------------------------
  // "version: 4.8.12": three numbers are not an address

  predicate VersionLine(s: string) {
    && |s| == 15
    && s[0] == 'v' && s[1] == 'e' && s[2] == 'r' && s[3] == 's' && s[4] == 'i' && s[5] == 'o'
    && s[6] == 'n' && s[7] == ':' && s[8] == ' '
    && s[9] == '4' && s[10] == '.' && s[11] == '8' && s[12] == '.' && s[13] == '1' && s[14] == '2'
  }

  /** The candidate "4.8.12" runs out of text before a fourth octet; the scan then resumes one
      past the end, so no address is found and the end reported is 16, one more than the
      length. */
  lemma VersionLineNoMatch(s: string)
    requires VersionLine(s)
    ensures FindNextIPv4(s, 0) == Found("", 0, 16)
  {
    VersionSkips(s);
    VersionCandidate(s);
  }

  lemma VersionSkips(s: string)
    requires VersionLine(s)
    ensures FindLoop(s, 0) == FindLoop(s, 9)
  {
    Skip(s, 0); Skip(s, 1); Skip(s, 2); Skip(s, 3); Skip(s, 4);
    Skip(s, 5); Skip(s, 6); Skip(s, 7); Skip(s, 8);
  }

  lemma VersionCandidate(s: string)
    requires VersionLine(s)
    ensures TryParseIPv4(s, 9) == Parsed(None, 15)
    ensures FindLoop(s, 9) == Found("", 0, 16)
  {
    OctetRun(s, 9, 1);
    OctetRun(s, 11, 1);
    assert Value(s, 13, 14) == 1;
    OctetRun(s, 13, 2);
    assert TryParseIPv4(s, 9) == TryParseRest(s, 10, 1, NoSep, [4]);
    TryParseStep(s, 10, 1, NoSep, [4]);
    TryParseStep(s, 12, 2, '.', [4] + [8]);
    assert TryParseRest(s, 15, 3, '.', [4] + [8] + [12]) == Parsed(None, 15);
  }

  // ---------------------------------------------------------------------------------------
  // "ip+10+0+129+220.ec2.aws.yaml": '+' is not a separator

  predicate PlusHost(s: string) {
    && |s| == 28
    && s[0] == 'i' && s[1] == 'p' && s[2] == '+'
    && s[3] == '1' && s[4] == '0' && s[5] == '+' && s[6] == '0' && s[7] == '+'
    && s[8] == '1' && s[9] == '2' && s[10] == '9' && s[11] == '+'
    && s[12] == '2' && s[13] == '2' && s[14] == '0' && s[15] == '.'
    && s[16] == 'e' && s[17] == 'c' && s[18] == '2' && s[19] == '.'
    && s[20] == 'a' && s[21] == 'w' && s[22] == 's' && s[23] == '.'
    && s[24] == 'y' && s[25] == 'a' && s[26] == 'm' && s[27] == 'l'
  }

  /** Every candidate fails: "10", "129" and "220" at a '+' or a letter, "2" of "ec2" at the
      letter after its '.', and the scan runs to the end of the text. */
  lemma PlusHostNoMatch(s: string)
    requires PlusHost(s)
    ensures FindNextIPv4(s, 0) == Found("", 0, 28)
  {
    PlusHostFirst(s);
    PlusHostMiddle(s);
    PlusHostLast(s);
    PlusHostTail(s);
  }

  lemma PlusHostTail(s: string)
    requires PlusHost(s)
    ensures FindLoop(s, 21) == Found("", 0, 28)
  {
    ScanTail(s, 21);
  }

  lemma PlusHostFirst(s: string)
    requires PlusHost(s)
    ensures FindLoop(s, 0) == FindLoop(s, 8)
  {
    Skip(s, 0); Skip(s, 1); Skip(s, 2);
    assert Value(s, 3, 4) == 1;
    OctetRun(s, 3, 2);
    assert TryParseIPv4(s, 3) == Parsed(None, 5);
    Skip(s, 6); Skip(s, 7);
  }

  lemma PlusHostMiddle(s: string)
    requires PlusHost(s)
    ensures FindLoop(s, 8) == FindLoop(s, 17)
  {
    assert Value(s, 8, 9) == 1 && Value(s, 8, 10) == 12;
    OctetRun(s, 8, 3);
    assert TryParseIPv4(s, 8) == Parsed(None, 11);
    assert Value(s, 12, 13) == 2 && Value(s, 12, 14) == 22;
    OctetRun(s, 12, 3);
    assert TryParseIPv4(s, 12) == TryParseRest(s, 15, 1, NoSep, [220]);
    assert ParseOctet(s, 16) == Octet(0, 16, false);
    assert TryParseIPv4(s, 12) == Parsed(None, 16);
  }

  lemma PlusHostLast(s: string)
    requires PlusHost(s)
    ensures FindLoop(s, 17) == FindLoop(s, 21)
  {
    Skip(s, 17);
    OctetRun(s, 18, 1);
    assert TryParseIPv4(s, 18) == TryParseRest(s, 19, 1, NoSep, [2]);
    assert ParseOctet(s, 20) == Octet(0, 20, false);
    assert TryParseIPv4(s, 18) == Parsed(None, 20);
  }

  // ---------------------------------------------------------------------------------------
  // "Listening on 0.0.0.0:8080": no candidate starts at '0'

  predicate ListeningLine(s: string) {
    && |s| == 25
    && s[0] == 'L' && s[1] == 'i' && s[2] == 's' && s[3] == 't' && s[4] == 'e' && s[5] == 'n'
    && s[6] == 'i' && s[7] == 'n' && s[8] == 'g' && s[9] == ' ' && s[10] == 'o' && s[11] == 'n'
    && s[12] == ' ' && s[13] == '0' && s[14] == '.' && s[15] == '0' && s[16] == '.'
    && s[17] == '0' && s[18] == '.' && s[19] == '0' && s[20] == ':'
    && s[21] == '8' && s[22] == '0' && s[23] == '8' && s[24] == '0'
  }

  /** "0.0.0.0" is never a candidate; "8080" overflows an octet and "80" lacks its
      separators, and the scan stops one past the end. */
  lemma ListeningLineNoMatch(s: string)
    requires ListeningLine(s)
    ensures FindNextIPv4(s, 0) == Found("", 0, 26)
  {
    ListeningWords(s);
    ListeningZeros(s);
    ListeningPort(s);
  }

  lemma ListeningWords(s: string)
    requires ListeningLine(s)
    ensures FindLoop(s, 0) == FindLoop(s, 13)
  {
    Skip(s, 0); Skip(s, 1); Skip(s, 2); Skip(s, 3); Skip(s, 4); Skip(s, 5); Skip(s, 6);
    Skip(s, 7); Skip(s, 8); Skip(s, 9); Skip(s, 10); Skip(s, 11); Skip(s, 12);
  }

  lemma ListeningZeros(s: string)
    requires ListeningLine(s)
    ensures FindLoop(s, 13) == FindLoop(s, 21)
  {
    Skip(s, 13); Skip(s, 14); Skip(s, 15); Skip(s, 16);
    Skip(s, 17); Skip(s, 18); Skip(s, 19); Skip(s, 20);
  }

  lemma ListeningPort(s: string)
    requires ListeningLine(s)
    ensures FindLoop(s, 21) == Found("", 0, 26)
  {
    OverflowSkip(s, 21);
    Skip(s, 22);
    assert Value(s, 23, 24) == 8;
    OctetRun(s, 23, 2);
    assert TryParseIPv4(s, 23) == Parsed(None, 25);
  }

  // ---------------------------------------------------------------------------------------
  // "received request from 192.168.1.20 proxied through 192.168.1.3": the first address wins

  /** The text begins "received request from 192.168.1.20 "; whatever follows is irrelevant. */
  predicate TwoAddresses(s: string) {
    && |s| >= 35
    && s[0] == 'r' && s[1] == 'e' && s[2] == 'c' && s[3] == 'e' && s[4] == 'i' && s[5] == 'v'
    && s[6] == 'e' && s[7] == 'd' && s[8] == ' ' && s[9] == 'r' && s[10] == 'e' && s[11] == 'q'
    && s[12] == 'u' && s[13] == 'e' && s[14] == 's' && s[15] == 't' && s[16] == ' '
    && s[17] == 'f' && s[18] == 'r' && s[19] == 'o' && s[20] == 'm' && s[21] == ' '
    && s[22] == '1' && s[23] == '9' && s[24] == '2' && s[25] == '.' && s[26] == '1'
    && s[27] == '6' && s[28] == '8' && s[29] == '.' && s[30] == '1' && s[31] == '.'
    && s[32] == '2' && s[33] == '0' && s[34] == ' '
  }

  /** The first address in scan order is reported, at 22..34, whatever comes after it. */
  lemma FirstOfTwo(s: string)
    requires TwoAddresses(s)
    ensures FindNextIPv4(s, 0) == Found(Render([192, 168, 1, 20]), 22, 34)
    ensures Render([192, 168, 1, 20]) == "192.168.1.20"
  {
    FirstOfTwoScan(s);
    RenderFirstOfTwo();
  }

  lemma RenderFirstOfTwo()
    ensures Render([192, 168, 1, 20]) == "192.168.1.20"
  {
    DecimalThree(192);
    DecimalThree(168);
    DecimalTwo(20);
    assert Decimal(1) == "1";
  }

  lemma FirstOfTwoScan(s: string)
    requires TwoAddresses(s)
    ensures FindNextIPv4(s, 0) == Found(Render([192, 168, 1, 20]), 22, 34)
  {
    FirstOfTwoWords(s);
    FirstOfTwoOctets(s);
    assert TryParseIPv4(s, 22) == TryParseRest(s, 25, 1, NoSep, [192]);
    TryParseStep(s, 25, 1, NoSep, [192]);
    TryParseStep(s, 29, 2, '.', [192] + [168]);
    TryParseStep(s, 31, 3, '.', [192] + [168] + [1]);
    assert [192] + [168] + [1] + [20] == [192, 168, 1, 20];
    assert TryParseIPv4(s, 22) == Parsed(Some([192, 168, 1, 20]), 34);
  }

  lemma FirstOfTwoWords(s: string)
    requires TwoAddresses(s)
    ensures FindLoop(s, 0) == FindLoop(s, 22)
  {
    Skip(s, 0); Skip(s, 1); Skip(s, 2); Skip(s, 3); Skip(s, 4); Skip(s, 5); Skip(s, 6);
    Skip(s, 7); Skip(s, 8); Skip(s, 9); Skip(s, 10); Skip(s, 11); Skip(s, 12); Skip(s, 13);
    Skip(s, 14); Skip(s, 15); Skip(s, 16); Skip(s, 17); Skip(s, 18); Skip(s, 19); Skip(s, 20);
    Skip(s, 21);
  }

  lemma FirstOfTwoOctets(s: string)
    requires TwoAddresses(s)
    ensures ParseOctet(s, 22) == Octet(192, 25, true)
    ensures ParseOctet(s, 26) == Octet(168, 29, true)
    ensures ParseOctet(s, 30) == Octet(1, 31, true)
    ensures ParseOctet(s, 32) == Octet(20, 34, true)
  {
    assert Value(s, 22, 23) == 1 && Value(s, 22, 24) == 19;
    OctetRun(s, 22, 3);
    assert Value(s, 26, 27) == 1 && Value(s, 26, 28) == 16;
    OctetRun(s, 26, 3);
    OctetRun(s, 30, 1);
    assert Value(s, 32, 33) == 2;
    OctetRun(s, 32, 2);
  }

  // ---------------------------------------------------------------------------------------
  // "version: 4.8.0-0.nightly-2021-07-31-065602": a version string with a date is no address

  predicate NightlyVersion(s: string) {
    && |s| == 42
    && s[0] == 'v' && s[1] == 'e' && s[2] == 'r' && s[3] == 's' && s[4] == 'i' && s[5] == 'o'
    && s[6] == 'n' && s[7] == ':' && s[8] == ' ' && s[9] == '4' && s[10] == '.' && s[11] == '8'
    && s[12] == '.' && s[13] == '0' && s[14] == '-' && s[15] == '0' && s[16] == '.'
    && s[17] == 'n' && s[18] == 'i' && s[19] == 'g' && s[20] == 'h' && s[21] == 't'
    && s[22] == 'l' && s[23] == 'y' && s[24] == '-' && s[25] == '2' && s[26] == '0'
    && s[27] == '2' && s[28] == '1' && s[29] == '-' && s[30] == '0' && s[31] == '7'
    && s[32] == '-' && s[33] == '3' && s[34] == '1' && s[35] == '-' && s[36] == '0'
    && s[37] == '6' && s[38] == '5' && s[39] == '6' && s[40] == '0' && s[41] == '2'
  }

  /** "4.8.0" meets a '-' where a '.' is required, "2021" and the digit runs of "065602"
      overflow an octet, "21-07-31" finds no fourth octet, and the final "2" runs out of text:
      no address, and the scan stops at 43, one past the end. */
  lemma NightlyNoMatch(s: string)
    requires NightlyVersion(s)
    ensures FindNextIPv4(s, 0) == Found("", 0, 43)
  {
    NightlyWords(s);
    NightlyVersionNumber(s);
    NightlyName(s);
    NightlyYear(s);
    NightlyDate(s);
    NightlyTime(s);
    NightlyEnd(s);
  }

  lemma NightlyWords(s: string)
    requires NightlyVersion(s)
    ensures FindLoop(s, 0) == FindLoop(s, 9)
  {
    Skip(s, 0); Skip(s, 1); Skip(s, 2); Skip(s, 3); Skip(s, 4); Skip(s, 5); Skip(s, 6);
    Skip(s, 7); Skip(s, 8);
  }

  /** "4.8.0" then '-': the separators must agree. */
  lemma NightlyVersionNumber(s: string)
    requires NightlyVersion(s)
    ensures FindLoop(s, 9) == FindLoop(s, 15)
  {
    OctetRun(s, 9, 1);
    OctetRun(s, 11, 1);
    OctetRun(s, 13, 1);
    assert TryParseIPv4(s, 9) == TryParseRest(s, 10, 1, NoSep, [4]);
    TryParseStep(s, 10, 1, NoSep, [4]);
    TryParseStep(s, 12, 2, '.', [4] + [8]);
    assert TryParseRest(s, 14, 3, '.', [4] + [8] + [0]) == Parsed(None, 14);
  }

  lemma NightlyName(s: string)
    requires NightlyVersion(s)
    ensures FindLoop(s, 15) == FindLoop(s, 25)
  {
    Skip(s, 15); Skip(s, 16); Skip(s, 17); Skip(s, 18); Skip(s, 19); Skip(s, 20); Skip(s, 21);
    Skip(s, 22); Skip(s, 23); Skip(s, 24);
  }

  /** "2021" reaches 255 at its fourth digit; the scan resumes right after the '2'. */
  lemma NightlyYear(s: string)
    requires NightlyVersion(s)
    ensures FindLoop(s, 25) == FindLoop(s, 27)
  {
    assert ParseOctetLoop(s, 25, 25, 0) == ParseOctetLoop(s, 25, 26, 2);
    assert ParseOctetLoop(s, 25, 26, 2) == ParseOctetLoop(s, 25, 27, 20);
    assert ParseOctetLoop(s, 25, 27, 20) == ParseOctetLoop(s, 25, 28, 202);
    assert ParseOctet(s, 25) == Octet(MaxOctetSize, 28, false);
    assert TryParseIPv4(s, 25) == Parsed(None, 25);
    Skip(s, 26);
  }

  /** "21-07-31-065602": the fourth octet overflows, and the scan resumes after its separator,
      inside the failed candidate. */
  lemma NightlyDate(s: string)
    requires NightlyVersion(s)
    ensures FindLoop(s, 27) == FindLoop(s, 37)
  {
    assert Value(s, 27, 28) == 2;
    OctetRun(s, 27, 2);
    assert Value(s, 30, 31) == 0;
    OctetRun(s, 30, 2);
    assert Value(s, 33, 34) == 3;
    OctetRun(s, 33, 2);
    assert TryParseIPv4(s, 27) == TryParseRest(s, 29, 1, NoSep, [21]);
    TryParseStep(s, 29, 1, NoSep, [21]);
    TryParseStep(s, 32, 2, '-', [21] + [7]);
    NightlyFourth(s);
    assert TryParseRest(s, 35, 3, '-', [21] + [7] + [31]) == Parsed(None, 36);
  }

  lemma NightlyFourth(s: string)
    requires NightlyVersion(s)
    ensures !ParseOctet(s, 36).ok
  {
    assert ParseOctetLoop(s, 36, 36, 0) == ParseOctetLoop(s, 36, 37, 0);
    assert ParseOctetLoop(s, 36, 37, 0) == ParseOctetLoop(s, 36, 38, 6);
    assert ParseOctetLoop(s, 36, 38, 6) == ParseOctetLoop(s, 36, 39, 65);
  }

  /** "656", "560" and "602" each overflow at their third digit. */
  lemma NightlyTime(s: string)
    requires NightlyVersion(s)
    ensures FindLoop(s, 37) == FindLoop(s, 40)
  {
    OverflowSkip(s, 37);
    OverflowSkip(s, 38);
    OverflowSkip(s, 39);
  }

  /** The final "2" is an octet with nothing after it. */
  lemma NightlyEnd(s: string)
    requires NightlyVersion(s)
    ensures FindLoop(s, 40) == Found("", 0, 43)
  {
    Skip(s, 40);
    OctetRun(s, 41, 1);
    assert TryParseIPv4(s, 41) == Parsed(None, 42);
  }
}
