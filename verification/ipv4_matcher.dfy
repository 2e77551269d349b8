/** The hand-written IPv4 scanner of package `match`: `parseOctet`, `tryParseIPv4` and
    `FindNextIPv4`. Each Go loop is a recursive function over the loop's variables. Go passes
    suffixes `s[at:]` around and counts positions from the front of the suffix; the model
    keeps the whole string and the offset `at`, so `ParseOctet(s, at)` is `parseOctet(s[at:])`,
    and every position it returns is an index into `s` (Go's count is that index minus `at`).
    The grammar the scanner accepts is stated independently by `Joined` and `Spells`. */
module Ipv4Matcher {
  import opened Wrappers
  import opened Text

  /** An octet whose running value reaches this bound is rejected, so 255 itself fails. */
  const MaxOctetSize: nat := 0xFF

  /** Go's zero `uint8`: no separator seen yet. */
  const NoSep: char := 0 as char

  predicate IsSep(c: char) { c == '.' || c == '-' }

  /** `k` ends a digit run of `s`: nothing but a non-digit (or the end) follows. */
  predicate Maximal(s: string, k: nat)
    requires k <= |s|
  {
    k == |s| || !IsDigit(s[k])
  }

  /** Length of the run of digits of `s` that starts at `lo` and stops at `hi` at the latest. */
  function RunIn(s: string, lo: nat, hi: nat): (r: nat)
    requires lo <= hi <= |s|
    ensures lo + r <= hi && DigitsIn(s, lo, lo + r)
    ensures lo + r < hi ==> !IsDigit(s[lo + r])
    decreases hi - lo
  {
    if lo < hi && IsDigit(s[lo]) then 1 + RunIn(s, lo + 1, hi) else 0
  }

  /** The two properties of `RunIn` determine it. */
  lemma {:induction false} RunInIs(s: string, lo: nat, hi: nat, c: nat)
    requires lo + c <= hi <= |s| && DigitsIn(s, lo, lo + c)
    requires lo + c < hi ==> !IsDigit(s[lo + c])
    ensures RunIn(s, lo, hi) == c
    decreases c
  {
    if 0 < c {
      RunInIs(s, lo + 1, hi, c - 1);
    }
  }

  /** A run that stops before `hi`, or reaches a `hi` that ends a digit run, is also the run
      up to the end of the string. */
  lemma RunInWindow(s: string, lo: nat, hi: nat)
    requires lo <= hi <= |s|
    requires lo + RunIn(s, lo, hi) == hi ==> Maximal(s, hi)
    ensures RunIn(s, lo, |s|) == RunIn(s, lo, hi)
  {
    RunInIs(s, lo, |s|, RunIn(s, lo, hi));
  }

  // ---------------------------------------------------------------------------------------
  // The accepted grammar

  /** `s[lo..hi]` is the values `ip` written as non-empty digit runs (leading zeros allowed),
      each below `MaxOctetSize`, with one `sep` between neighbours and nothing else. */
  predicate Joined(s: string, lo: nat, hi: nat, sep: char, ip: seq<nat>)
    requires lo <= hi <= |s|
    decreases |ip|
  {
    && 0 < |ip|
    && var c := RunIn(s, lo, hi);
       && 0 < c
       && Value(s, lo, lo + c) == ip[0]
       && ip[0] < MaxOctetSize
       && if |ip| == 1 then lo + c == hi
          else lo + c < hi && s[lo + c] == sep && Joined(s, lo + c + 1, hi, sep, ip[1..])
  }

  /** Four octets, all three separators '.' or all three '-'. */
  predicate Spells(s: string, lo: nat, hi: nat, ip: seq<nat>)
    requires lo <= hi <= |s|
  {
    |ip| == 4 && (Joined(s, lo, hi, '.', ip) || Joined(s, lo, hi, '-', ip))
  }

  /** A joined text has room for its separators, and every value is below the bound. */
  lemma {:induction false} JoinedLength(s: string, lo: nat, hi: nat, sep: char, ip: seq<nat>)
    requires lo <= hi <= |s| && Joined(s, lo, hi, sep, ip)
    ensures hi - lo >= 2 * |ip| - 1
    ensures forall j :: 0 <= j < |ip| ==> ip[j] < MaxOctetSize
    decreases |ip|
  {
    if |ip| > 1 {
      JoinedLength(s, lo + RunIn(s, lo, hi) + 1, hi, sep, ip[1..]);
      assert forall j :: 1 <= j < |ip| ==> ip[j] == ip[1..][j - 1];
    }
  }

  /** One octet of `c` digits, then `sep`, then the rest. */
  lemma JoinedCons(s: string, lo: nat, hi: nat, c: nat, sep: char, rest: seq<nat>)
    requires 0 < c && lo + c < hi <= |s| && DigitsIn(s, lo, lo + c)
    requires s[lo + c] == sep && !IsDigit(sep) && Value(s, lo, lo + c) < MaxOctetSize
    requires Joined(s, lo + c + 1, hi, sep, rest)
    ensures Joined(s, lo, hi, sep, [Value(s, lo, lo + c)] + rest)
  {
    RunInIs(s, lo, hi, c);
    assert ([Value(s, lo, lo + c)] + rest)[1..] == rest;
  }

  /** A single octet. */
  lemma JoinedOne(s: string, lo: nat, hi: nat, sep: char)
    requires lo < hi <= |s| && DigitsIn(s, lo, hi) && Value(s, lo, hi) < MaxOctetSize
    ensures Joined(s, lo, hi, sep, [Value(s, lo, hi)])
  {
    RunInIs(s, lo, hi, hi - lo);
  }

  /** `t` from `lo'` agrees with `s` on `s[lo..hi]`. */
  predicate Agree(s: string, lo: nat, hi: nat, t: string, lo': nat)
    requires lo <= hi <= |s| && lo' + (hi - lo) <= |t|
  {
    forall j :: lo <= j < hi ==> s[j] == t[lo' + (j - lo)]
  }

  /** Equal slices agree character by character. */
  lemma SliceAgree(s: string, lo: nat, hi: nat, t: string, lo': nat, hi': nat)
    requires lo <= hi <= |s| && hi' == lo' + (hi - lo) <= |t|
    requires s[lo..hi] == t[lo'..hi']
    ensures Agree(s, lo, hi, t, lo')
  {
    forall j | lo <= j < hi
      ensures s[j] == t[lo' + (j - lo)]
    {
      assert s[j] == s[lo..hi][j - lo];
    }
  }

  /** Agreeing digits have agreeing values. */
  lemma {:induction false} ValueAgree(s: string, lo: nat, hi: nat, t: string, lo': nat)
    requires lo <= hi <= |s| && lo' + (hi - lo) <= |t|
    requires Agree(s, lo, hi, t, lo') && DigitsIn(s, lo, hi)
    ensures DigitsIn(t, lo', lo' + (hi - lo))
    ensures Value(t, lo', lo' + (hi - lo)) == Value(s, lo, hi)
    decreases hi
  {
    forall j | lo' <= j < lo' + (hi - lo)
      ensures IsDigit(t[j])
    {
      assert t[j] == s[lo + (j - lo')];
    }
    if lo < hi {
      ValueAgree(s, lo, hi - 1, t, lo');
    }
  }

  /** Agreeing windows have equal digit runs, with equal values. */
  lemma RunTransfer(s: string, lo: nat, hi: nat, t: string, lo': nat, hi': nat)
    requires lo <= hi <= |s| && hi' == lo' + (hi - lo) <= |t|
    requires Agree(s, lo, hi, t, lo')
    ensures RunIn(t, lo', hi') == RunIn(s, lo, hi)
    ensures var c := RunIn(s, lo, hi);
            Value(t, lo', lo' + c) == Value(s, lo, lo + c)
  {
    var c := RunIn(s, lo, hi);
    ValueAgree(s, lo, lo + c, t, lo');
    if lo + c < hi {
      assert t[lo' + c] == s[lo + c];
    }
    RunInIs(t, lo', hi', c);
  }

  /** Equal slices agree at a position and after it. */
  lemma SliceStep(s: string, lo: nat, hi: nat, t: string, lo': nat, hi': nat, c: nat)
    requires lo + c < hi <= |s| && hi' == lo' + (hi - lo) <= |t|
    requires s[lo..hi] == t[lo'..hi']
    ensures s[lo + c] == t[lo' + c]
    ensures s[lo + c + 1..hi] == t[lo' + c + 1..hi']
  {
    assert s[lo + c] == s[lo..hi][c];
    assert t[lo' + c] == t[lo'..hi'][c];
    assert s[lo + c + 1..hi] == s[lo..hi][c + 1..];
    assert t[lo' + c + 1..hi'] == t[lo'..hi'][c + 1..];
  }

  /** Whether a window is joined depends only on the characters in it: a joined window of
      `s` copied into `t` is joined there too. */
  lemma {:induction false} JoinedTransfer(s: string, lo: nat, hi: nat, t: string, lo': nat, hi': nat,
                                          sep: char, ip: seq<nat>)
    requires lo <= hi <= |s| && hi' == lo' + (hi - lo) <= |t|
    requires s[lo..hi] == t[lo'..hi']
    requires Joined(s, lo, hi, sep, ip)
    ensures Joined(t, lo', hi', sep, ip)
    decreases |ip|
  {
    SliceAgree(s, lo, hi, t, lo', hi');
    RunTransfer(s, lo, hi, t, lo', hi');
    if |ip| > 1 {
      var c := RunIn(s, lo, hi);
      SliceStep(s, lo, hi, t, lo', hi', c);
      JoinedTransfer(s, lo + c + 1, hi, t, lo' + c + 1, hi', sep, ip[1..]);
    }
  }

  // ---------------------------------------------------------------------------------------
  // parseOctet

  /** Go's `(n int, i int, ok bool)`, with `end` the index in `s` where reading stopped. */
  datatype Octet = Octet(n: nat, end: nat, ok: bool)

  /** The loop of `parseOctet(s[at:])` at absolute index `i` with running value `n`. */
  function ParseOctetLoop(s: string, at: nat, i: nat, n: nat): (r: Octet)
    requires at <= i <= |s| && n < MaxOctetSize
    ensures at <= r.end <= |s|
    ensures r.ok ==> at < r.end && Maximal(s, r.end) && r.n < MaxOctetSize
    decreases |s| - i
  {
    if i < |s| && IsDigit(s[i]) then
      var n' := n * 10 + DigitValue(s[i]);
      if n' >= MaxOctetSize then Octet(MaxOctetSize, i, false)
      else ParseOctetLoop(s, at, i + 1, n')
    else if i == at then
      Octet(0, at, false)
    else
      Octet(n, i, true)
  }

  /** `parseOctet(s[at:])`. */
  function ParseOctet(s: string, at: nat): (r: Octet)
    requires at <= |s|
    ensures at <= r.end <= |s|
    ensures r.ok ==> at < r.end && Maximal(s, r.end) && r.n < MaxOctetSize
  {
    ParseOctetLoop(s, at, at, 0)
  }

  /** What `parseOctet` computes, stated against the digit run at `at`: success exactly on a
      non-empty run whose value is below 255, with that value and the whole run consumed; an
      empty run gives (0, 0, false); a run that reaches 255 gives 255 and stops at the digit
      that reached it. `from` is where the loop resumed. */
  predicate OctetMeetsSpec(s: string, at: nat, from: nat, r: Octet)
    requires at <= |s|
  {
    var run := RunIn(s, at, |s|);
    && (r.ok <==> 0 < run && Value(s, at, at + run) < MaxOctetSize)
    && (r.ok ==> r.n == Value(s, at, at + run) && r.end == at + run)
    && (!r.ok && run == 0 ==> r == Octet(0, at, false))
    && (!r.ok && 0 < run ==>
          && r.n == MaxOctetSize
          && at <= r.end && from <= r.end < at + run
          && Value(s, at, r.end) < MaxOctetSize
          && MaxOctetSize <= Value(s, at, r.end + 1))
  }

  lemma {:induction false} ParseOctetLoopSpec(s: string, at: nat, i: nat, n: nat)
    requires at <= |s| && at <= i <= at + RunIn(s, at, |s|)
    requires n == Value(s, at, i) && n < MaxOctetSize
    ensures OctetMeetsSpec(s, at, i, ParseOctetLoop(s, at, i, n))
    decreases |s| - i
  {
    if i < |s| && IsDigit(s[i]) {
      var n' := n * 10 + DigitValue(s[i]);
      if n' >= MaxOctetSize {
        ValueMonotone(s, at, i + 1, at + RunIn(s, at, |s|));
      } else {
        ParseOctetLoopSpec(s, at, i + 1, n');
      }
    }
  }

  lemma ParseOctetSpec(s: string, at: nat)
    requires at <= |s|
    ensures OctetMeetsSpec(s, at, at, ParseOctet(s, at))
  {
    ParseOctetLoopSpec(s, at, at, 0);
  }

  // ---------------------------------------------------------------------------------------
  // tryParseIPv4

  /** Go's `(net.IP, int)`: the four octets or nil, and `end`, the index in `s` where reading
      stopped (Go returns `end - at`, the number of bytes consumed). */
  datatype Parsed = Parsed(ip: Option<seq<nat>>, end: nat)

  /** The loop of `tryParseIPv4` from its second octet on: octet `i` is next, the scan is at
      absolute index `pos`, the octets `p` and the separator `lastSep` have been read. */
  function TryParseRest(s: string, pos: nat, i: nat, lastSep: char, p: seq<nat>): (r: Parsed)
    requires pos <= |s| && 0 < i <= 4 && |p| == i && Maximal(s, pos)
    requires i == 1 ==> lastSep == NoSep
    requires 1 < i ==> IsSep(lastSep)
    ensures pos <= r.end <= |s|
    ensures r.ip.Some? ==> |r.ip.value| == 4 && r.ip.value[..i] == p && Maximal(s, r.end)
    decreases 4 - i
  {
    if i == 4 then Parsed(Some(p), pos)
    else if pos == |s| then Parsed(None, pos)
    else if !IsSep(s[pos]) || (lastSep != NoSep && s[pos] != lastSep) then Parsed(None, pos)
    else
      var o := ParseOctet(s, pos + 1);
      if !o.ok || o.n > 0xFF then Parsed(None, pos + 1)
      else
        var r := TryParseRest(s, o.end, i + 1, s[pos], p + [o.n]);
        assert r.ip.Some? ==> r.ip.value[..i + 1][..i] == r.ip.value[..i];
        r
  }

  /** `tryParseIPv4(s[at:])`: reads four octets with three equal separators. On success the
      consumed text is followed by a non-digit or the end. The first turn of Go's loop reads
      an octet without a separator; `TryParseRest` is the rest of the loop. */
  function TryParseIPv4(s: string, at: nat): (r: Parsed)
    requires at <= |s|
    ensures at <= r.end <= |s|
    ensures r.ip.Some? ==> |r.ip.value| == 4 && Maximal(s, r.end)
  {
    if at == |s| then Parsed(None, at)
    else
      var o := ParseOctet(s, at);
      if !o.ok || o.n > 0xFF then Parsed(None, at)
      else TryParseRest(s, o.end, 1, NoSep, [o.n])
  }

  /** One turn of the loop after the first octet: separator, then octet. */
  lemma TryParseStep(s: string, pos: nat, i: nat, lastSep: char, p: seq<nat>)
    requires pos < |s| && 0 < i < 4 && |p| == i && Maximal(s, pos)
    requires i == 1 ==> lastSep == NoSep
    requires 1 < i ==> IsSep(lastSep)
    requires IsSep(s[pos]) && (lastSep != NoSep ==> s[pos] == lastSep)
    requires ParseOctet(s, pos + 1).ok
    ensures var o := ParseOctet(s, pos + 1);
            TryParseRest(s, pos, i, lastSep, p)
            == TryParseRest(s, o.end, i + 1, s[pos], p + [o.n])
  {
  }

  /** A successful later turn of the loop has seen a separator consistent with `lastSep`
      and an octet, and goes on after that octet. */
  lemma TryParseTurn(s: string, pos: nat, i: nat, lastSep: char, p: seq<nat>)
    requires pos <= |s| && 0 < i < 4 && |p| == i && Maximal(s, pos)
    requires i == 1 ==> lastSep == NoSep
    requires 1 < i ==> IsSep(lastSep)
    requires TryParseRest(s, pos, i, lastSep, p).ip.Some?
    ensures pos < |s| && IsSep(s[pos]) && (lastSep != NoSep ==> s[pos] == lastSep)
    ensures ParseOctet(s, pos + 1).ok
    ensures var o := ParseOctet(s, pos + 1);
            TryParseRest(s, pos, i, lastSep, p)
            == TryParseRest(s, o.end, i + 1, s[pos], p + [o.n])
  {
  }

  /** A successful parse has read a first octet and goes on after it. */
  lemma TryParseFirst(s: string, at: nat)
    requires at <= |s| && TryParseIPv4(s, at).ip.Some?
    ensures ParseOctet(s, at).ok
    ensures TryParseIPv4(s, at) == TryParseRest(s, ParseOctet(s, at).end, 1, NoSep, [ParseOctet(s, at).n])
  {
  }

  /** From the separator at `pos` on, the octet reader meets `sep` and then the field
      `rest[0]`, once per field, and the last field ends at `k`: the later turns of the loop,
      stated without the loop's bookkeeping. */
  predicate ReadsFields(s: string, pos: nat, sep: char, rest: seq<nat>, k: nat)
    requires pos <= |s|
    decreases |rest|
  {
    && 0 < |rest| && pos < |s| && s[pos] == sep
    && var o := ParseOctet(s, pos + 1);
       && o.ok && o.n == rest[0]
       && if |rest| == 1 then o.end == k else ReadsFields(s, o.end, sep, rest[1..], k)
  }

  /** The later turns of a successful loop read its remaining octets after one kind of
      separator, consistent with `lastSep`. */
  lemma {:induction false} RestReads(s: string, pos: nat, i: nat, lastSep: char, p: seq<nat>)
    requires pos <= |s| && 0 < i < 4 && |p| == i && Maximal(s, pos)
    requires i == 1 ==> lastSep == NoSep
    requires 1 < i ==> IsSep(lastSep)
    requires TryParseRest(s, pos, i, lastSep, p).ip.Some?
    ensures var r := TryParseRest(s, pos, i, lastSep, p);
            && pos < |s| && IsSep(s[pos]) && (lastSep != NoSep ==> s[pos] == lastSep)
            && ReadsFields(s, pos, s[pos], r.ip.value[i..], r.end)
    decreases 4 - i
  {
    var r := TryParseRest(s, pos, i, lastSep, p);
    var q := r.ip.value;
    TryParseTurn(s, pos, i, lastSep, p);
    var o := ParseOctet(s, pos + 1);
    assert q[..i + 1][i] == o.n;
    if i + 1 < 4 {
      RestReads(s, o.end, i + 1, s[pos], p + [o.n]);
      assert q[i..][1..] == q[i + 1..];
    }
  }

  /** Conversely, fields the loop can read in turn are what it reads. */
  lemma {:induction false} ReadsComplete(s: string, pos: nat, i: nat, lastSep: char, sep: char,
                                         p: seq<nat>, rest: seq<nat>, k: nat)
    requires pos <= |s| && 0 < i < 4 && |p| == i && |rest| == 4 - i && Maximal(s, pos)
    requires IsSep(sep) && (i == 1 ==> lastSep == NoSep) && (1 < i ==> lastSep == sep)
    requires ReadsFields(s, pos, sep, rest, k)
    ensures TryParseRest(s, pos, i, lastSep, p) == Parsed(Some(p + rest), k)
    decreases 4 - i
  {
    TryParseStep(s, pos, i, lastSep, p);
    var o := ParseOctet(s, pos + 1);
    if i + 1 < 4 {
      ReadsComplete(s, o.end, i + 1, sep, sep, p + [rest[0]], rest[1..], k);
      assert p + [rest[0]] + rest[1..] == p + rest;
    } else {
      assert p + [rest[0]] == p + rest;
    }
  }

  /** The octet read at `lo`, then `sep`, then a joined rest. */
  lemma JoinedOctetCons(s: string, lo: nat, hi: nat, sep: char, rest: seq<nat>)
    requires lo <= hi <= |s| && ParseOctet(s, lo).ok && IsSep(sep)
    requires ParseOctet(s, lo).end < hi && s[ParseOctet(s, lo).end] == sep
    requires Joined(s, ParseOctet(s, lo).end + 1, hi, sep, rest)
    ensures Joined(s, lo, hi, sep, [ParseOctet(s, lo).n] + rest)
  {
    ParseOctetSpec(s, lo);
    JoinedCons(s, lo, hi, ParseOctet(s, lo).end - lo, sep, rest);
  }

  /** The octet read at `lo`, alone. */
  lemma JoinedOctetOne(s: string, lo: nat, hi: nat, sep: char)
    requires lo <= hi <= |s| && ParseOctet(s, lo).ok && ParseOctet(s, lo).end == hi
    ensures Joined(s, lo, hi, sep, [ParseOctet(s, lo).n])
  {
    ParseOctetSpec(s, lo);
    JoinedOne(s, lo, hi, sep);
  }

  /** Fields read in turn after separators form a joined text. */
  lemma {:induction false} ReadsJoined(s: string, pos: nat, sep: char, rest: seq<nat>, k: nat)
    requires pos <= |s| && IsSep(sep) && ReadsFields(s, pos, sep, rest, k)
    ensures pos < k <= |s| && Joined(s, pos + 1, k, sep, rest)
    decreases |rest|
  {
    var o := ParseOctet(s, pos + 1);
    if |rest| > 1 {
      ReadsJoined(s, o.end, sep, rest[1..], k);
      JoinedOctetCons(s, pos + 1, k, sep, rest[1..]);
      assert [rest[0]] + rest[1..] == rest;
    } else {
      JoinedOctetOne(s, pos + 1, k, sep);
      assert [rest[0]] == rest;
    }
  }

  /** The octet the scanner reads at `lo` is the first field of a joined window there. */
  lemma OctetOfJoined(s: string, lo: nat, hi: nat, sep: char, ip: seq<nat>)
    requires lo <= hi <= |s| && Maximal(s, hi) && !IsDigit(sep) && Joined(s, lo, hi, sep, ip)
    ensures var o := ParseOctet(s, lo);
            && o.ok && o.n == ip[0] && o.end == lo + RunIn(s, lo, hi)
            && (|ip| == 1 ==> o.end == hi)
            && (|ip| > 1 ==> o.end < hi && s[o.end] == sep && Joined(s, o.end + 1, hi, sep, ip[1..]))
  {
    RunInWindow(s, lo, hi);
    ParseOctetSpec(s, lo);
  }

  /** A joined text that ends a digit run is read field by field. */
  lemma {:induction false} JoinedReads(s: string, pos: nat, k: nat, sep: char, rest: seq<nat>)
    requires pos < k <= |s| && Maximal(s, k) && IsSep(sep) && s[pos] == sep
    requires Joined(s, pos + 1, k, sep, rest)
    ensures ReadsFields(s, pos, sep, rest, k)
    decreases |rest|
  {
    OctetOfJoined(s, pos + 1, k, sep, rest);
    if |rest| > 1 {
      JoinedReads(s, ParseOctet(s, pos + 1).end, k, sep, rest[1..]);
    }
  }

  /** Soundness of `tryParseIPv4`: what it accepts spells its four octets with one kind of
      separator. */
  lemma TryParseSound(s: string, at: nat)
    requires at <= |s| && TryParseIPv4(s, at).ip.Some?
    ensures var r := TryParseIPv4(s, at);
            Spells(s, at, r.end, r.ip.value)
  {
    var r := TryParseIPv4(s, at);
    var q := r.ip.value;
    TryParseFirst(s, at);
    var o := ParseOctet(s, at);
    RestReads(s, o.end, 1, NoSep, [o.n]);
    ReadsJoined(s, o.end, s[o.end], q[1..], r.end);
    assert q[..1] == [o.n];
    JoinedOctetCons(s, at, r.end, s[o.end], q[1..]);
    assert [q[0]] + q[1..] == q;
  }

  /** A joined window of four fields that ends a digit run: its first octet, then the rest
      read field by field. */
  lemma JoinedReadsAll(s: string, at: nat, k: nat, sep: char, ip: seq<nat>)
    requires at <= k <= |s| && IsSep(sep) && |ip| == 4
    requires Joined(s, at, k, sep, ip) && Maximal(s, k)
    ensures var o := ParseOctet(s, at);
            && o.ok && o.n == ip[0] && o.end < k
            && ReadsFields(s, o.end, sep, ip[1..], k)
  {
    OctetOfJoined(s, at, k, sep, ip);
    JoinedReads(s, ParseOctet(s, at).end, k, sep, ip[1..]);
  }

  /** Converse of soundness: a window that spells four octets with one separator kind, and
      ends a digit run, is exactly what `tryParseIPv4` reads. */
  lemma TryParseComplete(s: string, at: nat, k: nat, sep: char, ip: seq<nat>)
    requires at <= k <= |s| && IsSep(sep) && |ip| == 4
    requires Joined(s, at, k, sep, ip) && Maximal(s, k)
    ensures TryParseIPv4(s, at) == Parsed(Some(ip), k)
  {
    JoinedReadsAll(s, at, k, sep, ip);
    var o := ParseOctet(s, at);
    ReadsComplete(s, o.end, 1, NoSep, sep, [o.n], ip[1..], k);
    assert [ip[0]] + ip[1..] == ip;
  }

  // ---------------------------------------------------------------------------------------
  // Rendering: `net.IPv4(a, b, c, d).String()`

  /** Dotted-decimal form of four octets, without leading zeros. */
  function Render(ip: seq<nat>): string
    requires |ip| == 4
  {
    Decimal(ip[0]) + "." + (Decimal(ip[1]) + "." + (Decimal(ip[2]) + "." + Decimal(ip[3])))
  }

  /** The rendering of one value is a joined field. */
  lemma JoinedDecimal(n: nat, sep: char)
    requires n < MaxOctetSize
    ensures Joined(Decimal(n), 0, |Decimal(n)|, sep, [n])
  {
    var d := Decimal(n);
    ValueIsDecimalValue(d, 0, |d|);
    assert d[0..|d|] == d;
    JoinedOne(d, 0, |d|, sep);
  }

  /** Digits `d` followed by "." and a joined tail form a joined text one field longer. */
  lemma JoinedDigitsCons(d: string, tail: string, rest: seq<nat>)
    requires 0 < |d| && AllDigits(d) && DecimalValue(d) < MaxOctetSize
    requires Joined(tail, 0, |tail|, '.', rest)
    ensures Joined(d + "." + tail, 0, |d + "." + tail|, '.', [DecimalValue(d)] + rest)
  {
    var t := d + "." + tail;
    var c := |d|;
    assert t[c + 1..|t|] == tail[0..|tail|];
    JoinedTransfer(tail, 0, |tail|, t, c + 1, |t|, '.', rest);
    assert t[0..c] == d;
    assert DigitsIn(t, 0, c);
    ValueIsDecimalValue(t, 0, c);
    JoinedCons(t, 0, |t|, c, '.', rest);
  }

  /** `Decimal(n)` followed by "." and a joined tail is a joined text one octet longer. */
  lemma JoinedDecimalCons(n: nat, tail: string, rest: seq<nat>)
    requires n < MaxOctetSize && Joined(tail, 0, |tail|, '.', rest)
    ensures Joined(Decimal(n) + "." + tail, 0, |Decimal(n) + "." + tail|, '.', [n] + rest)
  {
    JoinedDigitsCons(Decimal(n), tail, rest);
  }

  /** The rendering spells its octets with '.' separators. */
  lemma RenderJoined(ip: seq<nat>)
    requires |ip| == 4 && forall j :: 0 <= j < 4 ==> ip[j] < MaxOctetSize
    ensures Joined(Render(ip), 0, |Render(ip)|, '.', ip)
  {
    var t3 := Decimal(ip[3]);
    JoinedDecimal(ip[3], '.');
    var t2 := Decimal(ip[2]) + "." + t3;
    JoinedDecimalCons(ip[2], t3, [ip[3]]);
    assert [ip[2]] + [ip[3]] == [ip[2], ip[3]];
    var t1 := Decimal(ip[1]) + "." + t2;
    JoinedDecimalCons(ip[1], t2, [ip[2], ip[3]]);
    assert [ip[1]] + [ip[2], ip[3]] == [ip[1], ip[2], ip[3]];
    var t0 := Decimal(ip[0]) + "." + t1;
    JoinedDecimalCons(ip[0], t1, [ip[1], ip[2], ip[3]]);
    assert [ip[0]] + [ip[1], ip[2], ip[3]] == ip;
    assert Render(ip) == t0;
  }

  /** A joined text stays joined, and ends a digit run, in front of any text that does not
      continue it with a digit. */
  lemma JoinedExtend(r: string, rest: string, ip: seq<nat>)
    requires Joined(r, 0, |r|, '.', ip)
    requires rest == [] || !IsDigit(rest[0])
    ensures |r| <= |r + rest| && Joined(r + rest, 0, |r|, '.', ip) && Maximal(r + rest, |r|)
  {
    var s := r + rest;
    assert r[0..|r|] == s[0..|r|];
    JoinedTransfer(r, 0, |r|, s, 0, |r|, '.', ip);
  }

  /** A joined text of four fields is read back whole from the front of any text that does
      not continue it with a digit. */
  lemma JoinedPrefixParses(r: string, rest: string, ip: seq<nat>)
    requires |ip| == 4 && Joined(r, 0, |r|, '.', ip)
    requires rest == [] || !IsDigit(rest[0])
    ensures TryParseIPv4(r + rest, 0) == Parsed(Some(ip), |r|)
  {
    JoinedExtend(r, rest, ip);
    TryParseComplete(r + rest, 0, |r|, '.', ip);
  }

  /** Round trip: the scanner reads a rendered address back, from any text that does not
      continue it with a digit. */
  lemma RenderRoundTrip(ip: seq<nat>, rest: string)
    requires |ip| == 4 && forall j :: 0 <= j < 4 ==> ip[j] < MaxOctetSize
    requires rest == [] || !IsDigit(rest[0])
    ensures TryParseIPv4(Render(ip) + rest, 0) == Parsed(Some(ip), |Render(ip)|)
  {
    RenderJoined(ip);
    JoinedPrefixParses(Render(ip), rest, ip);
  }

  // ---------------------------------------------------------------------------------------
  // FindNextIPv4

  /** Go's `(string, int, int)`: normalised address or "", and the start (inclusive) and end
      (exclusive) of the match as indices into `s`; with no match, `start` is 0 and `end` is
      where the scan stopped. */
  datatype Found = Found(ip: string, start: nat, end: nat)

  predicate Candidate(c: char) { '1' <= c <= '9' }

  /** The loop of `FindNextIPv4` at index `i`. */
  function FindLoop(s: string, i: nat): (r: Found)
    requires i <= |s| + 1
    ensures r.ip != [] ==>
              && i <= r.start < r.end <= |s|
              && Candidate(s[r.start])
              && var p := TryParseIPv4(s, r.start);
                 && p.ip.Some?
                 && r.end == p.end
                 && r.ip == Render(p.ip.value)
    ensures r.ip == [] ==> r.start == 0 && |s| <= r.end <= |s| + 1 && i <= r.end
    decreases |s| + 1 - i
  {
    if i >= |s| then Found("", 0, i)
    else if Candidate(s[i]) then
      var p := TryParseIPv4(s, i);
      if p.ip.Some? then Found(Render(p.ip.value), i, p.end)
      else FindLoop(s, p.end + 1)
    else FindLoop(s, i + 1)
  }

  /** `FindNextIPv4(s[at:])`: the first address in scan order, as its normalised dotted form
      and its span; candidates start only at '1'..'9', and a failed candidate skips the text
      it consumed. With no match the scan stops at the end of `s` or one past it. */
  function FindNextIPv4(s: string, at: nat): (r: Found)
    requires at <= |s|
    ensures r.ip != [] ==>
              && at <= r.start < r.end <= |s|
              && Candidate(s[r.start])
              && var p := TryParseIPv4(s, r.start);
                 && p.ip.Some?
                 && r.end == p.end
                 && r.ip == Render(p.ip.value)
    ensures r.ip == [] ==> r.start == 0 && |s| <= r.end <= |s| + 1
  {
    FindLoop(s, at)
  }

  /** The scan misses no candidate it reaches: from `i`, with no candidate before `j` and an
      address parsing at `j`, the loop reports the address at `j`. */
  lemma {:induction false} FindLoopFinds(s: string, i: nat, j: nat)
    requires i <= j < |s| && Candidate(s[j]) && TryParseIPv4(s, j).ip.Some?
    requires forall k :: i <= k < j ==> !Candidate(s[k])
    ensures FindLoop(s, i).ip != [] && FindLoop(s, i).start == j
    decreases j - i
  {
    if i < j {
      FindLoopFinds(s, i + 1, j);
    }
  }

  /** `FindNextIPv4` reports the first candidate from `at` on when an address parses there:
      the scan skips text only inside a candidate that failed to parse. */
  lemma FindNextFirstCandidate(s: string, at: nat, j: nat)
    requires at <= j < |s| && Candidate(s[j]) && TryParseIPv4(s, j).ip.Some?
    requires forall k :: at <= k < j ==> !Candidate(s[k])
    ensures var f := FindNextIPv4(s, at);
            && f.ip == Render(TryParseIPv4(s, j).ip.value)
            && f.start == j && f.end == TryParseIPv4(s, j).end
  {
    FindLoopFinds(s, at, j);
  }

  /** Text without a '1'..'9' holds no address for the scanner to find. */
  lemma {:induction false} NoCandidateNoMatch(s: string, i: nat)
    requires i <= |s| + 1 && forall j :: i <= j < |s| ==> !Candidate(s[j])
    ensures FindLoop(s, i).ip == []
    decreases |s| + 1 - i
  {
    if i < |s| {
      NoCandidateNoMatch(s, i + 1);
    }
  }

  /** ... so no scan from any position finds one. */
  lemma NoCandidateNowhere(s: string)
    requires forall j :: 0 <= j < |s| ==> !Candidate(s[j])
    ensures forall j :: 0 <= j <= |s| ==> FindNextIPv4(s, j).ip == []
  {
    forall j | 0 <= j <= |s| ensures FindNextIPv4(s, j).ip == [] {
      NoCandidateNoMatch(s, j);
    }
  }

  // ---------------------------------------------------------------------------------------
  // Literals and their normalised form

  /** `k` is exactly one address spelling the scanner accepts. */
  predicate IsLiteral(k: string) {
    var p := TryParseIPv4(k, 0);
    p.ip.Some? && p.end == |k|
  }

  /** The dotted form the scanner reports for a literal. */
  function Normalized(k: string): string
    requires IsLiteral(k)
  {
    Render(TryParseIPv4(k, 0).ip.value)
  }

  /** The normalised form is itself a literal and is its own normalised form. */
  lemma NormalizedIdempotent(k: string)
    requires IsLiteral(k)
    ensures IsLiteral(Normalized(k)) && Normalized(Normalized(k)) == Normalized(k)
  {
    var ip := TryParseIPv4(k, 0).ip.value;
    TryParseSound(k, 0);
    var sep := if Joined(k, 0, |k|, '.', ip) then '.' else '-';
    JoinedLength(k, 0, |k|, sep, ip);
    RenderRoundTrip(ip, "");
    assert Render(ip) + "" == Render(ip);
  }

  /** A span the scanner accepts, cut out of its text, is accepted whole. */
  lemma SpanIsLiteral(s: string, lo: nat)
    requires lo <= |s| && TryParseIPv4(s, lo).ip.Some?
    ensures var p := TryParseIPv4(s, lo);
            && TryParseIPv4(s[lo..p.end], 0) == Parsed(p.ip, p.end - lo)
            && p.end - lo >= 7
  {
    var p := TryParseIPv4(s, lo);
    var ip := p.ip.value;
    var lit := s[lo..p.end];
    TryParseSound(s, lo);
    var sep := if Joined(s, lo, p.end, '.', ip) then '.' else '-';
    assert lit[0..|lit|] == s[lo..p.end];
    JoinedTransfer(s, lo, p.end, lit, 0, |lit|, sep, ip);
    TryParseComplete(lit, 0, |lit|, sep, ip);
    JoinedLength(lit, 0, |lit|, sep, ip);
  }

  /** A matched span, read on its own, is a literal whose normalised form is the reported
      address, and it has at least seven characters ("1.1.1.1"). */
  lemma MatchIsLiteral(s: string, at: nat)
    requires at <= |s| && FindNextIPv4(s, at).ip != []
    ensures var f := FindNextIPv4(s, at);
            && IsLiteral(s[f.start..f.end])
            && Normalized(s[f.start..f.end]) == f.ip
            && IsLiteral(f.ip) && Normalized(f.ip) == f.ip
            && f.end - f.start >= 7
  {
    var f := FindNextIPv4(s, at);
    SpanIsLiteral(s, f.start);
    NormalizedIdempotent(s[f.start..f.end]);
  }
}
