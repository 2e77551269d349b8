/** The replacement generator each obfuscator owns. The generator's own source is not part of
    this model; what the obfuscators rely on is modelled: a static placeholder per address
    family, and a consistent value made by formatting a counter that starts at 1 and grows by
    one per generated value, into the family's `%0<width>d` template. */
module Generator {
  import opened Wrappers
  import opened Text

  /** A replacement family: its `fmt` template split around the `%0<width>d` verb, the static
      placeholder, and the largest counter the template was sized for. */
  datatype Template = Template(prefix: string, width: nat, suffix: string, placeholder: string, max: nat)

  /** `consistentIPv4Template` "x-ipv4-%010d-x" and `obfuscatedStaticIPv4`. */
  const Ipv4Template: Template := Template("x-ipv4-", 10, "-x", "xxx.xxx.xxx.xxx", 9999999999)

  /** `consistentIPv6Template` "xx-ipv6-%018d-xx" and `obfuscatedStaticIPv6`. */
  const Ipv6Template: Template :=
    Template("xx-ipv6-", 18, "-xx", "xxxx:xxxx:xxxx:xxxx:xxxx:xxxx:xxxx:xxxx", 999999999999999999)

  /** `consistentMACTemplate` "xxx-mac-%06d-xxx" and `staticMacReplacement`. */
  const MacTemplate: Template := Template("xxx-mac-", 6, "-xxx", "xx:xx:xx:xx:xx:xx", 999999)

  /** `fmt.Sprintf(template, n)` for a non-negative `n`. */
  function Format(t: Template, n: nat): string
  {
    t.prefix + ZeroPad(Decimal(n), t.width) + t.suffix
  }

  /** The counter a consistent value was formatted from: the decimal digits between the
      template's prefix and suffix, if the value has that shape. */
  function CounterOf(t: Template, r: string): Option<nat>
  {
    var p := |t.prefix|;
    var x := |t.suffix|;
    if p + x <= |r| && r[..p] == t.prefix && r[|r| - x..] == t.suffix && AllDigits(r[p..|r| - x])
    then Some(DecimalValue(r[p..|r| - x]))
    else None
  }

  /** Reading the counter back out of a formatted value gives the counter. */
  lemma FormatRoundTrip(t: Template, n: nat)
    ensures CounterOf(t, Format(t, n)) == Some(n)
  {
    var d := ZeroPad(Decimal(n), t.width);
    var r := Format(t, n);
    var p := |t.prefix|;
    assert r[..p] == t.prefix;
    assert r[|r| - |t.suffix|..] == t.suffix;
    assert r[p..|r| - |t.suffix|] == d;
    PaddedDecimalValue(n, t.width);
  }

  /** Distinct counters give distinct values. */
  lemma FormatInjective(t: Template, m: nat, n: nat)
    requires Format(t, m) == Format(t, n)
    ensures m == n
  {
    FormatRoundTrip(t, m);
    FormatRoundTrip(t, n);
  }

  /** The generator's state: its family and the counter the next consistent value uses. */
  datatype Generator = Generator(template: Template, next: nat)

  /** `newGenerator(...)`: the counter starts at 1. */
  function NewGenerator(t: Template): Generator
  {
    Generator(t, 1)
  }

  /** A consistent value and the generator that issued it, advanced by one. */
  datatype Generated = Generated(value: string, after: Generator)

  /** `generateConsistentReplacement`: formats the current counter and moves past it. */
  function GenerateConsistent(g: Generator): (r: Generated)
    ensures CounterOf(g.template, r.value) == Some(g.next)
    ensures r.after.template == g.template && r.after.next > g.next
  {
    FormatRoundTrip(g.template, g.next);
    Generated(Format(g.template, g.next), Generator(g.template, g.next + 1))
  }

  /** `generateStaticReplacement`: the family's placeholder, whatever the key. */
  function GenerateStatic(g: Generator): string
  {
    g.template.placeholder
  }

  /** A generator never issues the same consistent value twice: every later state has a
      larger counter, and distinct counters format to distinct values. */
  lemma ConsistentFresh(g: Generator, h: Generator)
    requires g.template == h.template && g.next < h.next
    ensures GenerateConsistent(g).value != GenerateConsistent(h).value
  {
    if GenerateConsistent(g).value == GenerateConsistent(h).value {
      FormatInjective(g.template, g.next, h.next);
    }
  }

  /** The first consistent value of any family: the counter 1, padded to the template's width. */
  lemma FirstValue(t: Template)
    requires t.width > 0
    ensures GenerateConsistent(NewGenerator(t)).value == t.prefix + Zeros(t.width - 1) + "1" + t.suffix
  {
    assert Decimal(1) == "1";
  }

  /** The first IPv6 consistent value, as the consistent-replacement test expects it. */
  lemma FirstIpv6Value()
    ensures GenerateConsistent(NewGenerator(Ipv6Template)).value == "xx-ipv6-" + "000000000000000001" + "-xx"
  {
    FirstValue(Ipv6Template);
    var z := Zeros(17);
    assert z + "1" == "000000000000000001" by {
      assert forall j :: 0 <= j < 17 ==> z[j] == '0';
    }
  }

  /** The first IPv4 consistent value. */
  lemma FirstIpv4Value()
    ensures GenerateConsistent(NewGenerator(Ipv4Template)).value == "x-ipv4-" + "0000000001" + "-x"
  {
    FirstValue(Ipv4Template);
    var z := Zeros(9);
    assert z + "1" == "0000000001" by {
      assert forall j :: 0 <= j < 9 ==> z[j] == '0';
    }
  }
}
