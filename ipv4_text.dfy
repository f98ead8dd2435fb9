/** The dotted-decimal text form of IPv4 addresses: the formatting done by
    `inet_ntop(AF_INET, ..)` and by `Ipv4Addr`'s `Display`, and the strict
    parsing done by `Ipv4Addr`'s `FromStr` (four groups of one to three
    decimal digits, no leading zeros, each at most 255, separated by dots). */
module Ipv4Text {
  import opened Types

  /** An IPv4 address as its four octets in network order (Rust `Ipv4Addr`). */
  type Octets = s: seq<byte> | |s| == 4 witness [0, 0, 0, 0]

  predicate IsDigit(c: char) { '0' <= c <= '9' }

  predicate AllDigits(s: string) { forall i | 0 <= i < |s| :: IsDigit(s[i]) }

  /** A decimal numeral written without leading zeros. */
  predicate Canonical(s: string) {
    |s| >= 1 && AllDigits(s) && (|s| == 1 || s[0] != '0')
  }

  function DigitChar(d: nat): (c: char)
    requires d < 10
    ensures IsDigit(c)
  {
    (48 + d) as char
  }

  function DigitValue(c: char): (d: nat)
    requires IsDigit(c)
    ensures d < 10 && DigitChar(d) == c
  {
    c as int - 48
  }

  /** The decimal numeral of `n`. */
  function Decimal(n: nat): (s: string)
    ensures Canonical(s)
    ensures n < 10 <==> |s| == 1
  {
    if n < 10 then [DigitChar(n)] else Decimal(n / 10) + [DigitChar(n % 10)]
  }

  /** The value of a string of decimal digits, most significant first. */
  function DigitsValue(s: string): nat
    requires AllDigits(s)
  {
    if s == [] then 0 else DigitsValue(s[..|s| - 1]) * 10 + DigitValue(s[|s| - 1])
  }

  lemma {:induction false} DecimalRoundTrip(n: nat)
    ensures DigitsValue(Decimal(n)) == n
  {
    if n >= 10 {
      var s := Decimal(n);
      assert s[..|s| - 1] == Decimal(n / 10);
      DecimalRoundTrip(n / 10);
    }
  }

  lemma {:induction false} LeadingDigitPositive(s: string)
    requires |s| >= 1 && AllDigits(s) && s[0] != '0'
    ensures DigitsValue(s) >= 1
  {
    if |s| > 1 {
      LeadingDigitPositive(s[..|s| - 1]);
    }
  }

  lemma {:induction false} CanonicalRoundTrip(s: string)
    requires Canonical(s)
    ensures Decimal(DigitsValue(s)) == s
  {
    if |s| > 1 {
      var init := s[..|s| - 1];
      LeadingDigitPositive(init);
      CanonicalRoundTrip(init);
      assert s == init + [s[|s| - 1]];
    }
  }

  lemma ShortDecimal(n: nat)
    requires n < 1000
    ensures |Decimal(n)| <= 3
  {
    if n >= 10 {
      if n >= 100 {
        assert |Decimal(n / 100)| == 1;
      }
      assert |Decimal(n / 10)| <= 2;
    }
  }

  /** One group of a dotted quad, as `Ipv4Addr`'s parser reads it. */
  function ParseOctet(p: string): (r: Option<byte>)
    ensures r.Some? <==> Canonical(p) && |p| <= 3 && DigitsValue(p) < 256
    ensures r.Some? ==> Decimal(r.value as int) == p
  {
    if 1 <= |p| <= 3 && AllDigits(p) && (|p| == 1 || p[0] != '0') && DigitsValue(p) < 256
    then
      var n := DigitsValue(p);
      CanonicalRoundTrip(p);
      Some(ByteOf(n))
    else None
  }

  /** The octet of value `n`, `n as u8` for `n` below 256. */
  function ByteOf(n: nat): (b: byte)
    requires n < 256
    ensures b as int == n
  {
    if n == 0 then 0 else ByteOf(n - 1) + 1
  }

  /** Every octet is the octet of its own value. */
  lemma {:induction false} ByteOfValue(b: byte)
    ensures ByteOf(b as int) == b
    decreases b as int
  {
    if b != 0 {
      assert (b - 1) as int == b as int - 1;
      ByteOfValue(b - 1);
    }
  }

  /** The text of `s` cut at every dot. */
  function Split(s: string): (parts: seq<string>)
    ensures |parts| >= 1
    ensures forall i | 0 <= i < |parts| :: '.' !in parts[i]
  {
    if s == [] then [[]]
    else
      var rest := Split(s[1..]);
      if s[0] == '.' then [[]] + rest else [[s[0]] + rest[0]] + rest[1..]
  }

  /** The parts written one after another with a dot between neighbours. */
  function Join(parts: seq<string>): string
    requires |parts| >= 1
  {
    if |parts| == 1 then parts[0] else parts[0] + "." + Join(parts[1..])
  }

  lemma {:induction false} JoinSplit(s: string)
    ensures Join(Split(s)) == s
  {
    if s != [] {
      var rest := Split(s[1..]);
      JoinSplit(s[1..]);
      if s[0] != '.' {
        var parts := Split(s);
        if |rest| == 1 {
          assert Join(parts) == [s[0]] + rest[0];
        } else {
          assert parts[1..] == rest[1..];
          assert Join(rest) == rest[0] + "." + Join(rest[1..]);
        }
      }
    }
  }

  lemma {:induction false} SplitJoin(parts: seq<string>)
    requires |parts| >= 1
    requires forall i | 0 <= i < |parts| :: '.' !in parts[i]
    ensures Split(Join(parts)) == parts
  {
    if |parts| == 1 {
      SplitUndotted(parts[0]);
    } else {
      SplitJoin(parts[1..]);
      SplitDottedTail(parts[0], Join(parts[1..]));
      assert parts == [parts[0]] + parts[1..];
    }
  }

  lemma {:induction false} SplitUndotted(p: string)
    requires '.' !in p
    ensures Split(p) == [p]
  {
    if p != [] {
      assert '.' !in p[1..] && p[0] != '.';
      SplitUndotted(p[1..]);
      assert p == [p[0]] + p[1..];
    }
  }

  lemma {:induction false} SplitDottedTail(p: string, tail: string)
    requires '.' !in p
    ensures Split(p + "." + tail) == [p] + Split(tail)
  {
    if p == [] {
      assert ([] + "." + tail)[1..] == tail;
    } else {
      var whole := p + "." + tail;
      assert whole[0] == p[0] != '.';
      assert whole[1..] == p[1..] + "." + tail;
      assert '.' !in p[1..];
      SplitDottedTail(p[1..], tail);
      assert p == [p[0]] + p[1..];
    }
  }

  /** Dotted-decimal text of an address, "a.b.c.d". */
  function Format(o: Octets): (s: string)
  {
    Join([Decimal(o[0] as int), Decimal(o[1] as int), Decimal(o[2] as int), Decimal(o[3] as int)])
  }

  /** Strict dotted-decimal parsing: `None` for anything that is not exactly
      four canonical groups with values at most 255. */
  function Parse(s: string): (r: Option<Octets>)
  {
    var parts := Split(s);
    if |parts| == 4 && ParseOctet(parts[0]).Some? && ParseOctet(parts[1]).Some?
       && ParseOctet(parts[2]).Some? && ParseOctet(parts[3]).Some?
    then Some([ParseOctet(parts[0]).value, ParseOctet(parts[1]).value,
               ParseOctet(parts[2]).value, ParseOctet(parts[3]).value])
    else None
  }

  /** The numeral of one octet is a group that parses back to that octet. */
  lemma GroupRoundTrip(b: byte)
    ensures '.' !in Decimal(b as int)
    ensures ParseOctet(Decimal(b as int)) == Some(b)
  {
    var n := b as int;
    ShortDecimal(n);
    DecimalRoundTrip(n);
    ByteOfValue(b);
  }

  /** Text whose dot-separated groups are the numerals of `o` parses to `o`. */
  lemma ParseGroups(s: string, o: Octets)
    requires |Split(s)| == 4
    requires ParseOctet(Split(s)[0]) == Some(o[0]) && ParseOctet(Split(s)[1]) == Some(o[1])
    requires ParseOctet(Split(s)[2]) == Some(o[2]) && ParseOctet(Split(s)[3]) == Some(o[3])
    ensures Parse(s) == Some(o)
  {
    assert [o[0], o[1], o[2], o[3]] == o;
  }

  /** Every formatted address parses back to itself. */
  lemma ParseFormat(o: Octets)
    ensures Parse(Format(o)) == Some(o)
  {
    var groups := [Decimal(o[0] as int), Decimal(o[1] as int), Decimal(o[2] as int), Decimal(o[3] as int)];
    GroupRoundTrip(o[0]);
    GroupRoundTrip(o[1]);
    GroupRoundTrip(o[2]);
    GroupRoundTrip(o[3]);
    SplitJoin(groups);
    var text := Join(groups);
    ParseGroups(text, o);
    assert text == Format(o);
  }

  /** Parsing accepts only the formatted text: whatever parses is the
      formatting of what it parses to. */
  lemma FormatParse(s: string)
    requires Parse(s).Some?
    ensures Format(Parse(s).value) == s
  {
    var parts := Split(s);
    var o := Parse(s).value;
    var groups := [Decimal(o[0] as int), Decimal(o[1] as int), Decimal(o[2] as int), Decimal(o[3] as int)];
    assert groups[0] == parts[0] && groups[1] == parts[1];
    assert groups[2] == parts[2] && groups[3] == parts[3];
    assert groups == parts;
    JoinSplit(s);
    assert Format(o) == Join(groups);
  }

  /** Formatting loses nothing: distinct addresses have distinct texts. */
  lemma FormatInjective(o1: Octets, o2: Octets)
    requires Format(o1) == Format(o2)
    ensures o1 == o2
  {
    ParseFormat(o1);
    ParseFormat(o2);
  }
}
