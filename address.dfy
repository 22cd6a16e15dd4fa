/** The IPv4 test behind `ipaddress.ip_address(ip).version == 4`.
  *
  * This follows CPython's IPv4Address parser from version 3.9.5 on: exactly four
  * '.'-separated parts, each one to three ASCII digits, no leading zero, value at most 255.
  * Older Python versions also accepted leading zeros; that variant is not modelled. */
module Address {
  import opened Text

  /** One part of a dotted quad as the parser accepts it. */
  predicate IsOctet(o: string) {
    1 <= |o| <= 3 && AllDigits(o) && (|o| == 1 || o[0] != '0') && DigitsValue(o) <= 255
  }

  predicate IsIPv4(s: string) {
    var parts := Split(s, '.');
    |parts| == 4 && IsOctet(parts[0]) && IsOctet(parts[1]) && IsOctet(parts[2]) && IsOctet(parts[3])
  }

  /** The canonical text of the address a.b.c.d. */
  function Quad(a: nat, b: nat, c: nat, d: nat): string {
    Join([NatToString(a), NatToString(b), NatToString(c), NatToString(d)], ".")
  }

  lemma DigitsValueAtLeastFirst(s: string)
    requires |s| >= 1 && AllDigits(s)
    ensures DigitsValue(s) >= DigitValue(s[0])
    decreases |s|
  {
    if |s| > 1 {
      DigitsValueAtLeastFirst(s[..|s| - 1]);
    }
  }

  /** A digit string without a leading zero is the `str` of its value. */
  lemma {:induction false} CanonicalDigits(o: string)
    requires |o| >= 1 && AllDigits(o) && (|o| == 1 || o[0] != '0')
    ensures NatToString(DigitsValue(o)) == o
    decreases |o|
  {
    var n := DigitsValue(o);
    if |o| > 1 {
      var init := o[..|o| - 1];
      assert init[0] == o[0];
      DigitsValueAtLeastFirst(init);
      CanonicalDigits(init);
      assert n / 10 == DigitsValue(init) && n % 10 == DigitValue(o[|o| - 1]);
      assert o == init + [o[|o| - 1]];
    }
  }

  lemma NatToStringShort(n: nat)
    requires n < 1000
    ensures |NatToString(n)| <= 3
  {
    if n >= 10 {
      assert |NatToString(n)| == |NatToString(n / 10)| + 1;
      if n / 10 >= 10 {
        assert |NatToString(n / 10)| == |NatToString(n / 10 / 10)| + 1;
      }
    }
  }

  lemma OctetText(x: nat)
    requires x <= 255
    ensures IsOctet(NatToString(x)) && '.' !in NatToString(x)
  {
    NatToStringShort(x);
    NatToStringRoundTrip(x);
  }

  /** Every address a.b.c.d with parts at most 255, written canonically, is accepted,
    * and splitting it gives back its four parts. */
  lemma QuadIsIPv4(a: nat, b: nat, c: nat, d: nat)
    requires a <= 255 && b <= 255 && c <= 255 && d <= 255
    ensures IsIPv4(Quad(a, b, c, d))
    ensures Split(Quad(a, b, c, d), '.') == [NatToString(a), NatToString(b), NatToString(c), NatToString(d)]
  {
    OctetText(a); OctetText(b); OctetText(c); OctetText(d);
    JoinSplit([NatToString(a), NatToString(b), NatToString(c), NatToString(d)], '.');
  }

  /** And every accepted string is such a canonical address. */
  lemma IPv4IsQuad(s: string)
    requires IsIPv4(s)
    ensures var p := Split(s, '.');
      s == Quad(DigitsValue(p[0]), DigitsValue(p[1]), DigitsValue(p[2]), DigitsValue(p[3]))
  {
    var p := Split(s, '.');
    SplitJoin(s, '.');
    CanonicalDigits(p[0]); CanonicalDigits(p[1]); CanonicalDigits(p[2]); CanonicalDigits(p[3]);
    assert p == [p[0], p[1], p[2], p[3]];
  }

  /** An accepted address is non-empty and has no line break, so it fits on one output line. */
  lemma IPv4IsOneLine(s: string)
    requires IsIPv4(s)
    ensures s != "" && '\n' !in s
  {
    var p := Split(s, '.');
    SplitJoin(s, '.');
    JoinAvoids(p, ".", '\n');
  }
}
