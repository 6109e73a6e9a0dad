/** What the texts of addresses look like, and what parsing makes of texts that were not printed
    (src/compact.cpp:314-342, 374-472). */
module AddressText {
  import opened Wrappers
  import opened Bytes
  import opened Addresses

  /** An octet is printed in decimal without leading zeros. */
  lemma OctetText(n: byte)
    ensures var d := "0123456789";
            Decimal(n) == if n < 10 then [d[n]]
                          else if n < 100 then [d[n / 10], d[n % 10]]
                          else [d[n / 100], d[n / 10 % 10], d[n % 10]]
  {
  }

  /** A group is printed in lower-case hexadecimal without leading zeros. */
  lemma GroupText(v: u16)
    ensures var d := "0123456789abcdef";
            Hex(v) == if v < 0x10 then [d[v]]
                      else if v < 0x100 then [d[v / 0x10], d[v % 0x10]]
                      else if v < 0x1000 then [d[v / 0x100], d[v / 0x10 % 0x10], d[v % 0x10]]
                      else [d[v / 0x1000], d[v / 0x100 % 0x10], d[v / 0x10 % 0x10], d[v % 0x10]]
  {
    hide HexChar;
    assert v / 0x10 / 0x10 == v / 0x100 && v / 0x100 / 0x10 == v / 0x1000;
    HexCharIs(v % 0x10);
    HexCharIs(v / 0x10 % 0x10);
    HexCharIs(v / 0x100 % 0x10);
    HexCharIs(v / 0x1000);
  }

  lemma HexCharIs(d: nat)
    requires d < 16
    ensures HexChar(d) == "0123456789abcdef"[d]
  {
  }

  /** Four octets are joined by dots. */
  lemma FourOctets(a: byte, b: byte, c: byte, d: byte)
    ensures Join(Decimals([a, b, c, d]), '.') ==
            Decimal(a) + "." + Decimal(b) + "." + Decimal(c) + "." + Decimal(d)
  {
    hide Decimal;
    var parts := Decimals([a, b, c, d]);
    assert parts == [Decimal(a)] + [Decimal(b)] + [Decimal(c)] + [Decimal(d)];
    JoinAppend([], Decimal(a), '.');
    JoinAppend([Decimal(a)], Decimal(b), '.');
    JoinAppend([Decimal(a)] + [Decimal(b)], Decimal(c), '.');
    JoinAppend([Decimal(a)] + [Decimal(b)] + [Decimal(c)], Decimal(d), '.');
  }

  /** The loopback address, in both directions. */
  lemma Loopback(port: u16)
    ensures Join(Decimals([127, 0, 0, 1]), '.') == "127.0.0.1"
    ensures Parse4("127.0.0.1", port) == Ipv4Address([127, 0, 0, 1], port)
  {
    hide Decimal, Decimals, Join, Parse4;
    OctetText(127);
    OctetText(0);
    OctetText(1);
    FourOctets(127, 0, 0, 1);
    Ipv4RoundTrip(Ipv4Address([127, 0, 0, 1], port));
  }

  // ------------------------------------------------------------------------------------------
  // Numbers
  // ------------------------------------------------------------------------------------------

  predicate AllDigits(s: string) {
    forall k :: 0 <= k < |s| ==> '0' <= s[k] <= '9'
  }

  /** The number that a string of digits stands for, from its first digit on. */
  function Horner(s: string, sofar: nat): nat
    requires AllDigits(s)
  {
    if s == [] then sofar else Horner(s[1..], sofar * 10 + (s[0] as int - '0' as int))
  }

  lemma {:induction false} HornerIs(s: string, sofar: nat, c: char)
    requires AllDigits(s) && '0' <= c <= '9'
    ensures Horner(s + [c], sofar) == Horner(s, sofar) * 10 + (c as int - '0' as int)
  {
    if s == [] {
      assert (s + [c])[1..] == [];
    } else {
      HornerIs(s[1..], sofar * 10 + (s[0] as int - '0' as int), c);
      assert (s + [c])[1..] == s[1..] + [c];
    }
  }

  lemma {:induction false} DigitsAre(s: string)
    requires AllDigits(s)
    ensures DigitsValue(s) == Horner(s, 0)
  {
    if s != [] {
      var front, c := s[..|s| - 1], s[|s| - 1];
      DigitsAre(front);
      HornerIs(front, 0, c);
      assert s == front + [c];
    }
  }

  lemma {:induction false} PrefixEnds(digits: string, rest: string)
    requires AllDigits(digits) && (rest != [] ==> !('0' <= rest[0] <= '9'))
    ensures DigitPrefix(digits + rest) == |digits|
  {
    if digits == [] {
      assert digits + rest == rest;
    } else {
      PrefixEnds(digits[1..], rest);
      assert (digits + rest)[1..] == digits[1..] + rest;
    }
  }

  /** A number is read up to the first character that is not a digit, whatever follows; there must be a digit,
      and the number must fit 32 bits. */
  lemma NumberText(digits: string, rest: string)
    requires AllDigits(digits) && (rest != [] ==> !('0' <= rest[0] <= '9'))
    ensures FromChars(digits + rest) ==
            if digits == [] || Horner(digits, 0) >= 0x1_0000_0000 then None else Some(Horner(digits, 0))
  {
    PrefixEnds(digits, rest);
    DigitsAre(digits);
    assert (digits + rest)[..|digits|] == digits;
  }

  /** A hexadecimal digit of either case. */
  lemma HexDigitText(d: nat, c: char)
    requires d < 16
    ensures HexDigit(c) == Some(d) <==> c == "0123456789abcdef"[d] || c == "0123456789ABCDEF"[d]
  {
  }

  predicate AllHex(s: string) {
    forall k :: 0 <= k < |s| ==> HexDigit(s[k]).Some?
  }

  function HexHorner(s: string): nat
    requires AllHex(s)
  {
    if s == [] then 0 else
      assert HexDigit(s[|s| - 1]).Some?;
      HexHorner(s[..|s| - 1]) * 16 + HexDigit(s[|s| - 1]).value
  }

  /** A group of hexadecimal digits is read modulo 2^16, and any other character spoils it. */
  lemma {:induction false} HexText(s: string)
    ensures HexValue(s) == if AllHex(s) then Some(HexHorner(s) % 0x1_0000) else None
  {
    hide HexDigit;
    if s != [] {
      var front, c := s[..|s| - 1], s[|s| - 1];
      HexText(front);
      assert AllHex(s) <==> AllHex(front) && HexDigit(c).Some?;
      if AllHex(s) {
        KeptModulo(HexHorner(front), HexDigit(c).value);
      }
    }
  }

  lemma KeptModulo(v: nat, d: nat)
    ensures (v % 0x1_0000 * 16 + d) % 0x1_0000 == (v * 16 + d) % 0x1_0000
  {
  }

  // ------------------------------------------------------------------------------------------
  // Texts that are too short, too long or wrong
  // ------------------------------------------------------------------------------------------

  /** Numbers that are not octets. */
  predicate NoOctet(s: string) {
    FromChars(s).None? || FromChars(s).value > 255
  }

  /** The address read from some tokens: the first four of them, with zeros for missing ones. */
  lemma {:induction false} OctetsOf(s: string, pos: nat, parts: seq<string>, host: bytes, i: nat)
    requires |host| == 4 && i < 4 && pos <= |s| && parts != [] && s[pos..] == Join(parts, '.')
    requires forall k :: 0 <= k < |parts| ==> '.' !in parts[k]
    ensures var r := ParseOctets(s, pos, host, i);
            if exists k :: 0 <= k < |parts| && k < 4 - i && NoOctet(parts[k]) then r == None
            else
              && r.Some?
              && forall j :: 0 <= j < 4 ==>
                   r.value[j] == if i <= j < i + |parts| then FromChars(parts[j - i]).value else host[j]
    decreases 4 - i
  {
    hide FromChars, Find, Join;
    FirstToken(s, pos, parts, '.');
    if !NoOctet(parts[0]) && |parts| > 1 && i < 3 {
      OctetsOf(s, pos + |parts[0]| + 1, parts[1..], host[i := FromChars(parts[0]).value], i + 1);
      assert forall k :: 0 <= k < |parts| - 1 ==> parts[1..][k] == parts[k + 1];
      assert (exists k :: 0 <= k < |parts| && k < 4 - i && NoOctet(parts[k])) <==>
             (exists k :: 0 <= k < |parts| - 1 && k < 3 - i && NoOctet(parts[1..][k]));
    }
  }

  /** Any text of tokens between dots: a token that is no octet among the first four gives the zero address
      with port 0; otherwise the first four count, and missing ones are zero. */
  lemma AnyOctets(parts: seq<string>, port: u16)
    requires parts != [] && forall k :: 0 <= k < |parts| ==> '.' !in parts[k]
    ensures var a := Parse4(Join(parts, '.'), port);
            if exists k :: 0 <= k < |parts| && k < 4 && NoOctet(parts[k])
            then a == Ipv4Address([0, 0, 0, 0], 0)
            else
              && a.port == port && |a.host| == 4
              && forall j :: 0 <= j < 4 ==> a.host[j] == if j < |parts| then FromChars(parts[j]).value else 0
  {
    hide FromChars, Find, Join, ParseOctets;
    var s := Join(parts, '.');
    assert s[0..] == s;
    OctetsOf(s, 0, parts, Zeros(4), 0);
    assert Zeros(4) == [0, 0, 0, 0];
  }
}
