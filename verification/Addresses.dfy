/** Printing and parsing of IPv4 and IPv6 addresses (src/compact.cpp:314-342 and 374-472). */
module Addresses {
  import opened Wrappers
  import opened Bytes

  datatype Ipv4Address = Ipv4Address(host: bytes, port: u16) {
    ghost predicate Valid() {
      |host| == 4
    }
  }

  datatype Ipv6Address = Ipv6Address(host: bytes, port: u16)

  // ------------------------------------------------------------------------------------------
  // Separated strings
  // ------------------------------------------------------------------------------------------

  function Join(parts: seq<string>, sep: char): string {
    if parts == [] then ""
    else if |parts| == 1 then parts[0]
    else parts[0] + [sep] + Join(parts[1..], sep)
  }

  /** std::string::find, with the end of the string for "not found". */
  function Find(s: string, c: char, pos: nat): (r: nat)
    requires pos <= |s|
    ensures pos <= r <= |s|
    ensures c !in s[pos..r]
    ensures r < |s| ==> s[r] == c
    decreases |s| - pos
  {
    if pos == |s| || s[pos] == c then pos else
      var r := Find(s, c, pos + 1);
      assert s[pos..r] == [s[pos]] + s[pos + 1..r];
      r
  }

  lemma {:induction false} JoinAppend(parts: seq<string>, x: string, sep: char)
    ensures Join(parts + [x], sep) == if parts == [] then x else Join(parts, sep) + [sep] + x
  {
    if |parts| > 0 {
      JoinAppend(parts[1..], x, sep);
      assert (parts + [x])[1..] == parts[1..] + [x];
    }
  }

  lemma {:induction false} FindIs(s: string, c: char, pos: nat, r: nat)
    requires pos <= r <= |s| && (r < |s| ==> s[r] == c)
    requires forall k :: pos <= k < r ==> s[k] != c
    ensures Find(s, c, pos) == r
    decreases r - pos
  {
    if pos < r {
      FindIs(s, c, pos + 1, r);
    }
  }

  /** The first token of a joined tail is its first part, and what follows is the tail of the rest. */
  lemma FirstToken(s: string, pos: nat, parts: seq<string>, sep: char)
    requires pos <= |s| && s[pos..] == Join(parts, sep) && parts != [] && sep !in parts[0]
    ensures Find(s, sep, pos) == pos + |parts[0]|
    ensures s[pos..pos + |parts[0]|] == parts[0]
    ensures |parts| == 1 ==> pos + |parts[0]| == |s|
    ensures |parts| > 1 ==> pos + |parts[0]| < |s| && s[pos + |parts[0]| + 1..] == Join(parts[1..], sep)
  {
    var p, t := parts[0], s[pos..];
    assert t[..|p|] == p;
    forall k | 0 <= k < |p| ensures s[pos + k] == p[k] {
      assert t[k] == p[k];
    }
    if |parts| > 1 {
      assert t[|p|] == sep == s[pos + |p|];
      assert t[|p| + 1..] == Join(parts[1..], sep);
      assert s[pos + |p| + 1..] == t[|p| + 1..];
    }
    forall k | pos <= k < pos + |p| ensures s[k] != sep {
      assert s[k] == p[k - pos];
    }
    FindIs(s, sep, pos, pos + |p|);
  }

  // ------------------------------------------------------------------------------------------
  // Decimal numbers
  // ------------------------------------------------------------------------------------------

  function DigitChar(d: nat): char
    requires d < 10
  {
    "0123456789"[d]
  }

  predicate IsDigit(c: char) {
    '0' <= c <= '9'
  }

  /** std::to_chars. */
  function Decimal(n: nat): string {
    if n < 10 then [DigitChar(n)] else Decimal(n / 10) + [DigitChar(n % 10)]
  }

  function DigitPrefix(s: string): (n: nat)
    ensures n <= |s|
    ensures forall k :: 0 <= k < n ==> IsDigit(s[k])
  {
    if s != [] && IsDigit(s[0]) then 1 + DigitPrefix(s[1..]) else 0
  }

  function DigitsValue(s: string): nat
    requires forall k :: 0 <= k < |s| ==> IsDigit(s[k])
  {
    if s == [] then 0 else
      assert IsDigit(s[|s| - 1]);
      DigitsValue(s[..|s| - 1]) * 10 + (s[|s| - 1] as int - '0' as int)
  }

  /** std::from_chars for unsigned int: the value of the leading digits; characters after them are
      ignored. It fails without a digit and beyond 32 bits. */
  function FromChars(s: string): Option<nat> {
    var n := DigitPrefix(s);
    if n == 0 || DigitsValue(s[..n]) >= 0x1_0000_0000 then None else Some(DigitsValue(s[..n]))
  }

  lemma DigitOfChar(d: nat)
    requires d < 10
    ensures IsDigit(DigitChar(d)) && DigitChar(d) as int - '0' as int == d
  {
  }

  lemma {:induction false} DecimalIsDigits(n: nat)
    ensures Decimal(n) != [] && forall k :: 0 <= k < |Decimal(n)| ==> IsDigit(Decimal(n)[k])
    ensures DigitsValue(Decimal(n)) == n
  {
    hide DigitChar, IsDigit;
    var s := Decimal(n);
    DigitOfChar(n % 10);
    if n >= 10 {
      DecimalIsDigits(n / 10);
      assert s[..|s| - 1] == Decimal(n / 10) && s[|s| - 1] == DigitChar(n % 10);
      assert n / 10 * 10 + n % 10 == n;
    } else {
      assert s[..0] == [] && DigitsValue(s[..0]) == 0;
    }
  }

  lemma {:induction false} AllDigitsPrefix(s: string)
    requires forall k :: 0 <= k < |s| ==> IsDigit(s[k])
    ensures DigitPrefix(s) == |s|
  {
    if s != [] {
      AllDigitsPrefix(s[1..]);
    }
  }

  lemma DecimalParses(n: nat)
    requires n < 0x1_0000_0000
    ensures FromChars(Decimal(n)) == Some(n)
    ensures '.' !in Decimal(n) && ':' !in Decimal(n)
  {
    DecimalIsDigits(n);
    AllDigitsPrefix(Decimal(n));
    assert Decimal(n)[..|Decimal(n)|] == Decimal(n);
  }

  // ------------------------------------------------------------------------------------------
  // IPv4
  // ------------------------------------------------------------------------------------------

  function Decimals(host: bytes): (r: seq<string>)
    ensures |r| == |host|
  {
    seq(|host|, i requires 0 <= i < |host| => Decimal(host[i]))
  }

  method HostString4(a: Ipv4Address) returns (r: string)
    requires a.Valid()
    ensures r == Join(Decimals(a.host), '.')
  {
    r := "";
    var i := 0;
    while i < 4
      invariant i <= 4 && r == Join(Decimals(a.host)[..i], '.')
    {
      if i > 0 {
        r := r + ".";
      }
      r := r + Decimal(a.host[i]);
      JoinAppend(Decimals(a.host)[..i], Decimal(a.host[i]), '.');
      assert Decimals(a.host)[..i + 1] == Decimals(a.host)[..i] + [Decimal(a.host[i])];
      i := i + 1;
    }
    assert Decimals(a.host)[..4] == Decimals(a.host);
  }

  /** The octets read from s at pos on, into host from index i on; None for a parse error. */
  function ParseOctets(s: string, pos: nat, host: bytes, i: nat): (r: Option<bytes>)
    requires |host| == 4 && i <= 4
    ensures r.Some? ==> |r.value| == 4
    decreases 4 - i
  {
    if i == 4 || pos > |s| then Some(host)
    else
      var dot := Find(s, '.', pos);
      match FromChars(s[pos..dot])
      case None => None
      case Some(v) => if v > 255 then None else ParseOctets(s, dot + 1, host[i := v], i + 1)
  }

  function Parse4(s: string, port: u16): (r: Ipv4Address)
    ensures r.Valid()
  {
    match ParseOctets(s, 0, Zeros(4), 0)
    case Some(host) => Ipv4Address(host, port)
    case None => Ipv4Address(Zeros(4), 0)
  }

  method FromString4(s: string, port: u16) returns (a: Ipv4Address)
    ensures a == Parse4(s, port)
  {
    hide FromChars, Find;
    var host: bytes := Zeros(4);
    var pos, i := 0, 0;
    while i < 4 && pos <= |s|
      invariant 0 <= i <= 4 && 0 <= pos && |host| == 4
      invariant ParseOctets(s, 0, Zeros(4), 0) == ParseOctets(s, pos, host, i)
      decreases 4 - i
    {
      var dot := Find(s, '.', pos);
      var v := FromChars(s[pos..dot]);
      if v.None? || v.value > 255 {
        return Ipv4Address(Zeros(4), 0);
      }
      host := host[i := v.value];
      pos := dot + 1;
      i := i + 1;
    }
    a := Ipv4Address(host, port);
  }

  lemma {:induction false} OctetsRoundTrip(s: string, pos: nat, a: bytes, host: bytes, i: nat)
    requires |a| == |host| == 4 && i < 4 && pos <= |s|
    requires s[pos..] == Join(Decimals(a)[i..], '.')
    requires host[..i] == a[..i]
    ensures ParseOctets(s, pos, host, i) == Some(a)
    decreases 4 - i
  {
    hide Decimal, FromChars, Find, Join;
    var parts := Decimals(a)[i..];
    DecimalParses(a[i]);
    FirstToken(s, pos, parts, '.');
    if i < 3 {
      assert parts[1..] == Decimals(a)[i + 1..] && host[i := a[i]][..i + 1] == host[..i] + [a[i]] == a[..i + 1];
      OctetsRoundTrip(s, pos + |parts[0]| + 1, a, host[i := a[i]], i + 1);
    } else {
      assert host[i := a[i]] == a;
    }
  }

  /** Printing an IPv4 address and parsing the text returns the address. */
  lemma Ipv4RoundTrip(a: Ipv4Address)
    requires a.Valid()
    ensures Parse4(Join(Decimals(a.host), '.'), a.port) == a
  {
    var s := Join(Decimals(a.host), '.');
    assert s[0..] == s && Decimals(a.host)[0..] == Decimals(a.host);
    OctetsRoundTrip(s, 0, a.host, Zeros(4), 0);
  }

  /** The string under which a query remembers an address. */
  function AddressKey(a: Ipv4Address): string {
    Join(Decimals(a.host), '.') + ":" + Decimal(a.port)
  }

  /** The key determines the address. */
  lemma AddressKeyInjective(a: Ipv4Address, b: Ipv4Address)
    requires a.Valid() && b.Valid() && AddressKey(a) == AddressKey(b)
    ensures a == b
  {
    hide Decimal, Parse4;
    var p, q := Join(Decimals(a.host), '.'), Join(Decimals(b.host), '.');
    forall k | 0 <= k < 4 ensures IsDecimal(Decimals(a.host)[k]) && IsDecimal(Decimals(b.host)[k]) {
    }
    NoColon(Decimals(a.host));
    NoColon(Decimals(b.host));
    var s := AddressKey(a);
    assert s[0..] == s;
    FirstToken(s, 0, [p, Decimal(a.port)], ':');
    FirstToken(s, 0, [q, Decimal(b.port)], ':');
    DecimalIsDigits(a.port);
    DecimalIsDigits(b.port);
    Ipv4RoundTrip(a);
    Ipv4RoundTrip(b);
  }

  ghost predicate IsDecimal(s: string) {
    exists n: u32 :: s == Decimal(n)
  }

  lemma {:induction false} NoColon(parts: seq<string>)
    requires forall k :: 0 <= k < |parts| ==> IsDecimal(parts[k])
    ensures ':' !in Join(parts, '.')
  {
    if parts != [] {
      var n: u32 :| parts[0] == Decimal(n);
      DecimalParses(n);
      NoColon(parts[1..]);
    }
  }

  // ------------------------------------------------------------------------------------------
  // IPv6
  // ------------------------------------------------------------------------------------------

  function HexChar(d: nat): char
    requires d < 16
  {
    "0123456789abcdef"[d]
  }

  function HexDigit(c: char): Option<nat> {
    if '0' <= c <= '9' then Some(c as int - '0' as int)
    else if 'a' <= c <= 'f' then Some(c as int - 'a' as int + 10)
    else if 'A' <= c <= 'F' then Some(c as int - 'A' as int + 10)
    else None
  }

  /** Hexadecimal without leading zeros. */
  function Hex(n: nat): string {
    if n < 16 then [HexChar(n)] else Hex(n / 16) + [HexChar(n % 16)]
  }

  function Group(hi: byte, lo: byte): u16 {
    var h: int := hi;
    h * 256 + lo
  }

  function Groups(host: bytes): (r: seq<u16>)
    requires |host| == 16
    ensures |r| == 8
  {
    seq(8, g requires 0 <= g < 8 => Group(host[2 * g], host[2 * g + 1]))
  }

  function Hexes(groups: seq<u16>): (r: seq<string>)
    ensures |r| == |groups|
  {
    seq(|groups|, g requires 0 <= g < |groups| => Hex(groups[g]))
  }

  function HexOrEmpty(n: nat): string {
    if n == 0 then "" else Hex(n)
  }

  lemma HexStep(n: nat, low: string)
    requires n > 0
    ensures HexOrEmpty(n) + low == HexOrEmpty(n / 16) + ([HexChar(n % 16)] + low)
  {
  }

  /** The digits of a group are produced from the least significant one and then reversed. */
  method HexGroup(val: u16) returns (r: string)
    ensures r == Hex(val)
  {
    if val == 0 {
      return "0";
    }
    hide HexChar, Hex;
    var buf: string := "";
    var v: int := val;
    assert Reversed(buf) == "" && HexOrEmpty(v) + "" == Hex(val);
    while v > 0
      invariant 0 <= v && Hex(val) == HexOrEmpty(v) + Reversed(buf)
    {
      ReversedAppend(buf, HexChar(v % 16));
      HexStep(v, Reversed(buf));
      buf := buf + [HexChar(v % 16)];
      v := v / 16;
    }
    r := "";
    var i := |buf| - 1;
    assert buf[..|buf|] == buf;
    while i >= 0
      invariant -1 <= i < |buf| && Hex(val) == r + Reversed(buf[..i + 1])
    {
      ReversedAppend(buf[..i], buf[i]);
      assert buf[..i + 1] == buf[..i] + [buf[i]];
      r := r + [buf[i]];
      i := i - 1;
    }
  }

  function Reversed(s: string): string {
    if s == [] then [] else Reversed(s[1..]) + [s[0]]
  }

  lemma {:induction false} ReversedAppend(s: string, c: char)
    ensures Reversed(s + [c]) == [c] + Reversed(s)
  {
    if s != [] {
      ReversedAppend(s[1..], c);
      assert (s + [c])[1..] == s[1..] + [c];
    }
  }

  method HostString6(a: Ipv6Address) returns (r: string)
    requires |a.host| == 16
    ensures r == Join(Hexes(Groups(a.host)), ':')
  {
    ghost var parts := Hexes(Groups(a.host));
    r := "";
    var g := 0;
    while g < 8
      invariant 0 <= g <= 8 && r == Join(parts[..g], ':')
    {
      if g > 0 {
        r := r + ":";
      }
      var group := HexGroup(Group(a.host[g * 2], a.host[g * 2 + 1]));
      JoinAppend(parts[..g], group, ':');
      assert parts[..g + 1] == parts[..g] + [group];
      r := r + group;
      g := g + 1;
    }
    assert parts[..8] == parts;
  }

  /** A group of hex digits, truncated to 16 bits at every step. */
  function HexValue(s: string): Option<u16> {
    if s == [] then Some(0)
    else match (HexValue(s[..|s| - 1]), HexDigit(s[|s| - 1]))
      case (Some(v), Some(d)) => var x: int := v; Some((x * 16 + d) % 0x1_0000)
      case _ => None
  }

  function ParseGroups(s: string, pos: nat): Option<seq<u16>>
    decreases if pos < |s| then |s| - pos else 0
  {
    if pos >= |s| then Some([])
    else
      var colon := Find(s, ':', pos);
      match (HexValue(s[pos..colon]), ParseGroups(s, colon + 1))
      case (Some(v), Some(rest)) => Some([v] + rest)
      case _ => None
  }

  /** The position of the first "::", or the end of the string. */
  function FindDouble(s: string, pos: nat): (r: nat)
    requires pos <= |s|
    ensures pos <= r <= |s|
    decreases |s| - pos
  {
    if pos + 1 >= |s| then |s| else if s[pos] == ':' == s[pos + 1] then pos else FindDouble(s, pos + 1)
  }

  lemma {:induction false} FindDoubleIsFirst(s: string, pos: nat)
    requires pos <= |s|
    ensures var r := FindDouble(s, pos);
            && (r < |s| ==> r + 1 < |s| && s[r] == ':' == s[r + 1])
            && forall k :: pos <= k < r && k + 1 < |s| ==> !(s[k] == ':' == s[k + 1])
    decreases |s| - pos
  {
    if pos + 1 < |s| && !(s[pos] == ':' == s[pos + 1]) {
      FindDoubleIsFirst(s, pos + 1);
    }
  }

  function FillZeros(before: seq<u16>, after: seq<u16>): seq<u16> {
    before + (if |before| + |after| < 8 then seq(8 - |before| - |after|, _ => 0) else []) + after
  }

  function GroupBytes(groups: seq<u16>): (r: bytes)
    ensures |r| == 16
  {
    seq(16, i requires 0 <= i < 16 =>
      if i / 2 >= |groups| then 0 else if i % 2 == 0 then groups[i / 2] / 256 else groups[i / 2] % 256)
  }

  function Parse6(s: string, port: u16): Ipv6Address {
    var dc := FindDouble(s, 0);
    if dc < |s| && dc + 2 <= |s| then
      match (ParseGroups(s[..dc], 0), ParseGroups(s[dc + 2..], 0))
      case (Some(before), Some(after)) => Ipv6Address(GroupBytes(FillZeros(before, after)), port)
      case _ => Ipv6Address(Zeros(16), port)
    else
      match ParseGroups(s, 0)
      case Some(groups) => Ipv6Address(GroupBytes(groups), port)
      case None => Ipv6Address(Zeros(16), port)
  }

  function AfterGroups(acc: seq<u16>, d: Option<seq<u16>>): Option<seq<u16>> {
    match d
    case None => None
    case Some(groups) => Some(acc + groups)
  }

  lemma {:induction false} BadDigitSpoils(s: string, i: nat)
    requires i <= |s| && HexValue(s[..i]) == None
    ensures HexValue(s) == None
    decreases |s|
  {
    if i < |s| {
      assert s[..|s| - 1][..i] == s[..i];
      BadDigitSpoils(s[..|s| - 1], i);
    } else {
      assert s[..i] == s;
    }
  }

  method ParseHex(s: string) returns (v: Option<u16>)
    ensures v == HexValue(s)
  {
    hide HexDigit;
    var x: u16 := 0;
    var i := 0;
    while i < |s|
      invariant i <= |s| && HexValue(s[..i]) == Some(x)
    {
      assert s[..i + 1][..i] == s[..i];
      var d := HexDigit(s[i]);
      if d.None? {
        BadDigitSpoils(s, i + 1);
        return None;
      }
      var y: int := x;
      x := (y * 16 + d.value) % 0x1_0000;
      i := i + 1;
    }
    assert s[..i] == s;
    v := Some(x);
  }

  lemma ParseGroupsFrom(s: string, pos: nat, acc: seq<u16>)
    ensures pos >= |s| ==> AfterGroups(acc, ParseGroups(s, pos)) == Some(acc)
    ensures pos < |s| ==>
              var colon := Find(s, ':', pos);
              AfterGroups(acc, ParseGroups(s, pos)) ==
              match HexValue(s[pos..colon])
              case None => None
              case Some(v) => AfterGroups(acc + [v], ParseGroups(s, colon + 1))
  {
    hide HexValue, Find;
    if pos < |s| {
      var colon := Find(s, ':', pos);
      var v, rest := HexValue(s[pos..colon]), ParseGroups(s, colon + 1);
      if v.Some? && rest.Some? {
        assert acc + ([v.value] + rest.value) == acc + [v.value] + rest.value;
      }
    } else {
      assert acc + [] == acc;
    }
  }

  /** The groups between colons, unless one of them is not hexadecimal. */
  method ParseGroupText(s: string) returns (groups: Option<seq<u16>>)
    ensures groups == ParseGroups(s, 0)
  {
    hide HexValue, Find, ParseGroups;
    var out: seq<u16> := [];
    var pos := 0;
    AfterNothing(ParseGroups(s, 0));
    while pos < |s|
      invariant AfterGroups(out, ParseGroups(s, pos)) == ParseGroups(s, 0)
      decreases if pos < |s| then |s| - pos else 0
    {
      ParseGroupsFrom(s, pos, out);
      var colon := Find(s, ':', pos);
      var v := ParseHex(s[pos..colon]);
      if v.None? {
        return None;
      }
      out := out + [v.value];
      pos := colon + 1;
    }
    ParseGroupsFrom(s, pos, out);
    groups := Some(out);
  }

  lemma AfterNothing(d: Option<seq<u16>>)
    ensures AfterGroups([], d) == d
  {
    if d.Some? {
      assert [] + d.value == d.value;
    }
  }

  /** The first eight groups, high byte first; missing ones stay zero. */
  method StoreGroups(groups: seq<u16>) returns (host: bytes)
    ensures host == GroupBytes(groups)
  {
    host := Zeros(16);
    var g := 0;
    while g < 8 && g < |groups|
      invariant g <= 8 && g <= |groups| && |host| == 16
      invariant forall i :: 0 <= i < 16 ==> host[i] == if i < 2 * g then GroupBytes(groups)[i] else 0
    {
      host := host[g * 2 := groups[g] / 256][g * 2 + 1 := groups[g] % 256];
      g := g + 1;
    }
  }

  /** from_string for IPv6. */
  method FromString6(s: string, port: u16) returns (a: Ipv6Address)
    ensures a == Parse6(s, port)
  {
    hide ParseGroups, GroupBytes, FindDouble;
    a := Ipv6Address(Zeros(16), port);
    var dc := FindDouble(s, 0);
    if dc < |s| && dc + 2 <= |s| {
      var before := ParseGroupText(s[..dc]);
      var after := ParseGroupText(s[dc + 2..]);
      if before.None? || after.None? {
        return;
      }
      var missing := if |before.value| + |after.value| < 8 then 8 - |before.value| - |after.value| else 0;
      var groups: seq<u16> := before.value;
      var g := 0;
      while g < missing
        invariant g <= missing && groups == before.value + seq(g, _ => 0)
      {
        groups := groups + [0];
        g := g + 1;
      }
      groups := groups + after.value;
      assert groups == FillZeros(before.value, after.value);
      var host := StoreGroups(groups);
      a := Ipv6Address(host, port);
    } else {
      var groups := ParseGroupText(s);
      if groups.None? {
        return;
      }
      var host := StoreGroups(groups.value);
      a := Ipv6Address(host, port);
    }
  }

  lemma HexDigitOfChar(d: nat)
    requires d < 16
    ensures HexDigit(HexChar(d)) == Some(d) && HexChar(d) != ':'
  {
  }

  lemma HexLast(n: nat)
    requires 16 <= n < 0x1_0000
    ensures var h := Hex(n); h != [] && h[..|h| - 1] == Hex(n / 16) && h[|h| - 1] == HexChar(n % 16)
  {
    hide HexChar;
  }

  lemma {:induction false} HexRoundTrip(n: nat)
    requires n < 0x1_0000
    ensures HexValue(Hex(n)) == Some(n)
    ensures Hex(n) != [] && ':' !in Hex(n)
  {
    hide HexChar, HexDigit;
    var h := Hex(n);
    HexDigitOfChar(n % 16);
    if n >= 16 {
      HexRoundTrip(n / 16);
      HexLast(n);
      assert HexValue(h) == Some(n / 16 * 16 + n % 16);
      assert n / 16 * 16 + n % 16 == n;
    } else {
      assert h[..0] == [] && HexValue(h[..0]) == Some(0);
    }
  }

  lemma HexesTail(groups: seq<u16>)
    requires groups != []
    ensures Hexes(groups)[1..] == Hexes(groups[1..]) && Hexes(groups)[0] == Hex(groups[0])
  {
  }

  lemma ParseGroupsStep(s: string, pos: nat, colon: nat, v: u16, rest: seq<u16>)
    requires pos < |s| && Find(s, ':', pos) == colon && HexValue(s[pos..colon]) == Some(v)
    requires ParseGroups(s, colon + 1) == Some(rest)
    ensures ParseGroups(s, pos) == Some([v] + rest)
  {
    hide HexValue, Find;
  }

  lemma {:induction false} GroupsRoundTrip(s: string, pos: nat, groups: seq<u16>)
    requires pos <= |s| && s[pos..] == Join(Hexes(groups), ':')
    ensures ParseGroups(s, pos) == Some(groups)
    decreases |groups|
  {
    hide Hex, HexValue, HexDigit, ParseGroups, Find;
    if groups == [] {
      assert |s[pos..]| == 0;
      NothingToParse(s, pos);
    } else {
      var parts := Hexes(groups);
      HexRoundTrip(groups[0]);
      HexesTail(groups);
      FirstToken(s, pos, parts, ':');
      var colon := pos + |parts[0]|;
      assert s[pos..colon] == parts[0];
      if |groups| > 1 {
        GroupsRoundTrip(s, colon + 1, groups[1..]);
      } else {
        NothingToParse(s, colon + 1);
      }
      ParseGroupsStep(s, pos, colon, groups[0], groups[1..]);
      assert [groups[0]] + groups[1..] == groups;
    }
  }

  lemma NothingToParse(s: string, pos: nat)
    requires pos >= |s|
    ensures ParseGroups(s, pos) == Some([])
  {
  }

  /** No two colons are adjacent in the printed groups, so "::" is first found at or after their end. */
  lemma JoinedHexes(groups: seq<u16>)
    requires groups != []
    ensures |groups| == 1 ==> Join(Hexes(groups), ':') == Hex(groups[0])
    ensures |groups| > 1 ==>
              var rest := Join(Hexes(groups[1..]), ':');
              rest != [] && rest[0] != ':' && Join(Hexes(groups), ':') == Hex(groups[0]) + ":" + rest
  {
    hide Hex, HexValue, HexDigit;
    HexesTail(groups);
    if |groups| > 1 {
      HexRoundTrip(groups[1]);
      HexesTail(groups[1..]);
    }
  }

  lemma {:induction false} NoDoubleColon(s: string, pos: nat, groups: seq<u16>, tail: string)
    requires pos <= |s| && s[pos..] == Join(Hexes(groups), ':') + tail && groups != []
    requires tail == [] || tail[..1] == ":"
    ensures FindDouble(s, pos) == FindDouble(s, |s| - |tail|)
    decreases |s| - pos
  {
    hide Hex, HexValue, HexDigit, Join;
    HexRoundTrip(groups[0]);
    JoinedHexes(groups);
    var p := Hex(groups[0]);
    assert s[pos..][..|p|] == p;
    SkipPlain(s, pos, p);
    if |groups| > 1 {
      var rest := Join(Hexes(groups[1..]), ':');
      assert s[pos..] == p + ":" + rest + tail;
      assert s[pos..][|p| + 1..] == rest + tail == s[pos + |p| + 1..];
      assert s[pos + |p| + 1] == rest[0];
      NoDoubleColon(s, pos + |p| + 1, groups[1..], tail);
    }
  }

  lemma {:induction false} SkipPlain(s: string, pos: nat, p: string)
    requires pos + |p| <= |s| && s[pos..][..|p|] == p && ':' !in p
    ensures FindDouble(s, pos) == FindDouble(s, pos + |p|)
    decreases |p|
  {
    if p != [] {
      assert s[pos] == p[0];
      assert s[pos + 1..][..|p| - 1] == p[1..];
      SkipPlain(s, pos + 1, p[1..]);
    }
  }

  lemma GroupBytesInverse(host: bytes)
    requires |host| == 16
    ensures GroupBytes(Groups(host)) == host
  {
    forall i | 0 <= i < 16 ensures GroupBytes(Groups(host))[i] == host[i] {
      assert i == 2 * (i / 2) + i % 2;
    }
  }

  /** Printing an IPv6 address in its eight groups never puts two colons side by side, and parsing the
      text returns the address. */
  lemma Ipv6RoundTrip(a: Ipv6Address)
    requires |a.host| == 16
    ensures var s := Join(Hexes(Groups(a.host)), ':');
            (forall k :: 0 <= k < |s| - 1 ==> !(s[k] == ':' == s[k + 1])) && Parse6(s, a.port) == a
  {
    var s := Join(Hexes(Groups(a.host)), ':');
    assert s[0..] == s == s + [];
    NoDoubleColon(s, 0, Groups(a.host), []);
    FindDoubleIsFirst(s, 0);
    GroupsRoundTrip(s, 0, Groups(a.host));
    GroupBytesInverse(a.host);
  }

  /** The number that the two bytes of group g make. */
  function GroupAt(host: bytes, g: nat): int
    requires |host| == 16 && g < 8
  {
    host[2 * g] as int * 256 + host[2 * g + 1] as int
  }

  lemma GroupOfBytes(groups: seq<u16>, g: nat)
    requires g < 8
    ensures GroupAt(GroupBytes(groups), g) == if g < |groups| then groups[g] else 0
  {
  }

  /** A run of zero groups may be written as "::", also in front and at the end: what is before it fills the
      address from its first group on, what is behind it up to its last, and the groups between are zero.
      With eight groups or more there is no gap, and the first eight count. */
  lemma CompressedGroups(before: seq<u16>, after: seq<u16>, port: u16, g: nat)
    requires g < 8
    ensures var a := Parse6(Join(Hexes(before), ':') + "::" + Join(Hexes(after), ':'), port);
            && a.port == port && |a.host| == 16
            && GroupAt(a.host, g) ==
                 if g < |before| then before[g]
                 else if |before| + |after| >= 8 then after[g - |before|]
                 else if g >= 8 - |after| then after[g - (8 - |after|)]
                 else 0
  {
    hide Hex;
    var x, y := Join(Hexes(before), ':'), Join(Hexes(after), ':');
    var s := x + "::" + y;
    assert s[0..] == s == x + ("::" + y);
    if before != [] {
      NoDoubleColon(s, 0, before, "::" + y);
    }
    assert s[..|x|] == x && s[|x| + 2..] == y;
    assert x[0..] == x && y[0..] == y;
    GroupsRoundTrip(x, 0, before);
    GroupsRoundTrip(y, 0, after);
    GroupOfBytes(FillZeros(before, after), g);
  }
}
