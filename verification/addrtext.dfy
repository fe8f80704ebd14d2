/** The text forms of IPv4 addresses and networks that Python's ipaddress module
    reads and writes: the compressed dotted-decimal form of an address, and the
    `address/prefix` form of a network parsed strictly or leniently. */
module AddrText {
  import opened Wrappers
  import opened Ipv4

  /** Why a network text was refused (each is a ValueError in ipaddress),
      or why address arithmetic left the IPv4 space (AddressValueError). */
  datatype NetError = Malformed | HostBitsSet | AddressOutOfRange

  // ---------------------------------------------------------------------------
  // Decimal digits

  predicate IsDigit(ch: char)
  {
    '0' <= ch <= '9'
  }

  /** Every character is an ASCII decimal digit (`isascii() and isdigit()`). */
  predicate AllDigits(s: string)
  {
    forall i :: 0 <= i < |s| ==> IsDigit(s[i])
  }

  function DigitChar(d: nat): (ch: char)
    requires d < 10
    ensures IsDigit(ch)
  {
    ('0' as int + d) as char
  }

  function DigitValue(ch: char): (d: nat)
    requires IsDigit(ch)
    ensures d < 10 && DigitChar(d) == ch
  {
    ch as int - '0' as int
  }

  /** The number a string of decimal digits spells, leading zeros allowed. */
  function DecimalValue(s: string): nat
    requires AllDigits(s)
  {
    if |s| == 0 then 0 else DecimalValue(s[..|s| - 1]) * 10 + DigitValue(s[|s| - 1])
  }

  lemma DecimalOne(t: string)
    requires |t| == 1 && AllDigits(t)
    ensures DecimalValue(t) == DigitValue(t[0])
  {
    assert t[..0] == [];
  }

  lemma DecimalTwo(t: string)
    requires |t| == 2 && AllDigits(t)
    ensures DecimalValue(t) == DigitValue(t[0]) * 10 + DigitValue(t[1])
  {
    DecimalOne(t[..1]);
  }

  lemma DecimalThree(t: string)
    requires |t| == 3 && AllDigits(t)
    ensures DecimalValue(t) == DigitValue(t[0]) * 100 + DigitValue(t[1]) * 10 + DigitValue(t[2])
  {
    DecimalTwo(t[..2]);
  }

  // ---------------------------------------------------------------------------
  // Splitting on a separator, as Python's `str.split(sep)`

  /** The pieces of `s` between occurrences of `sep`; never empty. */
  function Split(s: string, sep: char): (parts: seq<string>)
    ensures |parts| >= 1
    decreases |s|
  {
    if |s| == 0 then [""]
    else
      var rest := Split(s[1..], sep);
      if s[0] == sep then [""] + rest else [[s[0]] + rest[0]] + rest[1..]
  }

  /** The inverse of `Split`: the pieces glued back with `sep`. */
  function Join(parts: seq<string>, sep: char): string
    requires |parts| >= 1
    decreases |parts|
  {
    if |parts| == 1 then parts[0] else parts[0] + [sep] + Join(parts[1..], sep)
  }

  /** Joining with an empty first piece puts the separator in front. */
  lemma JoinEmptyFirst(parts: seq<string>, sep: char)
    requires |parts| >= 1
    ensures Join([""] + parts, sep) == [sep] + Join(parts, sep)
  {
    assert ([""] + parts)[1..] == parts;
  }

  /** Joining after prefixing the first piece with `ch` prefixes the text with `ch`. */
  lemma JoinConsFirst(parts: seq<string>, sep: char, ch: char)
    requires |parts| >= 1
    ensures Join([[ch] + parts[0]] + parts[1..], sep) == [ch] + Join(parts, sep)
  {
    var parts' := [[ch] + parts[0]] + parts[1..];
    if |parts| > 1 {
      assert parts'[1..] == parts[1..];
    }
  }

  /** Splitting then joining gives the original text back. */
  lemma {:induction false} JoinSplit(s: string, sep: char)
    ensures Join(Split(s, sep), sep) == s
    decreases |s|
  {
    if |s| > 0 {
      var rest := Split(s[1..], sep);
      JoinSplit(s[1..], sep);
      if s[0] == sep {
        JoinEmptyFirst(rest, sep);
      } else {
        JoinConsFirst(rest, sep, s[0]);
      }
      assert s == [s[0]] + s[1..];
    }
  }

  /** A piece without the separator followed by the separator splits off as
      the first piece. */
  lemma {:induction false} SplitPrefix(x: string, sep: char, tail: string)
    requires sep !in x
    ensures Split(x + [sep] + tail, sep) == [x] + Split(tail, sep)
    decreases |x|
  {
    if |x| == 0 {
      assert x + [sep] + tail == [sep] + tail;
      assert ([sep] + tail)[1..] == tail;
    } else {
      SplitPrefix(x[1..], sep, tail);
      assert (x + [sep] + tail)[1..] == x[1..] + [sep] + tail;
      assert [x[0]] + x[1..] == x;
    }
  }

  /** A text without the separator is a single piece. */
  lemma {:induction false} SplitNone(x: string, sep: char)
    requires sep !in x
    ensures Split(x, sep) == [x]
    decreases |x|
  {
    if |x| > 0 {
      SplitNone(x[1..], sep);
      assert [x[0]] + x[1..] == x;
    }
  }

  // ---------------------------------------------------------------------------
  // Octets

  /** Decimal text of an octet without leading zeros. */
  function OctetText(n: nat): (t: string)
    requires n < 256
    ensures 1 <= |t| <= 3 && AllDigits(t) && '.' !in t && '/' !in t
  {
    if n < 10 then [DigitChar(n)]
    else if n < 100 then [DigitChar(n / 10), DigitChar(n % 10)]
    else [DigitChar(n / 100), DigitChar(n / 10 % 10), DigitChar(n % 10)]
  }

  /** An octet as ipaddress reads it: one to three ASCII digits, no leading
      zero unless the octet is "0", value at most 255. */
  function ParseOctet(t: string): (r: Option<nat>)
    ensures r.Some? ==> r.value < 256
  {
    if |t| == 0 || !AllDigits(t) || |t| > 3 then None
    else if t != "0" && t[0] == '0' then None
    else if DecimalValue(t) > 255 then None
    else Some(DecimalValue(t))
  }

  /** The decimal digits of a number below 1000 that has `d0 d1 d2` as its digits. */
  lemma ThreeDigits(n: nat, d0: nat, d1: nat, d2: nat)
    requires d0 < 10 && d1 < 10 && d2 < 10 && n == d0 * 100 + d1 * 10 + d2
    ensures n / 100 == d0 && n / 10 % 10 == d1 && n % 10 == d2
  {
    DivUnique(n, 100, d0, d1 * 10 + d2);
    DivUnique(n, 10, d0 * 10 + d1, d2);
    DivUnique(d0 * 10 + d1, 10, d0, d1);
  }

  /** The decimal digits of a number below 100 that has `d0 d1` as its digits. */
  lemma TwoDigits(n: nat, d0: nat, d1: nat)
    requires d0 < 10 && d1 < 10 && n == d0 * 10 + d1
    ensures n / 10 == d0 && n % 10 == d1
  {
    DivUnique(n, 10, d0, d1);
  }

  lemma OctetRoundTrip(n: nat)
    requires n < 256
    ensures ParseOctet(OctetText(n)) == Some(n)
  {
    var t := OctetText(n);
    if n < 10 {
      DecimalOne(t);
      if n == 0 {
        assert t == "0";
      }
    } else if n < 100 {
      DecimalTwo(t);
      TwoDigits(n, n / 10, n % 10);
    } else {
      DecimalThree(t);
      var q := n / 10;
      var d0, d1, d2 := q / 10, q % 10, n % 10;
      assert n == d0 * 100 + d1 * 10 + d2;
      ThreeDigits(n, d0, d1, d2);
    }
  }

  /** The only text read as octet `n` is the one `OctetText` writes. */
  lemma OctetCanonical(t: string)
    requires ParseOctet(t).Some?
    ensures OctetText(ParseOctet(t).value) == t
  {
    var n := ParseOctet(t).value;
    if |t| == 1 {
      DecimalOne(t);
      assert t == [t[0]];
    } else if |t| == 2 {
      DecimalTwo(t);
      TwoDigits(n, DigitValue(t[0]), DigitValue(t[1]));
      assert t == [t[0], t[1]];
    } else {
      DecimalThree(t);
      ThreeDigits(n, DigitValue(t[0]), DigitValue(t[1]), DigitValue(t[2]));
      assert t == [t[0], t[1], t[2]];
    }
  }

  // ---------------------------------------------------------------------------
  // Addresses

  /** Octet `k` of an address, most significant first. */
  function Octet(a: Addr, k: nat): (o: nat)
    requires k < 4
    ensures o < 256
  {
    if k == 0 then a / 0x100_0000
    else if k == 1 then a / 0x1_0000 % 0x100
    else if k == 2 then a / 0x100 % 0x100
    else a % 0x100
  }

  /** The four octets of an address, most significant first. */
  function Octets(a: Addr): (o: seq<nat>)
    ensures |o| == 4 && forall k :: 0 <= k < 4 ==> o[k] < 256
  {
    [Octet(a, 0), Octet(a, 1), Octet(a, 2), Octet(a, 3)]
  }

  /** The address four octets spell. */
  function FromOctets(o0: nat, o1: nat, o2: nat, o3: nat): (a: Addr)
    requires o0 < 256 && o1 < 256 && o2 < 256 && o3 < 256
  {
    ((o0 * 0x100 + o1) * 0x100 + o2) * 0x100 + o3
  }

  lemma OctetsFromOctets(o0: nat, o1: nat, o2: nat, o3: nat)
    requires o0 < 256 && o1 < 256 && o2 < 256 && o3 < 256
    ensures Octets(FromOctets(o0, o1, o2, o3)) == [o0, o1, o2, o3]
  {
    var a := FromOctets(o0, o1, o2, o3);
    var q1, q2 := o0 * 0x100 + o1, (o0 * 0x100 + o1) * 0x100 + o2;
    DivUnique(a, 0x100_0000, o0, (o1 * 0x100 + o2) * 0x100 + o3);
    DivUnique(a, 0x1_0000, q1, o2 * 0x100 + o3);
    DivUnique(q1, 0x100, o0, o1);
    DivUnique(a, 0x100, q2, o3);
    DivUnique(q2, 0x100, q1, o2);
    DivUnique(a, 0x100, q2, o3);
  }

  lemma FromOctetsOctets(a: Addr)
    ensures FromOctets(Octets(a)[0], Octets(a)[1], Octets(a)[2], Octets(a)[3]) == a
  {
    var o3, q1 := a % 0x100, a / 0x100;
    var o2, q2 := q1 % 0x100, q1 / 0x100;
    var o1, o0 := q2 % 0x100, q2 / 0x100;
    assert q1 < 0x100_0000;
    assert q2 < 0x1_0000;
    assert o0 < 0x100;
    assert a == ((o0 * 0x100 + o1) * 0x100 + o2) * 0x100 + o3;
    OctetsFromOctets(o0, o1, o2, o3);
  }

  /** The texts of the four octets of an address. */
  function OctetTexts(a: Addr): (ts: seq<string>)
    ensures |ts| == 4 && forall k :: 0 <= k < 4 ==> ts[k] == OctetText(Octets(a)[k])
  {
    var o := Octets(a);
    [OctetText(o[0]), OctetText(o[1]), OctetText(o[2]), OctetText(o[3])]
  }

  /** The compressed dotted-decimal text of an address (`.compressed`). */
  function Render(a: Addr): string
  {
    OctetText(Octet(a, 0)) + "." + OctetText(Octet(a, 1)) + "." + OctetText(Octet(a, 2)) + "." + OctetText(Octet(a, 3))
  }

  /** The rendered text is the octet texts joined with dots. */
  lemma RenderJoin(a: Addr)
    ensures Render(a) == Join(OctetTexts(a), '.')
  {
    var ts := OctetTexts(a);
    assert Join(ts[3..], '.') == ts[3];
    assert Join(ts[2..], '.') == ts[2] + "." + ts[3];
    assert Join(ts[1..], '.') == ts[1] + "." + ts[2] + "." + ts[3];
  }

  /** An IPv4 address as ipaddress reads it: exactly four dot-separated octets. */
  function ParseAddr(s: string): Option<Addr>
  {
    var parts := Split(s, '.');
    if |parts| != 4 then None
    else
      match (ParseOctet(parts[0]), ParseOctet(parts[1]), ParseOctet(parts[2]), ParseOctet(parts[3]))
      case (Some(o0), Some(o1), Some(o2), Some(o3)) => Some(FromOctets(o0, o1, o2, o3))
      case _ => None
  }

  /** Gluing pieces that do not contain the separator, then splitting,
      gives the pieces back. */
  lemma {:induction false} SplitJoin(parts: seq<string>, sep: char)
    requires |parts| >= 1
    requires forall k :: 0 <= k < |parts| ==> sep !in parts[k]
    ensures Split(Join(parts, sep), sep) == parts
    decreases |parts|
  {
    if |parts| == 1 {
      SplitNone(parts[0], sep);
    } else {
      SplitJoin(parts[1..], sep);
      SplitPrefix(parts[0], sep, Join(parts[1..], sep));
    }
  }

  /** A character in neither the pieces nor the separator is not in the join. */
  lemma {:induction false} JoinAvoids(parts: seq<string>, sep: char, ch: char)
    requires |parts| >= 1 && ch != sep
    requires forall k :: 0 <= k < |parts| ==> ch !in parts[k]
    ensures ch !in Join(parts, sep)
    decreases |parts|
  {
    if |parts| > 1 {
      JoinAvoids(parts[1..], sep, ch);
    }
  }

  /** The rendered text is never empty and never holds a '/'. */
  lemma RenderShape(a: Addr)
    ensures Render(a) != "" && '/' !in Render(a)
  {
    RenderJoin(a);
    JoinAvoids(OctetTexts(a), '.', '/');
    assert |Join(OctetTexts(a), '.')| >= |OctetTexts(a)[0]|;
  }

  /** Reading the rendered text gives the address back. */
  lemma ParseRender(a: Addr)
    ensures ParseAddr(Render(a)) == Some(a)
  {
    var o := Octets(a);
    RenderJoin(a);
    SplitJoin(OctetTexts(a), '.');
    OctetRoundTrip(o[0]);
    OctetRoundTrip(o[1]);
    OctetRoundTrip(o[2]);
    OctetRoundTrip(o[3]);
    FromOctetsOctets(a);
  }

  /** Every text ipaddress reads as an address is that address's compressed
      form: the parser admits no second spelling. */
  lemma RenderParse(s: string)
    requires ParseAddr(s).Some?
    ensures Render(ParseAddr(s).value) == s
  {
    var parts := Split(s, '.');
    var o0, o1, o2, o3 := ParseOctet(parts[0]).value, ParseOctet(parts[1]).value,
                          ParseOctet(parts[2]).value, ParseOctet(parts[3]).value;
    var a := FromOctets(o0, o1, o2, o3);
    OctetsFromOctets(o0, o1, o2, o3);
    OctetCanonical(parts[0]);
    OctetCanonical(parts[1]);
    OctetCanonical(parts[2]);
    OctetCanonical(parts[3]);
    assert OctetTexts(a) == parts;
    RenderJoin(a);
    JoinSplit(s, '.');
  }

  /** Distinct addresses have distinct texts, so sets of texts and sets of
      addresses describe the same occupancy. */
  lemma RenderInjective(a: Addr, b: Addr)
    ensures Render(a) == Render(b) <==> a == b
  {
    ParseRender(a);
    ParseRender(b);
  }

  // ---------------------------------------------------------------------------
  // Networks

  /** A prefix length in decimal digits, leading zeros allowed, at most 32. */
  function ParsePrefix(t: string): (r: Option<PrefixLen>)
  {
    if |t| == 0 || !AllDigits(t) then None
    else if DecimalValue(t) > 32 then None
    else Some(DecimalValue(t))
  }

  /** A network `address[/prefix]` as `ip_network(text, strict)` reads it.
      A strict read refuses an address with host bits set; a lenient read
      clears them. A missing prefix means /32. */
  function ParseNetwork(s: string, strict: bool): (r: Result<Cidr, NetError>)
    ensures r.Ok? ==> r.value.Aligned()
  {
    var parts := Split(s, '/');
    if |parts| > 2 then Err(Malformed)
    else
      var addr := ParseAddr(parts[0]);
      var prefix := if |parts| == 2 then ParsePrefix(parts[1]) else Some(32);
      if addr.None? || prefix.None? then Err(Malformed)
      else
        var c := Cidr(addr.value, prefix.value);
        if c.Aligned() then Ok(c)
        else if strict then Err(HostBitsSet)
        else Ok(ClearHostBits(c))
  }

  /** The network with its host bits cleared (`address & netmask`). */
  function ClearHostBits(c: Cidr): (r: Cidr)
    ensures r.Aligned() && r.prefix == c.prefix
    ensures r.network <= c.network < r.network + r.Total()
  {
    RoundDown(c.network, c.Total());
    Cidr(c.network - c.network % c.Total(), c.prefix)
  }

  lemma RoundDown(n: nat, t: nat)
    requires t > 0
    ensures 0 <= n - n % t <= n < n - n % t + t
    ensures (n - n % t) % t == 0
  {
    DivUnique(n - n % t, t, n / t, 0);
  }

  /** A lenient read succeeds exactly when the strict read does or fails only
      because host bits are set; when both succeed they agree. */
  lemma StrictAndLenient(s: string)
    ensures ParseNetwork(s, false).Ok? <==> ParseNetwork(s, true).Ok? || ParseNetwork(s, true) == Err(HostBitsSet)
    ensures ParseNetwork(s, true).Ok? ==> ParseNetwork(s, false) == ParseNetwork(s, true)
  {
  }

  /** Text of a prefix length in decimal, no leading zeros. */
  function PrefixText(p: PrefixLen): (t: string)
    ensures 1 <= |t| <= 2 && AllDigits(t) && '/' !in t
  {
    if p < 10 then [DigitChar(p)] else [DigitChar(p / 10), DigitChar(p % 10)]
  }

  /** The `address/prefix` text of a network. */
  function CidrText(c: Cidr): string
  {
    Render(c.network) + "/" + PrefixText(c.prefix)
  }

  lemma ParsePrefixText(p: PrefixLen)
    ensures ParsePrefix(PrefixText(p)) == Some(p)
  {
    var t := PrefixText(p);
    if p < 10 {
      DecimalOne(t);
    } else {
      DecimalTwo(t);
      DivUnique(p, 10, p / 10, p % 10);
    }
  }

  /** The text of a network splits at '/' into the address and prefix texts. */
  lemma SplitCidrText(c: Cidr)
    ensures Split(CidrText(c), '/') == [Render(c.network), PrefixText(c.prefix)]
  {
    var t := PrefixText(c.prefix);
    RenderShape(c.network);
    SplitNone(t, '/');
    SplitPrefix(Render(c.network), '/', t);
  }

  /** Reading the text of a network gives it back when its host bits are
      clear; otherwise a strict read refuses it and a lenient read clears
      them. */
  lemma ParseCidrText(c: Cidr, strict: bool)
    ensures c.Aligned() ==> ParseNetwork(CidrText(c), strict) == Ok(c)
    ensures !c.Aligned() && strict ==> ParseNetwork(CidrText(c), strict) == Err(HostBitsSet)
    ensures !c.Aligned() && !strict ==> ParseNetwork(CidrText(c), strict) == Ok(ClearHostBits(c))
  {
    SplitCidrText(c);
    ParseRender(c.network);
    ParsePrefixText(c.prefix);
  }
}
