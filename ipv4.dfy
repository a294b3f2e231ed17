/**
 * IPv4 text as Python's `ipaddress` module reads and writes it, the mask check of
 * the panel, and the conversion of a prefix length to a dotted netmask.
 */
module IPv4 {
  import opened Wrappers
  import opened Text

  /** 2^32: every IPv4 address value is below it. */
  const AddressSpace: nat := 0x1_0000_0000

  // ----- reading and writing dotted quads -----

  /**
   * One octet of `ipaddress.IPv4Address(text)`: non-empty, ASCII digits only, at most
   * three characters, no leading zero except "0" itself (CPython 3.9.5 and later),
   * value at most 255. Only the canonical spelling of a value is accepted.
   */
  function ParseOctet(o: string): (r: Option<nat>)
    ensures r.Some? ==> r.value <= 255 && NatToString(r.value) == o
  {
    if o == [] then None
    else if !AllDigits(o) then None
    else if |o| > 3 then None
    else if o != "0" && o[0] == '0' then None
    else if DecimalValue(o) > 255 then None
    else
      CanonicalDigits(o);
      Some(DecimalValue(o))
  }

  /** The 32-bit value of four octets, most significant first (`int.from_bytes(..., 'big')`). */
  function FromBytes(a: nat, b: nat, c: nat, d: nat): (v: nat)
    requires a <= 255 && b <= 255 && c <= 255 && d <= 255
    ensures v < AddressSpace
  {
    ((a * 0x100 + b) * 0x100 + c) * 0x100 + d
  }

  /**
   * `ipaddress.IPv4Address(text)` on a string: the address value, or None where the
   * library raises `AddressValueError`. The empty string is refused, the text must
   * split on '.' into exactly four octets, and each octet must be canonical.
   */
  function ParseIPv4(s: string): (r: Option<nat>)
    ensures r.Some? ==> r.value < AddressSpace
  {
    if s == [] then None
    else
      var parts := Split(s, '.');
      if |parts| != 4 then None
      else
        var a, b, c, d := ParseOctet(parts[0]), ParseOctet(parts[1]), ParseOctet(parts[2]), ParseOctet(parts[3]);
        if a.None? || b.None? || c.None? || d.None? then None
        else Some(FromBytes(a.value, b.value, c.value, d.value))
  }

  /** `_valid_ip`: the text is an IPv4 dotted quad. */
  predicate IsIPv4(s: string) {
    ParseIPv4(s).Some?
  }

  /** The four octets of an address value, most significant first. */
  function Bytes(v: nat): (bs: seq<nat>)
    requires v < AddressSpace
    ensures |bs| == 4 && forall i :: 0 <= i < 4 ==> bs[i] <= 255
  {
    [v / 0x100_0000, v / 0x1_0000 % 0x100, v / 0x100 % 0x100, v % 0x100]
  }

  /** `str(IPv4Address(v))`: the four octets in decimal, joined with '.'. */
  function FormatIPv4(v: nat): string
    requires v < AddressSpace
  {
    var bs := Bytes(v);
    Join([NatToString(bs[0]), NatToString(bs[1]), NatToString(bs[2]), NatToString(bs[3])], '.')
  }

  lemma BytesFromBytes(a: nat, b: nat, c: nat, d: nat)
    requires a <= 255 && b <= 255 && c <= 255 && d <= 255
    ensures Bytes(FromBytes(a, b, c, d)) == [a, b, c, d]
  {
    var v := FromBytes(a, b, c, d);
    var q1 := (a * 0x100 + b) * 0x100 + c;
    var q2 := a * 0x100 + b;
    assert v / 0x100 == q1 && v % 0x100 == d;
    assert q1 / 0x100 == q2 && q1 % 0x100 == c;
    assert q2 / 0x100 == a && q2 % 0x100 == b;
  }

  lemma FromBytesOfBytes(v: nat)
    requires v < AddressSpace
    ensures var bs := Bytes(v); FromBytes(bs[0], bs[1], bs[2], bs[3]) == v
  {
    var q1 := v / 0x100;
    var q2 := q1 / 0x100;
    var q3 := q2 / 0x100;
    assert v / 0x1_0000 == q2;
    assert v / 0x100_0000 == q3;
  }

  /** Writing an address and reading it back gives the same value. */
  lemma {:induction false} FormatThenParse(v: nat)
    requires v < AddressSpace
    ensures ParseIPv4(FormatIPv4(v)) == Some(v)
  {
    var bs := Bytes(v);
    var parts := [NatToString(bs[0]), NatToString(bs[1]), NatToString(bs[2]), NatToString(bs[3])];
    forall i | 0 <= i < 4
      ensures '.' !in parts[i] && ParseOctet(parts[i]) == Some(bs[i])
    {
      OctetOfValue(bs[i]);
      assert parts[i] == NatToString(bs[i]);
    }
    SplitJoin(parts, '.');
    assert FormatIPv4(v) != [] by {
      assert |NatToString(bs[0])| > 0;
    }
    FromBytesOfBytes(v);
  }

  /** Every text the parser accepts is the canonical spelling of its value. */
  lemma {:induction false} ParseThenFormat(s: string)
    requires ParseIPv4(s).Some?
    ensures FormatIPv4(ParseIPv4(s).value) == s
  {
    var parts := Split(s, '.');
    var a, b, c, d := ParseOctet(parts[0]), ParseOctet(parts[1]), ParseOctet(parts[2]), ParseOctet(parts[3]);
    BytesFromBytes(a.value, b.value, c.value, d.value);
    JoinSplit(s, '.');
    assert parts == [parts[0], parts[1], parts[2], parts[3]];
  }

  lemma OctetOfValue(n: nat)
    requires n <= 255
    ensures ParseOctet(NatToString(n)) == Some(n)
    ensures '.' !in NatToString(n)
  {
    NatToStringShort(n);
  }

  /**
   * The IPv4 texts are exactly the canonical dotted quads: four decimal numbers in
   * [0, 255] joined by '.', with nothing else around or between them.
   */
  lemma IsIPv4Iff(s: string)
    ensures IsIPv4(s) <==> exists v: nat :: v < AddressSpace && FormatIPv4(v) == s
  {
    if IsIPv4(s) {
      ParseThenFormat(s);
    }
    forall v: nat | v < AddressSpace && FormatIPv4(v) == s
      ensures IsIPv4(s)
    {
      FormatThenParse(v);
    }
  }

  /** An IPv4 text begins and ends with a digit, so `strip` leaves it alone. */
  lemma IPv4NoEdgeSpace(s: string)
    requires IsIPv4(s)
    ensures NoEdgeSpace(s)
  {
    ParseThenFormat(s);
    var bs := Bytes(ParseIPv4(s).value);
    var w0, w1, w2, w3 := NatToString(bs[0]), NatToString(bs[1]), NatToString(bs[2]), NatToString(bs[3]);
    JoinFour(w0, w1, w2, w3, '.');
    assert s[0] == w0[0];
    assert s[|s| - 1] == w3[|w3| - 1];
  }

  /** An IPv4 text holds dots, so `isdigit` is false of it. */
  lemma IPv4NotDigits(s: string)
    requires IsIPv4(s)
    ensures !IsDigits(s)
  {
    if IsDigits(s) {
      SplitWord(s, '.');
      assert false;
    }
  }

  // ----- masks -----

  /**
   * `_valid_mask` raises instead of answering: the text is all digits, but too long
   * for `int()`.
   */
  predicate MaskRaises(v: string) {
    IsDigits(v) && ExceedsIntLimit(v)
  }

  /**
   * `_valid_mask` answers True: the empty string is refused; an all-digit string
   * is a prefix length and must be at most 32 (leading zeros allowed), and short
   * enough for `int()`; anything else must be an IPv4 dotted quad (contiguity of
   * its bits is not checked).
   */
  predicate IsValidMask(v: string) {
    v != "" && if IsDigits(v) then !ExceedsIntLimit(v) && DecimalValue(v) <= 32 else IsIPv4(v)
  }

  /** `_valid_mask(str(p))` holds exactly for the prefix lengths 0..32. */
  lemma MaskOfInteger(p: int)
    ensures IsValidMask(IntToString(p)) <==> 0 <= p <= 32
  {
    var s := IntToString(p);
    if 0 <= p <= 32 {
      NatToStringShort(p);
    }
    if p < 0 {
      assert !IsAsciiDigit(s[0]);
      var first := Split(s, '.')[0];
      assert first[0] == '-';
      assert ParseOctet(first) == None;
    }
  }

  /** Examples of `_valid_mask`: leading zeros, out of range, non-contiguous, empty. */
  lemma MaskExamples()
    ensures IsValidMask("024") && IsValidMask("0")
    ensures !IsValidMask("33") && !IsValidMask("")
    ensures IsValidMask("255.0.255.0")
  {
    DecimalValueAppend("0", '2');
    DecimalValueAppend("02", '4');
    DecimalValueAppend("3", '3');
    assert "0" + ['2'] == "02" && "02" + ['4'] == "024" && "3" + ['3'] == "33";
    assert IsValidMask("255.0.255.0") by {
      assert !IsAsciiDigit("255.0.255.0"[3]);
      NonContiguousMask();
    }
  }

  lemma NonContiguousMask()
    ensures IsIPv4("255.0.255.0")
  {
    FormatOfNonContiguous();
    FormatThenParse(0xFF00_FF00);
  }

  lemma FormatOfNonContiguous()
    ensures FormatIPv4(0xFF00_FF00) == "255.0.255.0"
  {
    BytesOfNonContiguous();
    Text255();
    FormatOfOctets(0xFF00_FF00, "255", "0", "255", "0");
  }

  lemma BytesOfNonContiguous()
    ensures Bytes(0xFF00_FF00) == [255, 0, 255, 0]
  {
  }

  lemma Text255()
    ensures NatToString(255) == "255"
  {
  }

  /** An address whose octets are written w0 to w3 is formatted as their join. */
  lemma FormatOfOctets(v: nat, w0: string, w1: string, w2: string, w3: string)
    requires v < AddressSpace
    requires var bs := Bytes(v);
      NatToString(bs[0]) == w0 && NatToString(bs[1]) == w1 && NatToString(bs[2]) == w2 && NatToString(bs[3]) == w3
    ensures FormatIPv4(v) == w0 + "." + w1 + "." + w2 + "." + w3
  {
    JoinFour(w0, w1, w2, w3, '.');
  }

  // ----- prefix length to netmask -----

  function Pow2(n: nat): (r: nat)
    ensures r >= 1
  {
    if n == 0 then 1 else 2 * Pow2(n - 1)
  }

  /** Bit i (0 = least significant) of v. */
  predicate Bit(v: nat, i: nat) {
    (v / Pow2(i)) % 2 == 1
  }

  const AllOnes: nat := 0xFFFF_FFFF

  /**
   * The value of the netmask of prefix length p: `ALL_ONES ^ (ALL_ONES >> p)`.
   * `ALL_ONES >> p` has only low bits, all of which are set in `ALL_ONES`, so the
   * exclusive or is a subtraction.
   */
  function NetmaskValue(p: nat): (v: nat)
    requires p <= 32
    ensures v < AddressSpace
  {
    AllOnes - AllOnes / Pow2(p)
  }

  /** `str(IPv4Network(f"0.0.0.0/{p}").netmask)`; it reads back as the mask's value. */
  function PrefixToNetmask(p: nat): (r: string)
    requires p <= 32
    ensures IsIPv4(r) && ParseIPv4(r) == Some(NetmaskValue(p))
  {
    FormatThenParse(NetmaskValue(p));
    FormatIPv4(NetmaskValue(p))
  }

  /**
   * `cidr_to_netmask(cidr)` for the strings the panel hands it (digits short enough
   * for `int()`, with value at most 32): a dotted quad, hence a valid mask that no
   * longer looks like a prefix.
   */
  function CidrToNetmask(cidr: string): (r: string)
    requires IsDigits(cidr) && !ExceedsIntLimit(cidr) && DecimalValue(cidr) <= 32
    ensures IsIPv4(r) && IsValidMask(r) && !IsDigits(r)
    ensures ParseIPv4(r) == Some(NetmaskValue(DecimalValue(cidr)))
  {
    var r := PrefixToNetmask(DecimalValue(cidr));
    IPv4NotDigits(r);
    r
  }

  lemma {:induction false} Pow2Add(a: nat, b: nat)
    ensures Pow2(a + b) == Pow2(a) * Pow2(b)
  {
    if a > 0 {
      Pow2Add(a - 1, b);
      assert Pow2(a + b) == 2 * Pow2(a - 1 + b);
    }
  }

  lemma MulSub(a: int, b: int, d: int)
    ensures (a - b) * d == a * d - b * d
  {
  }

  lemma MulAtLeast(a: int, d: int)
    requires a >= 1 && d >= 1
    ensures a * d >= d
  {
  }

  lemma DivUnique(x: int, d: int, q: int, r: int)
    requires d > 0 && 0 <= r < d && x == q * d + r
    ensures x / d == q
  {
    var q', r' := x / d, x % d;
    assert x == q' * d + r';
    MulSub(q, q', d);
    MulSub(q', q, d);
    if q > q' {
      MulAtLeast(q - q', d);
    } else if q < q' {
      MulAtLeast(q' - q, d);
    }
  }

  lemma Pow2Of32()
    ensures Pow2(32) == AddressSpace
  {
    Pow2Add(4, 4);
    assert Pow2(8) == 256;
    Pow2Add(8, 8);
    assert Pow2(16) == 0x1_0000;
    Pow2Add(16, 16);
  }

  lemma Pow2Monotone(k: nat, n: nat)
    requires k <= n
    ensures Pow2(k) <= Pow2(n)
  {
    Pow2Add(k, n - k);
    MulAtLeast(Pow2(n - k), Pow2(k));
  }

  /** Shifting n one-bits right by p leaves n - p one-bits. */
  lemma {:induction false} OnesShifted(n: nat, p: nat)
    requires p <= n
    ensures (Pow2(n) - 1) / Pow2(p) == Pow2(n - p) - 1
  {
    var lowPart, highPart := Pow2(p), Pow2(n - p);
    Pow2Add(p, n - p);
    assert Pow2(n) == lowPart * highPart;
    MulSub(highPart, 1, lowPart);
    DivUnique(Pow2(n) - 1, lowPart, highPart - 1, lowPart - 1);
  }

  /** The netmask value is 2^32 - 2^(32 - p). */
  lemma NetmaskValueIs(p: nat)
    requires p <= 32
    ensures NetmaskValue(p) == AddressSpace - Pow2(32 - p)
  {
    Pow2Of32();
    OnesShifted(32, p);
  }

  /** Below position k, 2^n - 2^k is a multiple of 2^i. */
  lemma {:induction false} LowSplit(n: nat, k: nat, i: nat)
    requires i < k <= n
    ensures Pow2(n) - Pow2(k) == (Pow2(n - i) - Pow2(k - i)) * Pow2(i)
  {
    var unit, high, low := Pow2(i), Pow2(n - i), Pow2(k - i);
    Pow2Add(i, n - i);
    assert Pow2(n) == unit * high;
    Pow2Add(i, k - i);
    assert Pow2(k) == unit * low;
    MulSub(high, low, unit);
  }

  /** From position k up, 2^n - 2^k divided by 2^i leaves the remainder 2^i - 2^k. */
  lemma {:induction false} HighSplit(n: nat, k: nat, i: nat)
    requires k <= i < n
    ensures Pow2(k) <= Pow2(i)
    ensures Pow2(n) - Pow2(k) == (Pow2(n - i) - 1) * Pow2(i) + (Pow2(i) - Pow2(k))
  {
    Pow2Monotone(k, i);
    Pow2Add(i, n - i);
    MulSub(Pow2(n - i), 1, Pow2(i));
  }

  /** In 2^n - 2^k, a bit below position k is clear. */
  lemma LowBitClear(n: nat, k: nat, i: nat)
    requires i < k <= n
    ensures Pow2(k) <= Pow2(n) && !Bit(Pow2(n) - Pow2(k), i)
  {
    Pow2Monotone(k, n);
    LowSplit(n, k, i);
    DivUnique(Pow2(n) - Pow2(k), Pow2(i), Pow2(n - i) - Pow2(k - i), 0);
    DifferenceEven(n - i, k - i);
  }

  /** In 2^n - 2^k, a bit at a position from k to n - 1 is set. */
  lemma HighBitSet(n: nat, k: nat, i: nat)
    requires k <= i < n
    ensures Pow2(k) <= Pow2(n) && Bit(Pow2(n) - Pow2(k), i)
  {
    Pow2Monotone(k, n);
    HighSplit(n, k, i);
    DivUnique(Pow2(n) - Pow2(k), Pow2(i), Pow2(n - i) - 1, Pow2(i) - Pow2(k));
    PredecessorOdd(n - i);
  }

  lemma DifferenceEven(a: nat, b: nat)
    requires a >= 1 && b >= 1
    ensures (Pow2(a) - Pow2(b)) % 2 == 0
  {
    assert Pow2(a) == 2 * Pow2(a - 1);
    assert Pow2(b) == 2 * Pow2(b - 1);
  }

  lemma PredecessorOdd(a: nat)
    requires a >= 1
    ensures (Pow2(a) - 1) % 2 == 1
  {
    var half := Pow2(a - 1);
    assert Pow2(a) - 1 == 2 * (half - 1) + 1;
    DivUnique(Pow2(a) - 1, 2, half - 1, 1);
  }

  /** For p in [0, 32] the netmask has exactly its top p bits set. */
  lemma NetmaskTopBits(p: nat, i: nat)
    requires p <= 32 && i < 32
    ensures Bit(NetmaskValue(p), i) <==> i >= 32 - p
  {
    NetmaskValueIs(p);
    Pow2Of32();
    if i < 32 - p {
      LowBitClear(32, 32 - p, i);
    } else {
      HighBitSet(32, 32 - p, i);
    }
  }

  /** The conversions the panel's users rely on: /0, /24 and /32. */
  lemma NetmaskOfZero()
    ensures PrefixToNetmask(0) == "0.0.0.0"
  {
    NetmaskValueOfZero();
  }

  lemma NetmaskOf24()
    ensures PrefixToNetmask(24) == "255.255.255.0"
  {
    NetmaskValueOf24();
    FormatOf24();
  }

  lemma NetmaskOf32()
    ensures PrefixToNetmask(32) == "255.255.255.255"
  {
    NetmaskValueOf32();
    FormatOf32();
  }

  lemma NetmaskValueOf32()
    ensures NetmaskValue(32) == 0xFFFF_FFFF
  {
    NetmaskValueIs(32);
  }

  lemma NetmaskValueOfZero()
    ensures NetmaskValue(0) == 0 && FormatIPv4(0) == "0.0.0.0"
  {
    NetmaskValueIs(0);
    Pow2Of32();
    assert Bytes(0) == [0, 0, 0, 0];
    FormatOfOctets(0, "0", "0", "0", "0");
  }

  lemma NetmaskValueOf24()
    ensures NetmaskValue(24) == 0xFFFF_FF00
  {
    NetmaskValueIs(24);
    assert Pow2(8) == 256;
  }

  lemma FormatOf24()
    ensures FormatIPv4(0xFFFF_FF00) == "255.255.255.0"
  {
    BytesOf24();
    Text255();
    FormatOfOctets(0xFFFF_FF00, "255", "255", "255", "0");
  }

  lemma BytesOf24()
    ensures Bytes(0xFFFF_FF00) == [255, 255, 255, 0]
  {
  }

  lemma FormatOf32()
    ensures FormatIPv4(0xFFFF_FFFF) == "255.255.255.255"
  {
    BytesOf32();
    Text255();
    FormatOfOctets(0xFFFF_FFFF, "255", "255", "255", "255");
  }

  lemma BytesOf32()
    ensures Bytes(0xFFFF_FFFF) == [255, 255, 255, 255]
  {
  }
}
