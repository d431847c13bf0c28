/** Classifying an IP literal: the IPv4 block list, and IPv6 text by its eight groups. */
module IpAddress {
  import opened Wrappers
  import opened Text

  // ----- IPv4 ---------------------------------------------------------------------

  /** The four parts of a dotted quad, each of one to three digits. */
  function OctetTexts(host: string): Option<seq<string>> {
    var parts := Split(host, '.');
    if |parts| == 4 && OctetText(parts[0]) && OctetText(parts[1]) && OctetText(parts[2]) && OctetText(parts[3])
    then Some(parts) else None
  }

  predicate OctetText(t: string) { 1 <= |t| <= 3 && AllDigits(t) }

  function Octet(t: string): nat
  {
    if AllDigits(t) then ParseDecimal(t) else 0
  }

  predicate LeadingZero(t: string) { |t| > 1 && t[0] == '0' }

  /** The tests on the first three octets, in the order they are made. */
  predicate SpecialOctets(a: nat, b: nat, c: nat) {
    || a == 0
    || a == 10
    || (a == 100 && 64 <= b <= 127)
    || a == 127
    || (a == 169 && b == 254)
    || (a == 172 && 16 <= b <= 31)
    || (a == 192 && b == 168)
    || a == 255
    || (a == 192 && b == 0 && c == 0)
    || (a == 192 && b == 0 && c == 2)
    || (a == 192 && b == 88 && c == 99)
    || (a == 198 && (b == 18 || b == 19))
    || (a == 198 && b == 51 && c == 100)
    || (a == 203 && b == 0 && c == 113)
    || a >= 224
  }

  predicate IsPrivateOrReservedIpv4(host: string) {
    var texts := OctetTexts(host);
    if texts.None? then true else
    var t := texts.value;
    if LeadingZero(t[0]) || LeadingZero(t[1]) || LeadingZero(t[2]) || LeadingZero(t[3]) then true else
    var a, b, c, d := Octet(t[0]), Octet(t[1]), Octet(t[2]), Octet(t[3]);
    if a > 255 || b > 255 || c > 255 || d > 255 then true else SpecialOctets(a, b, c)
  }

  /** A 32-bit address from its octets. */
  function Address(a: nat, b: nat, c: nat, d: nat): nat { ((a * 256 + b) * 256 + c) * 256 + d }

  function BlockSize(bits: nat): nat {
    if bits == 3 then 0x2000_0000
    else if bits == 8 then 0x100_0000
    else if bits == 10 then 0x40_0000
    else if bits == 12 then 0x10_0000
    else if bits == 15 then 0x2_0000
    else if bits == 16 then 0x1_0000
    else 0x100
  }

  /** The address lies in the block `a.b.c.0/bits`. */
  predicate InBlock(v: nat, a: nat, b: nat, c: nat, bits: nat) {
    Address(a, b, c, 0) <= v < Address(a, b, c, 0) + BlockSize(bits)
  }

  /** The special-purpose blocks. */
  predicate ReservedAddress(v: nat) {
    || InBlock(v, 0, 0, 0, 8)
    || InBlock(v, 10, 0, 0, 8)
    || InBlock(v, 100, 64, 0, 10)
    || InBlock(v, 127, 0, 0, 8)
    || InBlock(v, 169, 254, 0, 16)
    || InBlock(v, 172, 16, 0, 12)
    || InBlock(v, 192, 0, 0, 24)
    || InBlock(v, 192, 0, 2, 24)
    || InBlock(v, 192, 88, 99, 24)
    || InBlock(v, 192, 168, 0, 16)
    || InBlock(v, 198, 18, 0, 15)
    || InBlock(v, 198, 51, 100, 24)
    || InBlock(v, 203, 0, 113, 24)
    || InBlock(v, 224, 0, 0, 3)
  }

  /** A block of `n` neighbouring second octets below one first octet. */
  lemma BlockOnTwo(a: nat, b: nat, c: nat, d: nat, p: nat, q: nat, bits: nat, n: nat)
    requires a <= 255 && b <= 255 && c <= 255 && d <= 255
    requires BlockSize(bits) == n * 0x1_0000 && q + n <= 256
    ensures InBlock(Address(a, b, c, d), p, q, 0, bits) <==> a == p && q <= b < q + n
  {
  }

  lemma BlockOnThree(a: nat, b: nat, c: nat, d: nat, p: nat, q: nat, r: nat)
    requires a <= 255 && b <= 255 && c <= 255 && d <= 255 && q <= 255 && r <= 255
    ensures InBlock(Address(a, b, c, d), p, q, r, 24) <==> a == p && b == q && c == r
  {
  }

  lemma HighBlock(a: nat, b: nat, c: nat, d: nat)
    requires a <= 255 && b <= 255 && c <= 255 && d <= 255
    ensures InBlock(Address(a, b, c, d), 224, 0, 0, 3) <==> a >= 224
  {
  }

  /** The tests on octets are membership in the blocks. */
  lemma OctetsMeetBlocks(a: nat, b: nat, c: nat, d: nat)
    requires a <= 255 && b <= 255 && c <= 255 && d <= 255
    ensures SpecialOctets(a, b, c) <==> ReservedAddress(Address(a, b, c, d))
  {
    BlockOnTwo(a, b, c, d, 0, 0, 8, 256);
    BlockOnTwo(a, b, c, d, 10, 0, 8, 256);
    BlockOnTwo(a, b, c, d, 100, 64, 10, 64);
    BlockOnTwo(a, b, c, d, 127, 0, 8, 256);
    BlockOnTwo(a, b, c, d, 169, 254, 16, 1);
    BlockOnTwo(a, b, c, d, 172, 16, 12, 16);
    BlockOnThree(a, b, c, d, 192, 0, 0);
    BlockOnThree(a, b, c, d, 192, 0, 2);
    BlockOnThree(a, b, c, d, 192, 88, 99);
    BlockOnTwo(a, b, c, d, 192, 168, 16, 1);
    BlockOnTwo(a, b, c, d, 198, 18, 15, 2);
    BlockOnThree(a, b, c, d, 198, 51, 100);
    BlockOnThree(a, b, c, d, 203, 0, 113);
    HighBlock(a, b, c, d);
  }

  function Dotted(a: nat, b: nat, c: nat, d: nat): string {
    Join([Decimal(a), Decimal(b), Decimal(c), Decimal(d)], '.')
  }

  lemma OctetTextExactly(t: string, n: nat)
    ensures OctetText(t) && !LeadingZero(t) && Octet(t) == n && n <= 255 <==> n <= 255 && t == Decimal(n)
  {
    if OctetText(t) && !LeadingZero(t) {
      if t[0] == '0' {
        assert t == "0" && t[..0] == "";
        assert ParseDecimal(t[..0]) == 0 && Octet(t) == 0;
        assert Digit(0) == '0' && Decimal(0) == [Digit(0)];
      } else {
        DecimalOfParse(t);
      }
    }
    if n <= 255 {
      assert Pow10(3) == 1000;
      DecimalLength(n, 3);
      ParseDecimalOfDecimal(n);
      if n > 0 { DecimalStarts(n); }
    }
  }

  /** A host passes exactly when it is the canonical text of an address outside every block. */
  lemma PublicIpv4Exactly(host: string)
    ensures !IsPrivateOrReservedIpv4(host) <==>
      exists a: nat, b: nat, c: nat, d: nat :: IsPublicText(host, a, b, c, d)
  {
    if !IsPrivateOrReservedIpv4(host) {
      var t := Split(host, '.');
      var a, b, c, d := Octet(t[0]), Octet(t[1]), Octet(t[2]), Octet(t[3]);
      OctetTextExactly(t[0], a);
      OctetTextExactly(t[1], b);
      OctetTextExactly(t[2], c);
      OctetTextExactly(t[3], d);
      OctetsMeetBlocks(a, b, c, d);
      JoinSplit(host, '.');
      assert t == [Decimal(a), Decimal(b), Decimal(c), Decimal(d)];
      assert IsPublicText(host, a, b, c, d);
    }
    if a: nat, b: nat, c: nat, d: nat :| IsPublicText(host, a, b, c, d) {
      DottedVerdict(a, b, c, d);
    }
  }

  predicate IsPublicText(host: string, a: nat, b: nat, c: nat, d: nat) {
    && a <= 255 && b <= 255 && c <= 255 && d <= 255
    && host == Dotted(a, b, c, d) && !ReservedAddress(Address(a, b, c, d))
  }

  lemma DottedParts(a: nat, b: nat, c: nat, d: nat)
    requires a <= 255 && b <= 255 && c <= 255 && d <= 255
    ensures OctetTexts(Dotted(a, b, c, d)) == Some([Decimal(a), Decimal(b), Decimal(c), Decimal(d)])
  {
    var parts := [Decimal(a), Decimal(b), Decimal(c), Decimal(d)];
    OctetTextExactly(parts[0], a);
    OctetTextExactly(parts[1], b);
    OctetTextExactly(parts[2], c);
    OctetTextExactly(parts[3], d);
    assert forall i :: 0 <= i < 4 ==> '.' !in parts[i];
    SplitJoin(parts, '.');
  }

  /** The verdict on a canonical quad is the block list on its address. */
  lemma DottedVerdict(a: nat, b: nat, c: nat, d: nat)
    requires a <= 255 && b <= 255 && c <= 255 && d <= 255
    ensures IsPrivateOrReservedIpv4(Dotted(a, b, c, d)) <==> ReservedAddress(Address(a, b, c, d))
  {
    DottedParts(a, b, c, d);
    OctetTextExactly(Decimal(a), a);
    OctetTextExactly(Decimal(b), b);
    OctetTextExactly(Decimal(c), c);
    OctetTextExactly(Decimal(d), d);
    OctetsMeetBlocks(a, b, c, d);
  }
}
