/**
 UUIDv7 with a per-process monotonic tail: section 5.7 of RFC 9562 gives the
 48-bit millisecond, 12-bit and 62-bit fields. The generator keeps a 76-bit
 tail, of which bits 62 and 63 are not written.
 */
module Uuid {
  import opened Numerals
  import opened Wrappers

  const P8 := 0x100
  const P48 := 0x1_0000_0000_0000
  const P56 := 0x100_0000_0000_0000
  const P62 := 0x4000_0000_0000_0000
  const P64 := 0x1_0000_0000_0000_0000
  const P72 := 0x100_0000_0000_0000_0000
  const P76 := 0x1000_0000_0000_0000_0000

  // ----- big-endian byte strings and their order ---------------------------------

  /** The low `k` bytes of `n`, most significant first. */
  function BytesOf(n: nat, k: nat): (bytes: seq<byte>)
    ensures |bytes| == k
  {
    if k == 0 then [] else BytesOf(n / 256, k - 1) + [n % 256]
  }

  function Pow256(k: nat): (p: nat)
    ensures p > 0
  {
    if k == 0 then 1 else 256 * Pow256(k - 1)
  }

  lemma DivMod256(n: nat, p: nat)
    requires p > 0
    ensures n % (256 * p) == (n / 256) % p * 256 + n % 256
  {
    DivDiv(n, 256, p);
  }

  lemma {:induction false} ValueOfBytes(n: nat, k: nat)
    ensures Value(BytesOf(n, k)) == n % Pow256(k)
  {
    if k > 0 {
      var bytes := BytesOf(n, k);
      assert bytes[..k - 1] == BytesOf(n / 256, k - 1);
      ValueOfBytes(n / 256, k - 1);
      DivMod256(n, Pow256(k - 1));
    }
  }

  lemma {:induction false} ValueConcat(a: seq<byte>, b: seq<byte>)
    ensures Value(a + b) == Value(a) * Pow256(|b|) + Value(b)
    decreases |b|
  {
    if b == [] {
      assert a + b == a;
    } else {
      var init, last := b[..|b| - 1], b[|b| - 1];
      assert (a + b)[..|a + b| - 1] == a + init;
      ValueConcat(a, init);
      calc {
        Value(a + b);
        (Value(a) * Pow256(|init|) + Value(init)) * 256 + last;
        Value(a) * Pow256(|init|) * 256 + Value(b);
        { assert Value(a) * Pow256(|init|) * 256 == Value(a) * (256 * Pow256(|init|)); }
        Value(a) * Pow256(|b|) + Value(b);
      }
    }
  }

  lemma {:induction false} ValueBound(a: seq<byte>)
    ensures Value(a) < Pow256(|a|)
    decreases |a|
  {
    if a != [] { ValueBound(a[..|a| - 1]); }
  }

  ghost predicate BytesBefore(a: seq<byte>, b: seq<byte>) {
    |a| == |b| && exists k :: FirstDifference(a, b, k) && a[k] < b[k]
  }

  ghost predicate FirstDifference<T>(a: seq<T>, b: seq<T>, k: int) {
    0 <= k < |a| && k < |b| && a[k] != b[k] && forall i :: 0 <= i < k ==> a[i] == b[i]
  }

  lemma EarlierByteDecides(a: seq<byte>, b: seq<byte>, k: int)
    requires |a| == |b| && FirstDifference(a, b, k) && a[k] < b[k]
    ensures Value(a) < Value(b)
  {
    var u, v := [a[k]] + a[k + 1..], [b[k]] + b[k + 1..];
    assert a == a[..k] + u && b == b[..k] + v && a[..k] == b[..k];
    LeadByteDecides(a[k], a[k + 1..], b[k], b[k + 1..]);
    BehindOneHead(a[..k], u, v);
  }

  lemma BehindOneHead(head: seq<byte>, u: seq<byte>, v: seq<byte>)
    requires |u| == |v| && Value(u) < Value(v)
    ensures Value(head + u) < Value(head + v)
  {
    ValueConcat(head, u);
    ValueConcat(head, v);
  }

  lemma LeadByteDecides(c: byte, x: seq<byte>, d: byte, y: seq<byte>)
    requires |x| == |y| && c < d
    ensures Value([c] + x) < Value([d] + y)
  {
    ValueConcat([c], x);
    ValueConcat([d], y);
    SingleByte(c);
    SingleByte(d);
    ValueBound(x);
    SmallerLeadByte(c, d, Pow256(|x|), Value(x), Value(y));
  }

  lemma SmallerLeadByte(c: nat, d: nat, p: nat, x: nat, y: nat)
    requires c < d && x < p
    ensures c * p + x < d * p + y
  {
    assert (c + 1) * p <= d * p;
    assert (c + 1) * p == c * p + p;
  }

  lemma SingleByte(x: byte)
    ensures Value([x]) == x
  {
    assert [x][..0] == [];
  }

  lemma {:induction false} SomeDifference<T>(a: seq<T>, b: seq<T>)
    requires |a| == |b| && a != b
    ensures exists k :: FirstDifference(a, b, k)
    decreases |a|
  {
    var n := |a| - 1;
    if a[..n] == b[..n] {
      assert a == a[..n] + [a[n]] && b == b[..n] + [b[n]];
      assert FirstDifference(a, b, n);
    } else {
      SomeDifference(a[..n], b[..n]);
      var k :| FirstDifference(a[..n], b[..n], k);
      assert FirstDifference(a, b, k);
    }
  }

  /** Byte strings of one length sort as the numbers they write. */
  lemma OrderIsValueOrder(a: seq<byte>, b: seq<byte>)
    requires |a| == |b|
    ensures BytesBefore(a, b) <==> Value(a) < Value(b)
  {
    if a != b {
      SomeDifference(a, b);
      var k :| FirstDifference(a, b, k);
      if a[k] < b[k] {
        EarlierByteDecides(a, b, k);
      } else {
        EarlierByteDecides(b, a, k);
        if j :| FirstDifference(a, b, j) && a[j] < b[j] {
          EarlierByteDecides(a, b, j);
        }
      }
    }
  }

  // ----- the sixteen bytes and their text ---------------------------------------------

  /** Version 7 and variant 10, around the fields. */
  function Layout(ms: nat, tail: nat): (buf: seq<byte>)
    ensures |buf| == 16
  {
    BytesOf(ms, 6) + [0x70 + tail / P72 % 16, tail / P64 % 256, 0x80 + tail / P56 % 64] + BytesOf(tail, 7)
  }

  function HexDigit(d: nat): (c: char)
    requires d < 16
  {
    if d < 10 then '0' + d as char else 'a' + (d - 10) as char
  }

  function Hex(bytes: seq<byte>): (s: string)
    ensures |s| == 2 * |bytes|
  {
    if bytes == [] then "" else [HexDigit(bytes[0] / 16), HexDigit(bytes[0] % 16)] + Hex(bytes[1..])
  }

  /** Dashes after 8, 12, 16 and 20 digits. */
  function Dashed(hex: string): (s: string)
    requires |hex| == 32
    ensures |s| == 36
  {
    hex[..8] + "-" + hex[8..12] + "-" + hex[12..16] + "-" + hex[16..20] + "-" + hex[20..]
  }

  function Text(ms: nat, tail: nat): string { Dashed(Hex(Layout(ms, tail))) }

  ghost predicate TextBefore(a: string, b: string) {
    |a| == |b| && exists k :: FirstDifference(a, b, k) && a[k] < b[k]
  }

  lemma {:induction false} HexAt(bytes: seq<byte>, i: nat)
    requires i < |bytes|
    ensures Hex(bytes)[2 * i] == HexDigit(bytes[i] / 16) && Hex(bytes)[2 * i + 1] == HexDigit(bytes[i] % 16)
  {
    if i > 0 {
      HexAt(bytes[1..], i - 1);
    }
  }

  lemma HexDigitOrder(c: nat, d: nat)
    requires c < 16 && d < 16
    ensures HexDigit(c) < HexDigit(d) <==> c < d
    ensures HexDigit(c) == HexDigit(d) <==> c == d
  {}

  /** The first differing byte shows in its first or its second digit. */
  lemma HexOrderOneWay(a: seq<byte>, b: seq<byte>, k: nat)
    requires |a| == |b| && FirstDifference(a, b, k) && a[k] < b[k]
    ensures TextBefore(Hex(a), Hex(b))
  {
    var x, y := Hex(a), Hex(b);
    forall i: nat | i < 2 * k ensures x[i] == y[i] {
      HexAt(a, i / 2);
      HexAt(b, i / 2);
      assert i == 2 * (i / 2) || i == 2 * (i / 2) + 1;
    }
    HexAt(a, k);
    HexAt(b, k);
    HexDigitOrder(a[k] / 16, b[k] / 16);
    HexDigitOrder(a[k] % 16, b[k] % 16);
    if a[k] / 16 == b[k] / 16 {
      assert FirstDifference(x, y, 2 * k + 1);
    } else {
      assert FirstDifference(x, y, 2 * k);
    }
  }

  predicate IsDash(i: nat) { i == 8 || i == 13 || i == 18 || i == 23 }

  /** Where the character at place `i` of the dashed text comes from. */
  function Undashed(i: nat): nat {
    if i < 8 then i else if 9 <= i < 13 then i - 1 else if 14 <= i < 18 then i - 2
    else if 19 <= i < 23 then i - 3 else if 24 <= i < 36 then i - 4 else 0
  }

  lemma DashedAt(x: string, i: nat)
    requires |x| == 32 && i < 36
    ensures Dashed(x)[i] == if IsDash(i) then '-' else x[Undashed(i)]
  {
  }

  /** Dashes at fixed places move the first difference but not its direction. */
  lemma DashedOrderOneWay(x: string, y: string)
    requires |x| == |y| == 32 && TextBefore(x, y)
    ensures TextBefore(Dashed(x), Dashed(y))
  {
    var j :| FirstDifference(x, y, j) && x[j] < y[j];
    var k := if j < 8 then j else if j < 12 then j + 1 else if j < 16 then j + 2 else if j < 20 then j + 3 else j + 4;
    DashedAt(x, k);
    DashedAt(y, k);
    forall i | 0 <= i < k ensures Dashed(x)[i] == Dashed(y)[i] {
      DashedAt(x, i);
      DashedAt(y, i);
    }
    assert FirstDifference(Dashed(x), Dashed(y), k);
  }

  lemma OneDirection(a: string, b: string)
    ensures !(TextBefore(a, b) && TextBefore(b, a))
    ensures a == b ==> !TextBefore(a, b)
  {
  }

  lemma TextFollowsBytes(a: seq<byte>, b: seq<byte>)
    requires |a| == |b| == 16
    ensures TextBefore(Dashed(Hex(a)), Dashed(Hex(b))) <==> BytesBefore(a, b)
    ensures Dashed(Hex(a)) == Dashed(Hex(b)) ==> a == b
  {
    if a != b {
      SomeDifference(a, b);
      var k :| FirstDifference(a, b, k);
      if a[k] < b[k] {
        HexOrderOneWay(a, b, k);
        DashedOrderOneWay(Hex(a), Hex(b));
      } else {
        HexOrderOneWay(b, a, k);
        DashedOrderOneWay(Hex(b), Hex(a));
        EarlierByteDecides(b, a, k);
        OrderIsValueOrder(a, b);
      }
      OneDirection(Dashed(Hex(a)), Dashed(Hex(b)));
    } else {
      OneDirection(Dashed(Hex(a)), Dashed(Hex(b)));
      OrderIsValueOrder(a, b);
    }
  }

  // ----- what the bytes write --------------------------------------------------------------

  /** The part of (ms, tail) that the text carries, as one number: bits 62 and 63 of the tail are not in it. */
  function Key(ms: nat, tail: nat): nat {
    (ms * 0x1000 + tail / P64) * P62 + tail % P62
  }

  lemma PowersOf256()
    ensures Pow256(1) == P8 && Pow256(6) == P48 && Pow256(7) == P56 && Pow256(3) == 0x100_0000 && Pow256(10) == 0x1_0000_0000_0000_0000_0000
  {
    assert Pow256(2) == 0x1_0000;
    assert Pow256(3) == 0x100_0000;
    assert Pow256(4) == 0x1_0000_0000;
    assert Pow256(5) == 0x100_0000_0000;
    assert Pow256(6) == P48;
    assert Pow256(8) == P64;
    assert Pow256(9) == P72;
  }

  lemma ThreeBytes(x: byte, y: byte, z: byte)
    ensures Value([x, y, z]) == x * 0x1_0000 + y * 0x100 + z
  {
    assert [x, y, z][..2] == [x, y] && [x, y][..1] == [x];
    SingleByte(x);
  }

  lemma LayoutValue(ms: nat, tail: nat)
    requires ms < P48 && tail < P76
    ensures Value(Layout(ms, tail)) ==
      ms * 0x1_0000_0000_0000_0000_0000 + 7 * P76 + tail / P64 * P64 + 2 * P62 + tail % P62
  {
    var head, mid, low := BytesOf(ms, 6), [0x70 + tail / P72 % 16, tail / P64 % 256, 0x80 + tail / P56 % 64], BytesOf(tail, 7);
    assert Layout(ms, tail) == head + mid + low;
    ValueOfParts(head, mid, low);
    FieldBytes(ms, tail);
    ThreeBytes(mid[0], mid[1], mid[2]);
    MiddleFields(tail);
  }

  lemma ValueOfParts(head: seq<byte>, mid: seq<byte>, low: seq<byte>)
    requires |mid| == 3 && |low| == 7
    ensures Value(head + mid + low) == Value(head) * 0x1_0000_0000_0000_0000_0000 + Value(mid) * P56 + Value(low)
  {
    PowersOf256();
    ValueConcat(head + mid, low);
    ValueConcat(head, mid);
  }

  lemma FieldBytes(ms: nat, tail: nat)
    requires ms < P48
    ensures Value(BytesOf(ms, 6)) == ms && Value(BytesOf(tail, 7)) == tail % P56
  {
    PowersOf256();
    ValueOfBytes(ms, 6);
    ValueOfBytes(tail, 7);
  }

  lemma MiddleFields(tail: nat)
    requires tail < P76
    ensures ((0x70 + tail / P72 % 16) * 0x1_0000 + tail / P64 % 256 * 0x100 + (0x80 + tail / P56 % 64)) * P56 + tail % P56
         == 7 * P76 + tail / P64 * P64 + 2 * P62 + tail % P62
  {
    var e, d := tail / P56, tail % P56;
    DivDiv(tail, P56, 0x1_0000);
    DivDiv(tail, P56, 0x100);
    DivDiv(tail, P56, 64);
    assert P56 * 0x1_0000 == P72 && P56 * 0x100 == P64 && P56 * 64 == P62;
    SmallFields(e);
  }

  lemma SmallFields(e: nat)
    requires e < 0x10_0000
    ensures (0x70 + e / 0x1_0000 % 16) * 0x1_0000 + e / 0x100 % 256 * 0x100 + (0x80 + e % 64)
         == 7 * 0x10_0000 + e / 0x100 * 0x100 + 2 * 64 + e % 64
  {}

  /** Texts sort exactly by the bits they carry, and equal texts carry equal bits. */
  lemma TextOrder(ms: nat, tail: nat, ms': nat, tail': nat)
    requires ms < P48 && ms' < P48 && tail < P76 && tail' < P76
    ensures TextBefore(Text(ms, tail), Text(ms', tail')) <==> Key(ms, tail) < Key(ms', tail')
    ensures Text(ms, tail) == Text(ms', tail') ==> Key(ms, tail) == Key(ms', tail')
  {
    TextFollowsBytes(Layout(ms, tail), Layout(ms', tail'));
    OrderIsValueOrder(Layout(ms, tail), Layout(ms', tail'));
    LayoutValue(ms, tail);
    LayoutValue(ms', tail');
    ValueFollowsKey(ms, tail / P64, tail % P62, ms', tail' / P64, tail' % P62);
  }

  lemma ValueFollowsKey(ms: nat, hi: nat, lo: nat, ms': nat, hi': nat, lo': nat)
    requires hi < 0x1000 && hi' < 0x1000 && lo < P62 && lo' < P62
    ensures var v, v' := ms * 0x1_0000_0000_0000_0000_0000 + 7 * P76 + hi * P64 + 2 * P62 + lo,
                         ms' * 0x1_0000_0000_0000_0000_0000 + 7 * P76 + hi' * P64 + 2 * P62 + lo';
      var k, k' := (ms * 0x1000 + hi) * P62 + lo, (ms' * 0x1000 + hi') * P62 + lo';
      (v < v' <==> k < k') && (v == v' <==> k == k')
  {
    PairOrder(ms, hi, ms', hi', 0x1000);
    PairOrder(ms, hi, ms', hi', 0x1_0000);
    PairOrder(ms * 0x1000 + hi, lo, ms' * 0x1000 + hi', lo', P62);
    PairOrder(ms * 0x1_0000 + hi, lo, ms' * 0x1_0000 + hi', lo', P64);
  }

  /** Pairs with a bounded second part compare as the numbers they write in base `p`. */
  lemma PairOrder(x: nat, y: nat, x': nat, y': nat, p: nat)
    requires y < p && y' < p
    ensures x * p + y < x' * p + y' <==> x < x' || (x == x' && y < y')
    ensures x * p + y == x' * p + y' <==> x == x' && y == y'
  {
    if x < x' { SmallerLeadByte(x, x', p, y, y'); } else if x' < x { SmallerLeadByte(x', x, p, y', y); }
  }

  // ----- the generator -----------------------------------------------------------------------

  /** `lastMs` and `lastTail`. */
  datatype State = State(ms: nat, tail: nat) {
    predicate Valid() { tail < P76 }
    predicate Before(next: State) { ms < next.ms || (ms == next.ms && tail < next.tail) }
  }

  type Random = r: seq<byte> | |r| == 10 witness [0, 0, 0, 0, 0, 0, 0, 0, 0, 0]

  /** The 76 random bits: the low half of the first byte, then nine bytes. */
  function RandomTail(r: Random): (tail: nat)
    ensures tail < P76
  {
    TailBound(r);
    Value([r[0] % 16] + r[1..])
  }

  lemma TailBound(r: Random)
    ensures Value([r[0] % 16] + r[1..]) < P76
  {
    PowersOf256();
    assert Pow256(8) == P64;
    assert Pow256(9) == P72;
    ValueConcat([r[0] % 16], r[1..]);
    SingleByte(r[0] % 16);
    ValueBound(r[1..]);
  }

  /** A later clock takes fresh random bits; otherwise the tail counts up, into the next millisecond if it must. */
  function Advance(s: State, clock: nat, r: Random): State {
    if clock > s.ms then State(clock, RandomTail(r))
    else if s.tail + 1 < P76 then State(s.ms, s.tail + 1)
    else State(s.ms + 1, 0)
  }

  class Generator {
    var lastMs: nat
    var lastTail: nat

    constructor ()
      ensures Abs() == State(0, 0)
    {
      lastMs, lastTail := 0, 0;
    }

    function Abs(): State
      reads this
    {
      State(lastMs, lastTail)
    }

    /** None: the millisecond does not fit in six bytes, and the write throws. */
    method Next(clock: nat, rand: Random) returns (id: Option<string>)
      requires Abs().Valid()
      modifies this
      ensures Abs().Valid() && Abs() == Advance(old(Abs()), clock, rand)
      ensures id == if lastMs < P48 then Some(Text(lastMs, lastTail)) else None
    {
      var ms, tail := clock, RandomTail(rand);
      if ms <= lastMs {
        ms, tail := lastMs, lastTail + 1;
        if tail / P76 != 0 {
          ms, tail := ms + 1, 0;
        }
      }
      lastMs, lastTail := ms, tail;
      if ms >= P48 {
        return None;
      }
      var buf := new byte[16];
      WriteUIntBE(buf, ms, 0, 6);
      buf[6] := 0x70 + tail / P72 % 16;
      buf[7] := tail / P64 % 256;
      buf[8] := 0x80 + tail / P56 % 64;
      WriteUIntBE(buf, tail, 9, 7);
      assert buf[0..6] == BytesOf(ms, 6);
      assert buf[..] == buf[0..6] + [buf[6], buf[7], buf[8]] + buf[9..16];
      return Some(Dashed(Hex(buf[..])));
    }

    /** The low `count` bytes of `value`, most significant first, at `offset`. */
    static method WriteUIntBE(buf: array<byte>, value: nat, offset: nat, count: nat)
      requires offset + count <= buf.Length
      modifies buf
      ensures buf[offset..offset + count] == BytesOf(value, count)
      ensures forall i :: 0 <= i < buf.Length && !(offset <= i < offset + count) ==> buf[i] == old(buf[i])
    {
      var left: nat, rest: nat := count, value;
      while left > 0
        invariant left <= count
        invariant BytesOf(value, count) == BytesOf(rest, left) + buf[offset + left..offset + count]
        invariant forall i :: 0 <= i < buf.Length && !(offset <= i < offset + count) ==> buf[i] == old(buf[i])
      {
        left := left - 1;
        buf[offset + left] := rest % 256;
        assert buf[offset + left..offset + count] == [rest % 256] + buf[offset + left + 1..offset + count];
        rest := rest / 256;
      }
    }
  }

  // ----- what every run guarantees ---------------------------------------------------------------

  /** Whatever the clock does, the internal pair strictly increases. */
  lemma AlwaysIncreases(s: State, clock: nat, r: Random)
    requires s.Valid()
    ensures s.Before(Advance(s, clock, r)) && Advance(s, clock, r).Valid()
  {}

  /** The one step on which the text does not follow the internal order. */
  predicate LosesOrder(s: State, clock: nat) {
    && clock <= s.ms
    && s.tail % P62 == P62 - 1          // the low 62 bits are all ones
    && s.tail / P62 % 4 != 3            // and the carry stays in the two bits that are not written
  }

  lemma KeyIncreasesExactly(s: State, clock: nat, r: Random)
    requires s.Valid()
    ensures var t := Advance(s, clock, r);
      && (Key(s.ms, s.tail) < Key(t.ms, t.tail) <==> !LosesOrder(s, clock))
      && (LosesOrder(s, clock) ==> Key(t.ms, t.tail) < Key(s.ms, s.tail))
  {
    var t := Advance(s, clock, r);
    KeyOrder(s, t);
    KeyOrder(t, s);
    if clock <= s.ms && s.tail + 1 < P76 {
      CountingUp(s.tail);
    } else if clock <= s.ms {
      assert s.tail == P76 - 1;
      assert s.tail / P62 % 4 == 3;
    }
  }

  /** While the millisecond fits, the text strictly increases exactly when no carry is lost in bits 62 and 63. */
  lemma TextIncreasesExactly(s: State, clock: nat, r: Random)
    requires s.Valid() && Advance(s, clock, r).ms < P48
    ensures var t := Advance(s, clock, r);
      TextBefore(Text(s.ms, s.tail), Text(t.ms, t.tail)) <==> !LosesOrder(s, clock)
  {
    var t := Advance(s, clock, r);
    TextOrder(s.ms, s.tail, t.ms, t.tail);
    KeyIncreasesExactly(s, clock, r);
  }

  /** Keys compare by millisecond, then by the twelve bits above bit 64, then by the low 62 bits. */
  lemma KeyOrder(s: State, t: State)
    requires s.Valid() && t.Valid()
    ensures Key(s.ms, s.tail) < Key(t.ms, t.tail) <==>
      || s.ms < t.ms
      || (s.ms == t.ms && (s.tail / P64 < t.tail / P64 || (s.tail / P64 == t.tail / P64 && s.tail % P62 < t.tail % P62)))
    ensures Key(s.ms, s.tail) == Key(t.ms, t.tail) ==> s.ms == t.ms && s.tail % P62 == t.tail % P62
  {
    HighBound(s.tail);
    HighBound(t.tail);
    Lexicographic(s.ms, s.tail / P64, s.tail % P62, t.ms, t.tail / P64, t.tail % P62);
  }

  lemma HighBound(tail: nat)
    requires tail < P76
    ensures tail / P64 < 0x1000
  {}

  lemma Lexicographic(ms: nat, hi: nat, lo: nat, ms': nat, hi': nat, lo': nat)
    requires hi < 0x1000 && hi' < 0x1000 && lo < P62 && lo' < P62
    ensures (ms * 0x1000 + hi) * P62 + lo < (ms' * 0x1000 + hi') * P62 + lo' <==>
      ms < ms' || (ms == ms' && (hi < hi' || (hi == hi' && lo < lo')))
    ensures (ms * 0x1000 + hi) * P62 + lo == (ms' * 0x1000 + hi') * P62 + lo' ==> ms == ms' && hi == hi' && lo == lo'
  {
    PairOrder(ms, hi, ms', hi', 0x1000);
    PairOrder(ms * 0x1000 + hi, lo, ms' * 0x1000 + hi', lo', P62);
  }

  lemma CountingUp(tail: nat)
    requires tail + 1 < P76
    ensures tail % P62 != P62 - 1 ==> (tail + 1) / P64 == tail / P64 && (tail + 1) % P62 == tail % P62 + 1
    ensures tail % P62 == P62 - 1 ==> (tail + 1) % P62 == 0
    ensures tail % P62 == P62 - 1 && tail / P62 % 4 == 3 ==> (tail + 1) / P64 == tail / P64 + 1
    ensures tail % P62 == P62 - 1 && tail / P62 % 4 != 3 ==> (tail + 1) / P64 == tail / P64
  {
    var q, r := tail / P62, tail % P62;
    assert P62 * 4 == P64;
    DivDiv(tail, P62, 4);
    DivDiv(tail + 1, P62, 4);
    if r == P62 - 1 {
      Quotient(tail + 1, P62, q + 1, 0);
    } else {
      Quotient(tail + 1, P62, q, r + 1);
    }
  }

  /** The step that loses the order really sorts backward. */
  lemma LostOrderSortsBackward(s: State, clock: nat, r: Random)
    requires s.Valid() && s.ms < P48 && LosesOrder(s, clock)
    ensures var t := Advance(s, clock, r);
      s.Before(t) && TextBefore(Text(t.ms, t.tail), Text(s.ms, s.tail))
  {
    var t := Advance(s, clock, r);
    KeyIncreasesExactly(s, clock, r);
    TextOrder(t.ms, t.tail, s.ms, s.tail);
  }

  datatype Call = Call(clock: nat, rand: Random)

  ghost function After(s: State, calls: seq<Call>): State
    decreases |calls|
  {
    if calls == [] then s else After(Advance(s, calls[0].clock, calls[0].rand), calls[1..])
  }

  /** In one millisecond the tail counts the calls; otherwise the millisecond has grown. */
  lemma {:induction false} CountsWithinMillisecond(s: State, calls: seq<Call>)
    requires s.Valid()
    ensures After(s, calls).Valid() && After(s, calls).ms >= s.ms
    ensures After(s, calls).ms == s.ms ==> After(s, calls).tail == s.tail + |calls|
    decreases |calls|
  {
    if calls != [] {
      CountsWithinMillisecond(Advance(s, calls[0].clock, calls[0].rand), calls[1..]);
    }
  }

  /** Among fewer than 2^62 calls no two texts are equal, although two of the counted bits are not written. */
  lemma TextsDistinct(s: State, calls: seq<Call>)
    requires s.Valid() && 0 < |calls| < P62 && After(s, calls).ms < P48
    ensures Text(s.ms, s.tail) != Text(After(s, calls).ms, After(s, calls).tail)
  {
    var t := After(s, calls);
    BitsMove(s, calls);
    if Text(s.ms, s.tail) == Text(t.ms, t.tail) {
      SameTextSameBits(s, t);
    }
  }

  lemma SameTextSameBits(s: State, t: State)
    requires s.Valid() && t.Valid() && s.ms < P48 && t.ms < P48 && Text(s.ms, s.tail) == Text(t.ms, t.tail)
    ensures s.ms == t.ms && s.tail % P62 == t.tail % P62
  {
    TextOrder(s.ms, s.tail, t.ms, t.tail);
    KeyOrder(s, t);
  }

  lemma BitsMove(s: State, calls: seq<Call>)
    requires s.Valid() && 0 < |calls| < P62
    ensures After(s, calls).Valid() && s.ms <= After(s, calls).ms
    ensures s.ms != After(s, calls).ms || s.tail % P62 != After(s, calls).tail % P62
  {
    CountsWithinMillisecond(s, calls);
    LowBitsMove(s.tail, |calls|);
  }

  lemma LowBitsMove(tail: nat, n: nat)
    requires 0 < n < P62
    ensures (tail + n) % P62 != tail % P62
  {
    if (tail + n) % P62 == tail % P62 {
      var q, q' := tail / P62, (tail + n) / P62;
      assert tail == P62 * q + tail % P62 && tail + n == P62 * q' + tail % P62;
      SmallMultiple(P62, q' - q);
    }
  }

  // ----- the random bits ------------------------------------------------------------------------

  /** On a new millisecond the tail is the number that the random bytes write, modulo 2^76. */
  lemma NewMillisecondIsRandom(s: State, clock: nat, r: Random)
    requires clock > s.ms
    ensures Advance(s, clock, r) == State(clock, Value(r) % P76)
  {
    var rest := Value(r[1..]);
    assert r == [r[0]] + r[1..];
    PowersOf256();
    assert Pow256(8) == P64;
    assert Pow256(9) == P72;
    ValueConcat([r[0]], r[1..]);
    ValueConcat([r[0] % 16], r[1..]);
    SingleByte(r[0]);
    SingleByte(r[0] % 16);
    Quotient(Value(r), P76, r[0] / 16, RandomTail(r));
  }

  /** The 74 bits of a number that the text carries. */
  function WrittenBits(n: nat): (nat, nat) { (n / P64 % 0x1000, n % P62) }

  lemma WrittenBitsOfTail(n: nat)
    ensures WrittenBits(n % P76) == WrittenBits(n)
  {
    assert P64 * 0x1000 == P76 && P62 * 0x4000 == P76;
    DivDiv(n, P64, 0x1000);
    Quotient(n % P76, P64, n / P64 % 0x1000, n % P64);
    DivDiv(n, P62, 0x4000);
    Quotient(n % P76, P62, n / P62 % 0x4000, n % P62);
  }

  lemma EqualValuesEqualBytes(a: seq<byte>, b: seq<byte>)
    requires |a| == |b| && Value(a) == Value(b)
    ensures a == b
  {
    if a != b {
      SomeDifference(a, b);
      var k :| FirstDifference(a, b, k);
      if a[k] < b[k] { EarlierByteDecides(a, b, k); } else { EarlierByteDecides(b, a, k); }
    }
  }

  lemma WrittenBitsFit(tail: nat)
    requires tail < P76
    ensures WrittenBits(tail) == (tail / P64, tail % P62)
  {
    HighBound(tail);
  }

  lemma EqualTextsAgree(ms: nat, tail: nat, tail': nat)
    requires ms < P48 && tail < P76 && tail' < P76 && Text(ms, tail) == Text(ms, tail')
    ensures tail / P64 == tail' / P64 && tail % P62 == tail' % P62
  {
    HighBound(tail);
    HighBound(tail');
    TextOrder(ms, tail, ms, tail');
    Lexicographic(ms, tail / P64, tail % P62, ms, tail' / P64, tail' % P62);
  }

  lemma AgreeingTailsEqualTexts(ms: nat, tail: nat, tail': nat)
    requires ms < P48 && tail < P76 && tail' < P76
    requires tail / P64 == tail' / P64 && tail % P62 == tail' % P62
    ensures Text(ms, tail) == Text(ms, tail')
  {
    LayoutValue(ms, tail);
    LayoutValue(ms, tail');
    EqualValuesEqualBytes(Layout(ms, tail), Layout(ms, tail'));
  }

  /** Texts of one millisecond are equal exactly when their tails agree on the written bits. */
  lemma EqualTextsExactly(ms: nat, tail: nat, tail': nat)
    requires ms < P48 && tail < P76 && tail' < P76
    ensures Text(ms, tail) == Text(ms, tail') <==> WrittenBits(tail) == WrittenBits(tail')
  {
    WrittenBitsFit(tail);
    WrittenBitsFit(tail');
    if Text(ms, tail) == Text(ms, tail') {
      EqualTextsAgree(ms, tail, tail');
    } else if WrittenBits(tail) == WrittenBits(tail') {
      AgreeingTailsEqualTexts(ms, tail, tail');
    }
  }

  /** Two generators that start the same millisecond give one text if and only if their random bytes agree on the 74 written bits. */
  lemma GeneratorsCollideExactly(s: State, s': State, clock: nat, r: Random, r': Random)
    requires s.Valid() && s'.Valid() && s.ms < clock < P48 && s'.ms < clock
    ensures
      var t, t' := Advance(s, clock, r), Advance(s', clock, r');
      Text(t.ms, t.tail) == Text(t'.ms, t'.tail) <==> WrittenBits(Value(r)) == WrittenBits(Value(r'))
  {
    NewMillisecondIsRandom(s, clock, r);
    NewMillisecondIsRandom(s', clock, r');
    EqualTextsExactly(clock, Value(r) % P76, Value(r') % P76);
    WrittenBitsOfTail(Value(r));
    WrittenBitsOfTail(Value(r'));
  }

  /** While the clock does not pass the last millisecond, ms and tail count on as one number. */
  lemma CountsOnAsOneNumber(s: State, clock: nat, r: Random)
    requires s.Valid() && clock <= s.ms
    ensures var t := Advance(s, clock, r); t.ms * P76 + t.tail == s.ms * P76 + s.tail + 1
  {}

  /** The digits of the text are the lower-case hexadecimal ones. */
  lemma DigitsAreLowerCaseHex(d: nat)
    requires d < 16
    ensures HexDigit(d) == "0123456789abcdef"[d]
  {}
}
