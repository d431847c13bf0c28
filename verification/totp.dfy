/** Time-based one-time passwords: dynamic truncation (section 5.3 of RFC 4226) and matching with drift. */
module Totp {
  import opened Base32
  import opened Numerals
  import opened Text
  import opened Wrappers

  const PERIOD_MS := 30_000
  const DRIFT := 1

  /** A SHA-1 HMAC is twenty bytes. */
  type Digest = d: seq<byte> | |d| == 20 witness seq(20, _ => 0)

  function Step(nowMs: nat): nat { nowMs / PERIOD_MS }

  /** The 31-bit number that starts at the offset the last nibble names. */
  function Truncate(d: Digest): (n: nat)
    ensures n < 0x8000_0000
  {
    var offset := d[19] % 16;
    var (b0: nat, b1: nat, b2: nat, b3: nat) := (d[offset], d[offset + 1], d[offset + 2], d[offset + 3]);
    b0 % 128 * 0x100_0000 + b1 * 0x1_0000 + b2 * 0x100 + b3
  }

  /** Zeros in front, up to `width` characters. */
  function PadStart(s: string, width: nat): string
    decreases width - |s|
  {
    if |s| >= width then s else PadStart(['0'] + s, width)
  }

  function Code(hmac: (seq<byte>, nat) -> Digest, secret: seq<byte>, step: nat): string {
    PadStart(Decimal(Truncate(hmac(secret, step)) % 1_000_000), 6)
  }

  lemma {:induction false} PadStartDigits(s: string, width: nat)
    requires AllDigits(s) && |s| <= width
    ensures |PadStart(s, width)| == width && AllDigits(PadStart(s, width))
    ensures ParseDecimal(PadStart(s, width)) == ParseDecimal(s)
    decreases width - |s|
  {
    if |s| < width {
      PadStartDigits(['0'] + s, width);
      ZeroInFront(s);
    }
  }

  /** Every code is six digits that read back as the truncated value modulo a million. */
  lemma CodeShape(hmac: (seq<byte>, nat) -> Digest, secret: seq<byte>, step: nat)
    ensures |Code(hmac, secret, step)| == 6 && AllDigits(Code(hmac, secret, step))
    ensures ParseDecimal(Code(hmac, secret, step)) == Truncate(hmac(secret, step)) % 1_000_000
  {
    var n := Truncate(hmac(secret, step)) % 1_000_000;
    assert Pow10(3) == 1000;
    assert Pow10(6) == 1_000_000;
    DecimalLength(n, 6);
    ParseDecimalOfDecimal(n);
    PadStartDigits(Decimal(n), 6);
  }

  datatype MatchError = BadSecret | NegativeStep

  /** Spaces removed. Upper case does not matter: anything but digits is refused. */
  function Candidate(code: string): string { Strip(code, Space) }

  predicate SixDigits(s: string) { |s| == 6 && AllDigits(s) }

  /**
   The earliest step of the window whose code is the candidate. A clock in the
   first period asks for step -1, which the counter cannot hold.
   */
  method Match(hmac: (seq<byte>, nat) -> Digest, secretText: string, code: string, nowMs: nat)
    returns (r: Result<Option<nat>, MatchError>)
    ensures !SixDigits(Candidate(code)) ==> r == Ok(None)
    ensures SixDigits(Candidate(code)) ==>
      match Decode(secretText)
      case Err(_) => r == Err(BadSecret)
      case Ok(secret) =>
        if Step(nowMs) < DRIFT then r == Err(NegativeStep)
        else
          && r.Ok?
          && (r.value.Some? ==>
                && Step(nowMs) - DRIFT <= r.value.value <= Step(nowMs) + DRIFT
                && Code(hmac, secret, r.value.value) == Candidate(code)
                && forall s: nat :: Step(nowMs) - DRIFT <= s < r.value.value ==> Code(hmac, secret, s) != Candidate(code))
          && (r.value.None? ==>
                forall s: nat :: Step(nowMs) - DRIFT <= s <= Step(nowMs) + DRIFT ==> Code(hmac, secret, s) != Candidate(code))
  {
    var candidate := Candidate(code);
    if !SixDigits(candidate) {
      return Ok(None);
    }
    var decoded := DecodeText(secretText);
    if decoded.Err? {
      return Err(BadSecret);
    }
    var now := Step(nowMs);
    if now < DRIFT {
      return Err(NegativeStep);
    }
    var matched: Option<nat> := None;
    var step := now - DRIFT;
    while step <= now + DRIFT
      invariant now - DRIFT <= step <= now + DRIFT + 1
      invariant matched.None? ==> forall s: nat :: now - DRIFT <= s < step ==> Code(hmac, decoded.value, s) != candidate
      invariant matched.Some? ==>
        && now - DRIFT <= matched.value < step && Code(hmac, decoded.value, matched.value) == candidate
        && forall s: nat :: now - DRIFT <= s < matched.value ==> Code(hmac, decoded.value, s) != candidate
    {
      if Code(hmac, decoded.value, step) == candidate && matched.None? {
        matched := Some(step);
      }
      step := step + 1;
    }
    return Ok(matched);
  }

  /** Dynamic truncation: the low 31 bits of the four bytes, most significant first, at the offset in the last nibble. */
  lemma TruncateExactly(d: Digest)
    ensures Truncate(d) == Value(d[d[19] % 16..d[19] % 16 + 4]) % 0x8000_0000
  {
    var o := d[19] % 16;
    var w := d[o..o + 4];
    FourBytes(w[0], w[1], w[2], w[3]);
    assert w == [w[0], w[1], w[2], w[3]];
    var (b1: nat, b2: nat, b3: nat) := (w[1], w[2], w[3]);
    TopBit(w[0], b1 * 0x1_0000 + b2 * 0x100 + b3);
  }

  lemma FourBytes(a: byte, b: byte, c: byte, e: byte)
    ensures Value([a, b, c, e]) == a * 0x100_0000 + (b * 0x1_0000 + c * 0x100 + e)
  {
    assert [a, b, c, e][..3] == [a, b, c] && [a, b, c][..2] == [a, b] && [a, b][..1] == [a] && [a][..0] == [];
    assert Value([a]) == a;
    assert Value([a, b]) == a * 256 + b;
    assert Value([a, b, c]) == (a * 256 + b) * 256 + c;
  }

  lemma TopBit(a: byte, low: nat)
    requires low < 0x100_0000
    ensures (a * 0x100_0000 + low) % 0x8000_0000 == a % 128 * 0x100_0000 + low
  {
    Quotient(a * 0x100_0000 + low, 0x8000_0000, a / 128, a % 128 * 0x100_0000 + low);
  }

  /** The example of section 5.4 of RFC 4226. */
  lemma StandardExample(d: Digest)
    requires d == [0x1f, 0x86, 0x98, 0x69, 0x0e, 0x02, 0xca, 0x16, 0x61, 0x85, 0x50, 0xef, 0x7f, 0x19, 0xda, 0x8e, 0x94, 0x5b, 0x55, 0x5a]
    ensures Truncate(d) == 0x50ef7f19 && Truncate(d) % 1_000_000 == 872921
  {}

  /** Steps are periods of thirty seconds since 1970. */
  lemma StepExactly(nowMs: nat)
    ensures 30_000 * Step(nowMs) <= nowMs < 30_000 * (Step(nowMs) + 1)
  {}

  lemma {:induction false} DigitsStay(s: string)
    requires AllDigits(s)
    ensures Candidate(s) == s
  {
    if s != "" { DigitsStay(s[1..]); }
  }

  /** A code is found however it is typed: with a blank anywhere it is still the candidate. */
  lemma TypedCode(hmac: (seq<byte>, nat) -> Digest, secret: seq<byte>, step: nat, k: nat, blank: char)
    requires k <= 6 && Space(blank)
    ensures
      var code := Code(hmac, secret, step);
      |code| == 6 && Candidate(code) == code && Candidate(code[..k] + [blank] + code[k..]) == code && SixDigits(code)
  {
    var code := Code(hmac, secret, step);
    CodeShape(hmac, secret, step);
    DigitsStay(code);
    StripMiddle(code[..k], blank, code[k..], Space);
    assert code[..k] + code[k..] == code;
  }

  /** Any other character makes the candidate something that no step has as its code. */
  lemma {:induction false} OtherCharactersFail(a: string, c: char, b: string)
    requires !Space(c) && !IsDigit(c)
    ensures !SixDigits(Candidate(a + [c] + b))
  {
    StripMiddle(a, c, b, Space);
    var s := Candidate(a + [c] + b);
    assert s[|Strip(a, Space)|] == Upper(c);
  }
}
