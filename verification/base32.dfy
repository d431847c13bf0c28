/**
 Base32 as section 6 of RFC 4648 defines it, without padding characters. The
 loops keep pending bits in a 32-bit accumulator that is never masked, so their
 correctness rests on the wrap-around of the shift.
 */
module Base32 {
  import opened Numerals
  import opened Wrappers

  const ALPHABET := "ABCDEFGHIJKLMNOPQRSTUVWXYZ234567"

  /** The bits of a byte and of a character. */
  const BYTE: nat := 8
  const CHAR: nat := 5

  lemma Widths()
    ensures Pow2(BYTE) == 256 && Pow2(CHAR) == 32
  {
    Pow2Of32();
  }

  // ----- the reference: texts and bytes as bit strings -----------------------------

  /** The low `k` bits of `n`, most significant first. */
  function Bits(n: nat, k: nat): (bits: seq<bool>)
    ensures |bits| == k
  {
    if k == 0 then [] else Bits(n / 2, k - 1) + [n % 2 == 1]
  }

  function Num(bits: seq<bool>): nat {
    if bits == [] then 0 else Num(bits[..|bits| - 1]) * 2 + (if bits[|bits| - 1] then 1 else 0)
  }

  lemma {:induction false} NumBound(bits: seq<bool>)
    ensures Num(bits) < Pow2(|bits|)
    decreases |bits|
  {
    if bits != [] { NumBound(bits[..|bits| - 1]); }
  }

  function Byte(bits: seq<bool>): byte
    requires |bits| == 8
  {
    NumBound(bits);
    Widths();
    Num(bits)
  }

  function Char(bits: seq<bool>): char
    requires |bits| == 5
  {
    NumBound(bits);
    Widths();
    ALPHABET[Num(bits)]
  }

  function ByteBits(bytes: seq<byte>): (bits: seq<bool>)
    ensures |bits| == 8 * |bytes|
  {
    if bytes == [] then [] else Bits(bytes[0], BYTE) + ByteBits(bytes[1..])
  }

  /** The index of a character in the alphabet, if it is there. */
  function IndexOf(c: char): (i: Option<nat>)
    ensures i.Some? ==> i.value < 32
  {
    if 'A' <= c <= 'Z' then Some(c as nat - 'A' as nat)
    else if '2' <= c <= '7' then Some(c as nat - '2' as nat + 26)
    else None
  }

  predicate InAlphabet(s: string) {
    forall i :: 0 <= i < |s| ==> IndexOf(s[i]).Some?
  }

  function CharBits(s: string): (bits: seq<bool>)
    requires InAlphabet(s)
    ensures |bits| == 5 * |s|
  {
    if s == [] then [] else Bits(IndexOf(s[0]).value, CHAR) + CharBits(s[1..])
  }

  /** Five bits a character, eight bits a byte; a remainder is dropped. */
  function ToChars(bits: seq<bool>): (s: string)
    ensures |s| == |bits| / 5
  {
    if |bits| < 5 then "" else [Char(bits[..5])] + ToChars(bits[5..])
  }

  function ToBytes(bits: seq<bool>): (bs: seq<byte>)
    ensures |bs| == |bits| / 8
  {
    if |bits| < 8 then [] else [Byte(bits[..8])] + ToBytes(bits[8..])
  }

  function Zeros(k: nat): (bits: seq<bool>)
    ensures |bits| == k
  {
    if k == 0 then [] else [false] + Zeros(k - 1)
  }

  /** How many zero bits complete the last character. */
  function Pad(n: nat): nat { (5 - n % 5) % 5 }

  /** The encoding: the bits of the bytes, completed with zeros, five at a time. */
  function Encode(bytes: seq<byte>): string {
    ToChars(ByteBits(bytes) + Zeros(Pad(8 * |bytes|)))
  }

  /** `\\s` of a JavaScript regular expression. */
  predicate Space(c: char) {
    c == ' ' || '\t' <= c <= '\r' || c == '\U{00A0}' || c == '\U{1680}' || '\U{2000}' <= c <= '\U{200A}'
    || c == '\U{2028}' || c == '\U{2029}' || c == '\U{202F}' || c == '\U{205F}' || c == '\U{3000}' || c == '\U{FEFF}'
  }

  function Upper(c: char): char { if 'a' <= c <= 'z' then (c as int - 32) as char else c }

  /** The text without the characters that `drop` names, in upper case. */
  function Strip(text: string, drop: char -> bool): string {
    if text == [] then [] else (if drop(text[0]) then [] else [Upper(text[0])]) + Strip(text[1..], drop)
  }

  predicate Ignored(c: char) { Space(c) || c == '=' || c == '-' }

  function Clean(text: string): string { Strip(text, Ignored) }

  datatype DecodeError = InvalidCharacter

  function Decode(text: string): Result<seq<byte>, DecodeError> {
    if InAlphabet(Clean(text)) then Ok(ToBytes(CharBits(Clean(text)))) else Err(InvalidCharacter)
  }

  // ----- bit strings and numbers ------------------------------------------------------

  lemma {:induction false} NumOfBits(n: nat, k: nat)
    ensures Num(Bits(n, k)) == n % Pow2(k)
  {
    if k > 0 {
      assert Bits(n, k)[..k - 1] == Bits(n / 2, k - 1);
      NumOfBits(n / 2, k - 1);
      DivDiv(n, 2, Pow2(k - 1));
    }
  }

  lemma {:induction false} BitsOfNum(bits: seq<bool>)
    ensures Bits(Num(bits), |bits|) == bits
    decreases |bits|
  {
    if bits != [] {
      BitsOfNum(bits[..|bits| - 1]);
    }
  }

  /** Bits below position `m` do not see a reduction modulo `2^m`. */
  lemma {:induction false} BitsOfMod(n: nat, m: nat, k: nat)
    requires k <= m
    ensures Bits(n % Pow2(m), k) == Bits(n, k)
  {
    if k > 0 {
      var p := Pow2(m - 1);
      DivDiv(n, 2, p);
      Quotient(n % Pow2(m), 2, n / 2 % p, n % 2);
      BitsOfMod(n / 2, m - 1, k - 1);
    }
  }

  lemma SamePrefix(a: seq<bool>, b: seq<bool>, c: seq<bool>, d: seq<bool>)
    requires a + b == c + d && |a| == |c|
    ensures a == c && b == d
  {
    assert (a + b)[..|a|] == a && (a + b)[|a|..] == b;
    assert (c + d)[..|c|] == c && (c + d)[|c|..] == d;
  }

  // ----- the accumulator -----------------------------------------------------------------

  /** `value << k`, one bit at a time, in 32 bits read as unsigned. */
  function Shl(value: nat, k: nat): nat
    decreases k
  {
    if k == 0 then value else Shl(value * 2 % TWO_32, k - 1)
  }

  /** `value >>> k`. */
  function Shr(value: nat, k: nat): nat
    decreases k
  {
    if k == 0 then value else Shr(value / 2, k - 1)
  }

  /** The low bits of the accumulator are the bits not yet written, however often it has wrapped. */
  ghost predicate Holds(value: nat, pending: seq<bool>) {
    Bits(value, |pending|) == pending
  }

  /** The low `j + k` bits are the low `j` bits of the number shifted right by `k`, then its low `k` bits. */
  lemma {:induction false} BitsSplit(n: nat, j: nat, k: nat)
    ensures Bits(n, j + k) == Bits(Shr(n, k), j) + Bits(n, k)
  {
    if k > 0 {
      BitsSplit(n / 2, j, k - 1);
    }
  }

  /** One shift keeps every bit that stays inside the 32. */
  lemma ShiftOnce(value: nat, j: nat)
    requires j <= 31
    ensures Bits(value * 2 % TWO_32, j + 1) == Bits(value, j) + [false]
  {
    Pow2Of32();
    assert value * 2 % TWO_32 / 2 == value % 0x8000_0000;
    BitsOfMod(value, 31, j);
  }

  lemma {:induction false} ShiftLeft(value: nat, j: nat, k: nat)
    requires j + k <= 32
    ensures Bits(Shl(value, k), j + k) == Bits(value, j) + Zeros(k)
    decreases k
  {
    if k > 0 {
      ShiftOnce(value, j);
      ShiftLeft(value * 2 % TWO_32, j + 1, k - 1);
      assert Bits(value, j) + [false] + Zeros(k - 1) == Bits(value, j) + ([false] + Zeros(k - 1));
    }
  }

  lemma {:induction false} ZerosSnoc(k: nat)
    requires k > 0
    ensures Zeros(k) == Zeros(k - 1) + [false]
  {
    if k > 1 { ZerosSnoc(k - 1); }
  }

  /** A small number fills the cleared low bits; `|` and `+` agree there. */
  lemma {:induction false} FillLow(x: nat, n: nat, j: nat, k: nat)
    requires n < Pow2(k) && Bits(x, k) == Zeros(k)
    ensures Bits(x + n, j + k) == Bits(Shr(x, k), j) + Bits(n, k)
    decreases k
  {
    if k > 0 {
      ZerosSnoc(k);
      assert Bits(x, k)[..k - 1] == Bits(x / 2, k - 1) && Zeros(k)[..k - 1] == Zeros(k - 1);
      assert Bits(x, k)[k - 1] == Zeros(k)[k - 1] == false;
      assert (x + n) / 2 == x / 2 + n / 2 && (x + n) % 2 == n % 2;
      FillLow(x / 2, n / 2, j, k - 1);
    }
  }

  /** A shift that wraps keeps the pending bits, as long as they still fit in 32. */
  lemma PushHolds(value: nat, pending: seq<bool>, n: nat, k: nat)
    requires Holds(value, pending) && n < Pow2(k) && |pending| + k <= 32
    ensures Holds(Shl(value, k) + n, pending + Bits(n, k))
  {
    ShiftLeft(value, |pending|, k);
    FillShifted(Shl(value, k), pending, n, k);
  }

  lemma FillShifted(x: nat, pending: seq<bool>, n: nat, k: nat)
    requires Bits(x, |pending| + k) == pending + Zeros(k) && n < Pow2(k)
    ensures Holds(x + n, pending + Bits(n, k))
  {
    var j := |pending|;
    BitsSplit(x, j, k);
    SamePrefix(Bits(Shr(x, k), j), Bits(x, k), pending, Zeros(k));
    FillLow(x, n, j, k);
  }

  /** `(value >>> (bits - k)) & (2^k - 1)` reads the first `k` pending bits; the rest stay pending. */
  lemma ReadFirst(value: nat, pending: seq<bool>, k: nat)
    requires Holds(value, pending) && k <= |pending|
    ensures Shr(value, |pending| - k) % Pow2(k) == Num(pending[..k])
    ensures Holds(value, pending[k..])
  {
    var rest := |pending| - k;
    BitsSplit(value, k, rest);
    SamePrefix(Bits(Shr(value, rest), k), Bits(value, rest), pending[..k], pending[k..]);
    NumOfBits(Shr(value, rest), k);
  }

  // ----- the encoding loop -----------------------------------------------------------------

  lemma {:induction false} ByteBitsSnoc(bytes: seq<byte>, b: byte)
    ensures ByteBits(bytes + [b]) == ByteBits(bytes) + Bits(b, BYTE)
    decreases |bytes|
  {
    if bytes == [] {
      assert ByteBits([]) + Bits(b, BYTE) == Bits(b, BYTE) + ByteBits([]);
    } else {
      assert (bytes + [b])[1..] == bytes[1..] + [b];
      ByteBitsSnoc(bytes[1..], b);
      assert Bits(bytes[0], BYTE) + (ByteBits(bytes[1..]) + Bits(b, BYTE)) == ByteBits(bytes) + Bits(b, BYTE);
    }
  }

  lemma {:induction false} CharBitsSnoc(s: string, c: char)
    requires InAlphabet(s) && IndexOf(c).Some?
    ensures InAlphabet(s + [c]) && CharBits(s + [c]) == CharBits(s) + Bits(IndexOf(c).value, CHAR)
    decreases |s|
  {
    var last := Bits(IndexOf(c).value, CHAR);
    if s == [] {
      assert [c][1..] == [];
      assert CharBits([]) + last == last + CharBits([]);
    } else {
      assert (s + [c])[1..] == s[1..] + [c];
      CharBitsSnoc(s[1..], c);
      assert Bits(IndexOf(s[0]).value, CHAR) + (CharBits(s[1..]) + last) == CharBits(s) + last;
    }
  }

  lemma IndexOfAlphabet(d: nat)
    requires d < 32
    ensures IndexOf(ALPHABET[d]) == Some(d)
  {}

  /** Writing the first five pending bits as a character. */
  lemma EmitChar(value: nat, pending: seq<bool>, out: string, bits: nat)
    requires Holds(value, pending) && |pending| == bits >= 5 && InAlphabet(out)
    ensures var c := ALPHABET[Shr(value, bits - 5) % 32];
      && InAlphabet(out + [c]) && CharBits(out + [c]) + pending[5..] == CharBits(out) + pending
      && Holds(value, pending[5..])
  {
    Widths();
    ReadFirst(value, pending, CHAR);
    var d := Shr(value, bits - 5) % 32;
    IndexOfAlphabet(d);
    BitsOfNum(pending[..5]);
    CharBitsSnoc(out, ALPHABET[d]);
    CutAt(CharBits(out), pending, 5);
  }

  lemma CutAt(a: seq<bool>, b: seq<bool>, n: nat)
    requires n <= |b|
    ensures a + b[..n] + b[n..] == a + b
  {}

  /** The last, incomplete character: the pending bits, completed with zeros. */
  lemma EmitLast(value: nat, pending: seq<bool>, out: string, bits: nat)
    requires Holds(value, pending) && 0 < |pending| == bits < 5 && InAlphabet(out)
    ensures var c := ALPHABET[Shl(value, 5 - bits) % 32];
      InAlphabet(out + [c]) && CharBits(out + [c]) == CharBits(out) + pending + Zeros(5 - bits)
  {
    var shifted, padded := Shl(value, 5 - bits), pending + Zeros(5 - bits);
    ShiftLeft(value, bits, 5 - bits);
    assert Holds(shifted, padded);
    EmitChar(shifted, padded, out, 5);
    assert Shr(shifted, 0) == shifted && padded[5..] == [];
    assert CharBits(out) + padded == CharBits(out) + pending + Zeros(5 - bits);
  }

  method EncodeBytes(bytes: seq<byte>) returns (out: string)
    ensures out == Encode(bytes)
  {
    var bits: nat, value: nat := 0, 0;
    out := "";
    ghost var pending: seq<bool> := [];
    for i := 0 to |bytes|
      invariant |pending| == bits < 5 && Holds(value, pending)
      invariant InAlphabet(out) && CharBits(out) + pending == ByteBits(bytes[..i])
    {
      TakeByte(value, pending, out, bytes, i);
      value := Shl(value, BYTE) + bytes[i];
      bits := bits + 8;
      pending := pending + Bits(bytes[i], BYTE);
      while bits >= 5
        invariant |pending| == bits && Holds(value, pending)
        invariant InAlphabet(out) && CharBits(out) + pending == ByteBits(bytes[..i + 1])
      {
        EmitChar(value, pending, out, bits);
        out := out + [ALPHABET[Shr(value, bits - 5) % 32]];
        bits := bits - 5;
        pending := pending[5..];
      }
    }
    assert bytes[..|bytes|] == bytes;
    ghost var padding := 0;
    if bits > 0 {
      EmitLast(value, pending, out, bits);
      out := out + [ALPHABET[Shl(value, 5 - bits) % 32]];
      padding := 5 - bits;
    } else {
      assert CharBits(out) + pending == ByteBits(bytes) + Zeros(0);
      assert pending == [] && CharBits(out) + [] == CharBits(out);
    }
    WrittenInFull(out, bytes, padding);
  }

  lemma TakeByte(value: nat, pending: seq<bool>, out: string, bytes: seq<byte>, i: nat)
    requires i < |bytes| && |pending| < 5 && Holds(value, pending)
    requires InAlphabet(out) && CharBits(out) + pending == ByteBits(bytes[..i])
    ensures Holds(Shl(value, BYTE) + bytes[i], pending + Bits(bytes[i], BYTE))
    ensures CharBits(out) + (pending + Bits(bytes[i], BYTE)) == ByteBits(bytes[..i + 1])
  {
    Widths();
    PushHolds(value, pending, bytes[i], BYTE);
    ByteBitsSnoc(bytes[..i], bytes[i]);
    assert bytes[..i + 1] == bytes[..i] + [bytes[i]];
    Regroup(CharBits(out), pending, Bits(bytes[i], BYTE));
  }

  lemma Regroup(a: seq<bool>, b: seq<bool>, c: seq<bool>)
    ensures a + (b + c) == a + b + c
  {}

  /** A text whose bits are the bytes' bits and fewer than five zeros is the encoding. */
  lemma WrittenInFull(out: string, bytes: seq<byte>, padding: nat)
    requires InAlphabet(out) && padding < 5 && CharBits(out) == ByteBits(bytes) + Zeros(padding)
    ensures out == Encode(bytes)
  {
    PadIs(|bytes|, |out|, padding);
    CharsOfCharBits(out);
  }

  lemma PadIs(n: nat, m: nat, k: nat)
    requires k < 5 && 5 * m == 8 * n + k
    ensures k == Pad(8 * n)
  {}

  lemma CharOfBits(d: nat)
    requires d < 32
    ensures Char(Bits(d, CHAR)) == ALPHABET[d]
  {
    Widths();
    var bits := Bits(d, CHAR);
    NumOfBits(d, CHAR);
    assert Num(bits) == d % 32 == d;
  }

  lemma ByteOfBits(b: byte)
    ensures Byte(Bits(b, BYTE)) == b
  {
    Widths();
    NumOfBits(b, BYTE);
  }

  lemma ToCharsCons(first: seq<bool>, rest: seq<bool>)
    requires |first| == CHAR
    ensures ToChars(first + rest) == [Char(first)] + ToChars(rest)
  {
    assert (first + rest)[..5] == first && (first + rest)[5..] == rest;
  }

  lemma ToBytesCons(first: seq<bool>, rest: seq<bool>)
    requires |first| == BYTE
    ensures ToBytes(first + rest) == [Byte(first)] + ToBytes(rest)
  {
    assert (first + rest)[..8] == first && (first + rest)[8..] == rest;
  }

  lemma {:induction false} CharsOfCharBits(s: string)
    requires InAlphabet(s)
    ensures ToChars(CharBits(s)) == s
  {
    if s != [] {
      var d := IndexOf(s[0]).value;
      CharsOfCharBits(s[1..]);
      ToCharsCons(Bits(d, CHAR), CharBits(s[1..]));
      CharOfBits(d);
      AlphabetOfIndex(s[0]);
    }
  }

  lemma AlphabetOfIndex(c: char)
    requires IndexOf(c).Some?
    ensures ALPHABET[IndexOf(c).value] == c
  {}

  // ----- the decoding loop -------------------------------------------------------------------

  /** The characters before place `i` are read: the bytes of `out`, and then the pending bits. */
  ghost predicate ReadUpTo(clean: string, i: nat, out: seq<byte>, pending: seq<bool>) {
    i <= |clean| && InAlphabet(clean[..i]) && CharBits(clean[..i]) == ByteBits(out) + pending
  }

  method DecodeText(text: string) returns (r: Result<seq<byte>, DecodeError>)
    ensures r == Decode(text)
  {
    var clean := Clean(text);
    var bits: nat, value: nat := 0, 0;
    var out: seq<byte> := [];
    ghost var pending: seq<bool> := [];
    for i := 0 to |clean|
      invariant |pending| == bits < 8 && Holds(value, pending)
      invariant ReadUpTo(clean, i, out, pending)
    {
      var index := IndexOf(clean[i]);
      if index.None? {
        return Err(InvalidCharacter);
      }
      TakeChar(value, pending, out, clean, i);
      value := Shl(value, CHAR) + index.value;
      bits := bits + 5;
      pending := pending + Bits(index.value, CHAR);
      if bits >= 8 {
        EmitByte(value, pending, out, bits, clean, i + 1);
        out := out + [Shr(value, bits - 8) % 256];
        bits := bits - 8;
        pending := pending[8..];
      }
    }
    AllRead(clean, out, pending);
    return Ok(out);
  }

  lemma AllRead(clean: string, out: seq<byte>, pending: seq<bool>)
    requires ReadUpTo(clean, |clean|, out, pending) && |pending| < 8
    ensures InAlphabet(clean) && ToBytes(CharBits(clean)) == out
  {
    assert clean[..|clean|] == clean;
    BytesOfByteBits(out, pending);
  }

  lemma TakeChar(value: nat, pending: seq<bool>, out: seq<byte>, clean: string, i: nat)
    requires i < |clean| && |pending| < 8 && Holds(value, pending)
    requires ReadUpTo(clean, i, out, pending) && IndexOf(clean[i]).Some?
    ensures var d := IndexOf(clean[i]).value;
      && Holds(Shl(value, CHAR) + d, pending + Bits(d, CHAR))
      && ReadUpTo(clean, i + 1, out, pending + Bits(d, CHAR))
  {
    var d := IndexOf(clean[i]).value;
    Widths();
    PushHolds(value, pending, d, CHAR);
    CharBitsSnoc(clean[..i], clean[i]);
    assert clean[..i + 1] == clean[..i] + [clean[i]];
    Regroup(ByteBits(out), pending, Bits(d, CHAR));
  }

  lemma EmitByte(value: nat, pending: seq<bool>, out: seq<byte>, bits: nat, clean: string, i: nat)
    requires Holds(value, pending) && |pending| == bits >= 8 && ReadUpTo(clean, i, out, pending)
    ensures ReadUpTo(clean, i, out + [Shr(value, bits - 8) % 256], pending[8..])
    ensures Holds(value, pending[8..])
  {
    Widths();
    ReadFirst(value, pending, BYTE);
    BitsOfNum(pending[..8]);
    MoveByte(out, Shr(value, bits - 8) % 256, pending);
  }

  lemma MoveByte(out: seq<byte>, b: byte, pending: seq<bool>)
    requires |pending| >= 8 && Bits(b, BYTE) == pending[..8]
    ensures ByteBits(out + [b]) + pending[8..] == ByteBits(out) + pending
  {
    ByteBitsSnoc(out, b);
    Regroup(ByteBits(out), pending[..8], pending[8..]);
    assert pending[..8] + pending[8..] == pending;
  }

  lemma {:induction false} BytesOfByteBits(bytes: seq<byte>, extra: seq<bool>)
    requires |extra| < 8
    ensures ToBytes(ByteBits(bytes) + extra) == bytes
    decreases |bytes|
  {
    if bytes != [] {
      var rest := ByteBits(bytes[1..]) + extra;
      BytesOfByteBits(bytes[1..], extra);
      ToBytesCons(Bits(bytes[0], BYTE), rest);
      ByteOfBits(bytes[0]);
      Regroup(Bits(bytes[0], BYTE), ByteBits(bytes[1..]), extra);
      assert [bytes[0]] + bytes[1..] == bytes;
    }
  }

  // ----- the round trip ----------------------------------------------------------------------

  /** The length is that of section 6 of RFC 4648 without padding: the ceiling of 8n/5. */
  lemma EncodedLength(bytes: seq<byte>)
    ensures |Encode(bytes)| == (8 * |bytes| + 4) / 5
  {}

  lemma {:induction false} BitsOfChars(bits: seq<bool>)
    requires |bits| % 5 == 0
    ensures InAlphabet(ToChars(bits)) && CharBits(ToChars(bits)) == bits
    decreases |bits|
  {
    if bits != [] {
      var c, rest := Char(bits[..5]), ToChars(bits[5..]);
      BitsOfChars(bits[5..]);
      NumBound(bits[..5]);
      Widths();
      IndexOfAlphabet(Num(bits[..5]));
      BitsOfNum(bits[..5]);
      assert ToChars(bits) == [c] + rest && ([c] + rest)[1..] == rest;
      assert bits == bits[..5] + bits[5..];
    }
  }

  lemma {:induction false} StripKeeps(s: string, drop: char -> bool)
    requires InAlphabet(s) && forall c: char :: IndexOf(c).Some? ==> !drop(c)
    ensures Strip(s, drop) == s
  {
    if s != [] { StripKeeps(s[1..], drop); }
  }

  lemma PadCompletes(n: nat)
    ensures (n + Pad(n)) % 5 == 0
  {}

  lemma EncodedAlphabet(bytes: seq<byte>)
    ensures InAlphabet(Encode(bytes))
  {
    PadCompletes(8 * |bytes|);
    BitsOfChars(ByteBits(bytes) + Zeros(Pad(8 * |bytes|)));
  }

  /** Cleaning leaves an encoded text as it is. */
  lemma CleanKeeps(s: string)
    requires InAlphabet(s)
    ensures Clean(s) == s
  {
    StripKeeps(s, Ignored);
  }

  /** Decoding undoes encoding, for every byte string. */
  lemma DecodeUndoesEncode(bytes: seq<byte>)
    ensures Decode(Encode(bytes)) == Ok(bytes)
  {
    var bits := ByteBits(bytes) + Zeros(Pad(8 * |bytes|));
    BitsOfChars(bits);
    CleanKeeps(ToChars(bits));
    BytesOfByteBits(bytes, Zeros(Pad(8 * |bytes|)));
  }

  // ----- which texts are read -------------------------------------------------------------

  lemma {:induction false} StripConcat(a: string, b: string, drop: char -> bool)
    ensures Strip(a + b, drop) == Strip(a, drop) + Strip(b, drop)
  {
    if a == [] {
      assert a + b == b;
    } else {
      assert (a + b)[1..] == a[1..] + b;
      StripConcat(a[1..], b, drop);
    }
  }

  lemma StripMiddle(a: string, c: char, b: string, drop: char -> bool)
    ensures drop(c) ==> Strip(a + [c] + b, drop) == Strip(a + b, drop)
    ensures !drop(c) ==> Strip(a + [c] + b, drop) == Strip(a, drop) + [Upper(c)] + Strip(b, drop)
  {
    StripConcat(a, b, drop);
    StripConcat(a + [c], b, drop);
    StripConcat(a, [c], drop);
    assert [c][1..] == [];
    assert Strip([c], drop) == if drop(c) then [] else [Upper(c)];
  }

  lemma SmallLetter(c: char)
    requires 'a' <= c <= 'z'
    ensures !Ignored(c) && !Ignored(Upper(c)) && Upper(c) == (c as int - 32) as char == Upper(Upper(c))
  {}

  /** Blanks, dashes and padding may stand anywhere, and a letter may be written small. */
  lemma SpellingDoesNotCount(a: string, c: char, b: string)
    ensures c in [' ', '\t', '\n', '\r', '-', '='] ==> Decode(a + [c] + b) == Decode(a + b)
    ensures 'a' <= c <= 'z' ==> Decode(a + [c] + b) == Decode(a + [(c as int - 32) as char] + b)
  {
    StripMiddle(a, c, b, Ignored);
    if 'a' <= c <= 'z' {
      SmallLetter(c);
      StripMiddle(a, Upper(c), b, Ignored);
    }
  }

  lemma {:induction false} StripMembers(text: string, drop: char -> bool, c: char)
    ensures c in Strip(text, drop) <==> exists i :: 0 <= i < |text| && !drop(text[i]) && Upper(text[i]) == c
  {
    if text != [] {
      StripMembers(text[1..], drop, c);
      if i :| 0 <= i < |text[1..]| && !drop(text[1..][i]) && Upper(text[1..][i]) == c {
        assert text[i + 1] == text[1..][i];
      }
      if i :| 0 < i < |text| && !drop(text[i]) && Upper(text[i]) == c {
        assert text[1..][i - 1] == text[i];
      }
    }
  }

  /** A text is refused exactly when it holds a character that is neither ignored nor, in upper case, in the alphabet. */
  lemma RefusedExactly(text: string)
    ensures Decode(text).Err? <==> exists i :: 0 <= i < |text| && !Ignored(text[i]) && Upper(text[i]) !in ALPHABET
  {
    var clean := Clean(text);
    if i :| 0 <= i < |clean| && IndexOf(clean[i]).None? {
      StripMembers(text, Ignored, clean[i]);
      InAlphabetExactly(clean[i]);
    }
    if i :| 0 <= i < |text| && !Ignored(text[i]) && Upper(text[i]) !in ALPHABET {
      StripMembers(text, Ignored, Upper(text[i]));
      InAlphabetExactly(Upper(text[i]));
    }
  }

  lemma InAlphabetExactly(c: char)
    ensures c in ALPHABET <==> IndexOf(c).Some?
  {
    if IndexOf(c).Some? { AlphabetOfIndex(c); }
    if d: nat :| d < 32 && ALPHABET[d] == c { IndexOfAlphabet(d); }
  }

  /** What is read are the bits of the characters, all but the at most seven at the end that complete no byte. */
  lemma DecodedBits(text: string)
    requires Decode(text).Ok?
    ensures InAlphabet(Clean(text)) && ByteBits(Decode(text).value) <= CharBits(Clean(text))
    ensures |CharBits(Clean(text))| - |ByteBits(Decode(text).value)| < 8
  {
    ByteBitsOfToBytes(CharBits(Clean(text)));
  }

  lemma {:induction false} ByteBitsOfToBytes(bits: seq<bool>)
    ensures ByteBits(ToBytes(bits)) <= bits
  {
    if |bits| >= 8 {
      ByteBitsOfToBytes(bits[8..]);
      BitsOfNum(bits[..8]);
      assert bits == bits[..8] + bits[8..];
    }
  }

  lemma {:induction false} WholeBytes(bits: seq<bool>)
    requires |bits| % 8 == 0
    ensures ByteBits(ToBytes(bits)) == bits
  {
    ByteBitsOfToBytes(bits);
  }

  /** Eight characters are five bytes, so a clean text of such a length encodes exactly what it decodes to. */
  lemma EncodeUndoesDecode(s: string)
    requires InAlphabet(s) && |s| % 8 == 0
    ensures Decode(s).Ok? && Encode(Decode(s).value) == s && 8 * |Decode(s).value| == 5 * |s|
  {
    CleanKeeps(s);
    WholeBytes(CharBits(s));
    EncodeOfBits(ToBytes(CharBits(s)), s);
  }

  lemma EncodeOfBits(bytes: seq<byte>, s: string)
    requires InAlphabet(s) && ByteBits(bytes) == CharBits(s)
    ensures Encode(bytes) == s
  {
    assert Pad(8 * |bytes|) == 0;
    assert ByteBits(bytes) + Zeros(0) == CharBits(s);
    CharsOfCharBits(s);
  }
}
