/** Recovery codes: sixteen base32 characters shown in groups of four, and hashed in normal form. */
module RecoveryCodes {
  import opened Base32
  import opened Numerals
  import opened Wrappers
  import opened Text

  /** The complete groups of four characters. */
  function Groups(raw: string): seq<string> {
    if |raw| < 4 then [] else [raw[..4]] + Groups(raw[4..])
  }

  /** Groups of four joined by dashes; None, for an error, when there is no complete group. */
  function Format(raw: string): Option<string> {
    if |raw| < 4 then None else Some(Join(Groups(raw), '-'))
  }

  predicate Dropped(c: char) { Space(c) || c == '-' }

  /** The form that is hashed. */
  function Normalize(input: string): string { Strip(input, Dropped) }

  predicate IsShape(input: string) {
    |Normalize(input)| == 16 && InAlphabet(Normalize(input))
  }

  /** `hmac` stands for HMAC-SHA256 under the derived key, in hex. */
  function Hash(code: string, hmac: string -> string): string { hmac(Normalize(code)) }

  /** Normalizing undoes formatting: the dashes go, the characters stay. */
  lemma {:induction false} NormalizeUndoesFormat(raw: string)
    requires InAlphabet(raw) && |raw| % 4 == 0 && raw != ""
    ensures Format(raw).Some? && Normalize(Format(raw).value) == raw
    decreases |raw|
  {
    var first, rest := raw[..4], raw[4..];
    StripKeeps(first, Dropped);
    if rest == [] {
      assert Groups(raw) == [first];
      assert raw == first;
    } else {
      assert InAlphabet(rest);
      NormalizeUndoesFormat(rest);
      assert Groups(raw) == [first] + Groups(rest);
      assert Groups(raw)[1..] == Groups(rest);
      var tail := Join(Groups(rest), '-');
      assert Format(raw).value == first + ['-'] + tail;
      StripConcat(first + ['-'], tail, Dropped);
      StripConcat(first, ['-'], Dropped);
      assert Strip(['-'], Dropped) == "";
      assert first + rest == raw;
    }
  }

  /**
   A generated code has the accepted shape, stands for its ten random bytes, and
   hashes to what was stored, whether it is typed with or without the dashes.
   */
  lemma GeneratedCode(random: seq<byte>, hmac: string -> string)
    requires |random| == 10
    ensures var raw := Encode(random);
      && Format(raw).Some? && Normalize(Format(raw).value) == raw && Normalize(raw) == raw
      && IsShape(Format(raw).value) && Hash(Format(raw).value, hmac) == Hash(raw, hmac)
      && Decode(Normalize(Format(raw).value)) == Ok(random)
  {
    var raw := Encode(random);
    EncodedLength(random);
    EncodedAlphabet(random);
    NormalizeUndoesFormat(raw);
    StripKeeps(raw, Dropped);
    DecodeUndoesEncode(random);
  }

  ghost predicate Injective(hmac: string -> string) {
    forall a, b :: hmac(a) == hmac(b) ==> a == b
  }

  /** Two inputs are one code exactly when they differ in blanks, dashes and case only; two generated codes exactly when their random bytes are equal. */
  lemma HashesAgreeExactly(a: string, b: string, random: seq<byte>, random': seq<byte>, hmac: string -> string)
    requires Injective(hmac) && |random| == |random'| == 10
    ensures Hash(a, hmac) == Hash(b, hmac) <==> Normalize(a) == Normalize(b)
    ensures Hash(Encode(random), hmac) == Hash(Encode(random'), hmac) <==> random == random'
  {
    GeneratedCode(random, hmac);
    GeneratedCode(random', hmac);
  }

  lemma TypingDoesNotCount(a: string, c: char, b: string)
    ensures c in [' ', '\t', '\n', '\r', '-'] ==> Normalize(a + [c] + b) == Normalize(a + b)
    ensures 'a' <= c <= 'z' ==> Normalize(a + [c] + b) == Normalize(a + [(c as int - 32) as char] + b)
  {
    StripMiddle(a, c, b, Dropped);
    if 'a' <= c <= 'z' {
      SmallLetter(c);
      StripMiddle(a, Upper(c), b, Dropped);
    }
  }

  /** The text of a full code: four groups of four with dashes between. */
  lemma FormatExactly(raw: string)
    requires |raw| == 16
    ensures Format(raw) == Some(raw[..4] + "-" + raw[4..8] + "-" + raw[8..12] + "-" + raw[12..])
  {
    var (a, b, c, d) := (raw[..4], raw[4..8], raw[8..12], raw[12..]);
    GroupsCons(d, "");
    GroupsCons(c, d);
    GroupsCons(b, c + d);
    GroupsCons(a, b + (c + d));
    assert raw == a + (b + (c + d)) && d == d + "";
    assert Groups(raw) == [a, b, c, d];
    JoinFour(a, b, c, d);
  }

  lemma GroupsCons(first: string, rest: string)
    requires |first| == 4
    ensures Groups(first + rest) == [first] + Groups(rest)
  {
    assert (first + rest)[..4] == first && (first + rest)[4..] == rest;
  }

  lemma JoinFour(a: string, b: string, c: string, d: string)
    ensures Join([a, b, c, d], '-') == a + "-" + b + "-" + c + "-" + d
  {
    assert [a, b, c, d][1..] == [b, c, d] && [b, c, d][1..] == [c, d] && [c, d][1..] == [d];
    assert Join([c, d], '-') == c + "-" + d;
    assert Join([b, c, d], '-') == b + "-" + c + "-" + d;
  }

  /** An input has the shape of a code exactly when it is, up to typing, the code of ten bytes. */
  lemma ShapeExactly(input: string)
    ensures IsShape(input) <==> exists random: seq<byte> :: |random| == 10 && Normalize(input) == Encode(random)
  {
    var s := Normalize(input);
    if IsShape(input) {
      EncodeUndoesDecode(s);
      assert |Decode(s).value| == 10 && s == Encode(Decode(s).value);
    }
    if random: seq<byte> :| |random| == 10 && s == Encode(random) {
      EncodedLength(random);
      EncodedAlphabet(random);
    }
  }
}
