/** Go's string values as the model sees them.

    A Go `string` is an immutable sequence of bytes; `len(s)` counts bytes.
    The model writes it as a sequence of characters each of which holds one
    byte value, so `|s|` is exactly Go's `len(s)`, and text written in the
    model as a literal stands for its ASCII bytes.
 */
module GoText {

  /** One byte of a Go string. */
  type Byte = c: char | c as int < 256

  type GoString = seq<Byte>

  /** Go's conversion `rune(n)` of an `int` to the 32-bit `rune` type keeps
      the low 32 bits in two's complement. */
  function ToInt32(n: int): (r: int)
    ensures -0x8000_0000 <= r < 0x8000_0000
    ensures (r - n) % 0x1_0000_0000 == 0
    ensures -0x8000_0000 <= n < 0x8000_0000 ==> r == n
  {
    (n + 0x8000_0000) % 0x1_0000_0000 - 0x8000_0000
  }

  /** U+FFFD, which Go writes in place of a value that is not a Unicode scalar value. */
  const RuneError := 0xFFFD

  predicate IsScalar(r: int) {
    0 <= r < 0xD800 || 0xE000 <= r <= 0x10FFFF
  }

  /** Go's `string(r)` for a rune `r`: the UTF-8 encoding of `r`, or of
      U+FFFD when `r` is negative, a surrogate or above U+10FFFF. */
  function EncodeRune(r: int): (b: GoString)
    ensures 1 <= |b| <= 4
    ensures |b| == 1 <==> 0 <= r < 0x80
    ensures |b| == 1 ==> b[0] as int == r
  {
    if 0 <= r < 0x80 then
      [r as char]
    else if 0x80 <= r < 0x800 then
      [(0xC0 + r / 64) as char, (0x80 + r % 64) as char]
    else if !IsScalar(r) then
      [0xEF as char, 0xBF as char, 0xBD as char]
    else if r < 0x1_0000 then
      [(0xE0 + r / 4096) as char, (0x80 + r / 64 % 64) as char, (0x80 + r % 64) as char]
    else
      [(0xF0 + r / 262144) as char, (0x80 + r / 4096 % 64) as char,
       (0x80 + r / 64 % 64) as char, (0x80 + r % 64) as char]
  }

  /** The value of a continuation byte's low six bits. */
  function Low6(c: Byte): int {
    (c as int) % 64
  }

  /** Reads the rune that a well-formed UTF-8 sequence of one to four bytes
      encodes, the lead byte saying how many bytes follow. */
  function DecodeRune(b: GoString): int
    requires 1 <= |b| <= 4
  {
    var lead := b[0] as int;
    if lead < 0x80 then lead
    else if lead < 0xE0 && |b| >= 2 then (lead - 0xC0) * 64 + Low6(b[1])
    else if lead < 0xF0 && |b| >= 3 then (lead - 0xE0) * 4096 + Low6(b[1]) * 64 + Low6(b[2])
    else if |b| == 4 then (lead - 0xF0) * 262144 + Low6(b[1]) * 4096 + Low6(b[2]) * 64 + Low6(b[3])
    else RuneError
  }

  lemma DecodeTwoBytes(r: int)
    requires 0x80 <= r < 0x800
    ensures DecodeRune(EncodeRune(r)) == r
  {
    assert Low6(EncodeRune(r)[1]) == r % 64;
  }

  lemma DecodeThreeBytes(r: int)
    requires 0x800 <= r < 0x1_0000 && IsScalar(r)
    ensures DecodeRune(EncodeRune(r)) == r
  {
    var b := EncodeRune(r);
    assert Low6(b[1]) == r / 64 % 64;
    assert Low6(b[2]) == r % 64;
    assert r / 64 == (r / 4096) * 64 + r / 64 % 64;
  }

  lemma DecodeFourBytes(r: int)
    requires 0x1_0000 <= r <= 0x10FFFF
    ensures DecodeRune(EncodeRune(r)) == r
  {
    var b := EncodeRune(r);
    assert Low6(b[1]) == r / 4096 % 64;
    assert Low6(b[2]) == r / 64 % 64;
    assert Low6(b[3]) == r % 64;
    assert r / 64 == (r / 4096) * 64 + r / 64 % 64;
    assert r / 4096 == (r / 262144) * 64 + r / 4096 % 64;
  }

  /** Decoding undoes `string(r)` for every Unicode scalar value, and every
      other value comes back as U+FFFD. */
  lemma DecodeEncode(r: int)
    ensures IsScalar(r) ==> DecodeRune(EncodeRune(r)) == r
    ensures !IsScalar(r) ==> DecodeRune(EncodeRune(r)) == RuneError
  {
    if !IsScalar(r) {
      var b := EncodeRune(r);
      assert b == [0xEF as char, 0xBF as char, 0xBD as char];
      assert Low6(b[1]) == 63 && Low6(b[2]) == 61;
    } else if r < 0x80 {
    } else if r < 0x800 {
      DecodeTwoBytes(r);
    } else if r < 0x1_0000 {
      DecodeThreeBytes(r);
    } else {
      DecodeFourBytes(r);
    }
  }

  /** The text `uuid.New().String()` yields: 36 characters, lower-case hex
      digits in groups of 8-4-4-4-12 separated by '-'. */
  predicate IsUuidText(s: GoString) {
    && |s| == 36
    && forall i | 0 <= i < |s| ::
         if i == 8 || i == 13 || i == 18 || i == 23 then s[i] == '-'
         else '0' <= s[i] <= '9' || 'a' <= s[i] <= 'f'
  }

  type Uuid = s: GoString | IsUuidText(s) witness "00000000-0000-0000-0000-000000000000"
}
