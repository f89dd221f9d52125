/** Base64 (section 4 of RFC 4648): bit-counter loops against the definition by groups. */
module Base64 {
  import opened Platform
  import opened Bits
  import opened Bytes
  import opened Tokens
  import opened Wrappers

  /** The alphabet of section 4 of RFC 4648, by ranges. */
  function Letter(v: nat): char
    requires v < 64
  {
    if v < 26 then ('A' as int + v) as char
    else if v < 52 then ('a' as int + v - 26) as char
    else if v < 62 then ('0' as int + v - 52) as char
    else if v == 62 then '+' else '/'
  }

  function Value(ch: char): Option<nat> {
    if 'A' <= ch <= 'Z' then Some(ch as int - 'A' as int)
    else if 'a' <= ch <= 'z' then Some(ch as int - 'a' as int + 26)
    else if '0' <= ch <= '9' then Some(ch as int - '0' as int + 52)
    else if ch == '+' then Some(62) else if ch == '/' then Some(63) else None
  }

  const TABLE: string := seq(64, v requires 0 <= v < 64 => Letter(v))

  lemma ValueOfLetter(v: nat)
    requires v < 64
    ensures Value(Letter(v)) == Some(v) && !IsSpace(Letter(v)) && Letter(v) != '=' && Letter(v) != NUL
  {
  }

  lemma LetterOfValue(ch: char)
    requires Value(ch).Some?
    ensures Value(ch).value < 64 && Letter(Value(ch).value) == ch
  {
  }

  function EncodedLen(n: nat): nat { (n + 3 - 1) / 3 * 4 }

  /** Three bytes for each started group of four characters. */
  function DecodedMaxLen(n: nat): (m: nat)
    ensures m % 3 == 0 && 3 * n <= 4 * m < 3 * n + 12
  {
    (n + 4 - 1) / 4 * 3
  }

  /** A group of up to three bytes as four characters, and so on for the rest. */
  function Encoded(raw: seq<byte>): (s: string) {
    if raw == [] then []
    else if |raw| == 1 then
      [Letter(raw[0] / 4), Letter(raw[0] % 4 * 16), '=', '=']
    else if |raw| == 2 then
      [Letter(raw[0] / 4), Letter(raw[0] % 4 * 16 + raw[1] / 16), Letter(raw[1] % 16 * 4), '=']
    else
      [Letter(raw[0] / 4), Letter(raw[0] % 4 * 16 + raw[1] / 16), Letter(raw[1] % 16 * 4 + raw[2] / 64), Letter(raw[2] % 64)]
      + Encoded(raw[3..])
  }

  function ByteOr0(raw: seq<byte>, i: nat): byte { if i < |raw| then raw[i] else 0 }

  /** Six bits of the data, from bit `6 * c` on. */
  function SextetAt(raw: seq<byte>, c: nat): (v: nat)
    ensures v < 64
  {
    var g := c / 4 * 3;
    match c % 4
    case 0 => ByteOr0(raw, g) / 4
    case 1 => ByteOr0(raw, g) % 4 * 16 + ByteOr0(raw, g + 1) / 16
    case 2 => ByteOr0(raw, g + 1) % 16 * 4 + ByteOr0(raw, g + 2) / 64
    case _ => ByteOr0(raw, g + 2) % 64
  }

  /** How many characters hold data. */
  function DataChars(n: nat): nat { (4 * n + 2) / 3 }

  lemma SextetTail(raw: seq<byte>, c: nat)
    requires |raw| >= 3 && c >= 4
    ensures SextetAt(raw, c) == SextetAt(raw[3..], c - 4)
  {
    assert (c - 4) / 4 == c / 4 - 1 && (c - 4) % 4 == c % 4;
    assert forall i :: i >= 3 ==> ByteOr0(raw, i) == ByteOr0(raw[3..], i - 3);
  }

  lemma {:induction false} EncodedLength(raw: seq<byte>)
    ensures |Encoded(raw)| == EncodedLen(|raw|)
    decreases |raw|
  {
    hide Letter;
    if |raw| >= 3 {
      EncodedLength(raw[3..]);
      GroupMore(|raw|);
    }
  }

  lemma GroupMore(n: nat)
    requires n >= 3
    ensures EncodedLen(n) == EncodedLen(n - 3) + 4
  {
  }

  /** Character `c` of the first `m` bytes: data first, then padding to a multiple of four. */
  function CharAt(raw: seq<byte>, m: nat, c: nat): char {
    if c < DataChars(m) then Letter(SextetAt(raw, c)) else '='
  }

  lemma FirstGroup(raw: seq<byte>, c: nat)
    requires raw != [] && c < 4
    ensures |Encoded(raw)| >= 4 && Encoded(raw)[c] == CharAt(raw, |raw|, c)
  {
    assert c / 4 == 0 && c % 4 == c;
    if |raw| == 1 {
      assert DataChars(|raw|) == 2;
    } else if |raw| == 2 {
      assert DataChars(|raw|) == 3;
    } else {
      assert DataChars(|raw|) >= 4;
    }
  }

  lemma {:induction false} EncodedAt(raw: seq<byte>, c: nat)
    requires c < |Encoded(raw)|
    ensures Encoded(raw)[c] == CharAt(raw, |raw|, c)
    decreases |raw|
  {
    if c < 4 {
      FirstGroup(raw, c);
    } else {
      assert |raw| >= 3;
      hide SextetAt;
      SextetTail(raw, c);
      EncodedAt(raw[3..], c - 4);
      assert DataChars(|raw|) == DataChars(|raw| - 3) + 4;
    }
  }

  /** Disjoint bits: or-ing is adding. */
  lemma {:induction false} OrZero(x: nat)
    ensures Or(x, 0) == x
  {
    if x > 0 { OrZero(x / 2); }
  }

  lemma {:induction false} OrDisjoint(x: nat, y: nat, s: nat)
    requires y < Pow2(s) && x % Pow2(s) == 0
    ensures Or(x, y) == x + y
    decreases s
  {
    if s == 0 {
      OrZero(x);
    } else {
      var q := x / Pow2(s);
      assert x == 2 * (q * Pow2(s - 1));
      DivUnique(x / 2, Pow2(s - 1), q, 0);
      OrDisjoint(x / 2, y / 2, s - 1);
    }
  }

  lemma Powers()
    ensures Pow2(0) == 1 && Pow2(2) == 4 && Pow2(4) == 16 && Pow2(6) == 64 && Pow2(8) == 256
  {
    assert Pow2(3) == 8 && Pow2(5) == 32;
  }

  /** Six bits starting `shift` bits into byte `a`, which is followed by `b`. */
  function Extract(a: byte, b: byte, shift: nat): (v: nat)
    requires shift <= 8
    ensures v < 64
  {
    Or(a * Pow2(shift), b / Pow2(8 - shift)) / 4 % 64
  }

  lemma Joined(a: byte, b: byte, shift: nat)
    requires shift <= 8 && b / Pow2(8 - shift) < Pow2(shift)
    ensures Or(a * Pow2(shift), b / Pow2(8 - shift)) == a * Pow2(shift) + b / Pow2(8 - shift)
  {
    DivUnique(a * Pow2(shift), Pow2(shift), a, 0);
    OrDisjoint(a * Pow2(shift), b / Pow2(8 - shift), shift);
  }

  lemma Extract0(a: byte, b: byte)
    ensures Extract(a, b, 0) == a / 4
  {
    Powers();
    Joined(a, b, 0);
  }

  lemma Extract2(a: byte, b: byte)
    ensures Extract(a, b, 2) == a % 64
  {
    Powers();
    Joined(a, b, 2);
    assert (a * 4 + b / 64) / 4 == a;
  }

  lemma Extract4(a: byte, b: byte)
    ensures Extract(a, b, 4) == a % 16 * 4 + b / 64
  {
    Powers();
    Joined(a, b, 4);
    assert (a * 16 + b / 16) / 4 == a * 4 + b / 64;
    DivUnique(a * 4 + b / 64, 64, a / 16, a % 16 * 4 + b / 64);
  }

  lemma Extract6(a: byte, b: byte)
    ensures Extract(a, b, 6) == a % 4 * 16 + b / 16
  {
    Powers();
    Joined(a, b, 6);
    assert (a * 64 + b / 4) / 4 == a * 16 + b / 16;
    DivUnique(a * 16 + b / 16, 64, a / 4, a % 4 * 16 + b / 16);
  }

  /** The bit counter picks out the six bits of character `c`. */
  lemma ExtractIsSextet(raw: seq<byte>, c: nat)
    ensures var bit := 6 * c;
            Extract(ByteOr0(raw, bit / 8), ByteOr0(raw, bit / 8 + 1), bit % 8) == SextetAt(raw, c)
  {
    var g, bit := c / 4 * 3, 6 * c;
    if c % 4 == 0 {
      DivUnique(bit, 8, g, 0);
      Extract0(ByteOr0(raw, g), ByteOr0(raw, g + 1));
    } else if c % 4 == 1 {
      DivUnique(bit, 8, g, 6);
      Extract6(ByteOr0(raw, g), ByteOr0(raw, g + 1));
    } else if c % 4 == 2 {
      DivUnique(bit, 8, g + 1, 4);
      Extract4(ByteOr0(raw, g + 1), ByteOr0(raw, g + 2));
    } else {
      DivUnique(bit, 8, g + 2, 2);
      Extract2(ByteOr0(raw, g + 2), ByteOr0(raw, g + 3));
    }
  }

  /** The number of bits, computed in a `size_t` of `w` values. */
  function RawBits(n: nat, w: nat): nat
    requires w > 0
  {
    8 * n % w
  }

  /** How many bytes the encoder looks at. */
  function Counted(n: nat, w: nat): nat
    requires w > 0
  {
    RawBits(n, w) / 8
  }

  /** The bit counter is an `unsigned int`, so it never reaches a larger number of bits. */
  predicate Endless(n: nat, w: nat)
    requires w > 0
  {
    RawBits(n, w) >= UINT_MOD
  }

  lemma CountedBytes(n: nat, w: nat)
    requires w > 0 && w % UINT_MOD == 0
    ensures RawBits(n, w) == 8 * Counted(n, w) && Counted(n, w) <= n
    ensures n < UINT_MOD / 8 ==> !Endless(n, w) && Counted(n, w) == n
  {
    ModOfMultiple(8 * n, 8, w);
    var q, r := 8 * n / w, 8 * n % w;
    assert 8 * n == w * q + r;
    MulMonotone(0, q, w);
    WordAtLeast(w);
    if n < UINT_MOD / 8 { DivUnique(8 * n, w, 0, 8 * n); }
  }

  lemma WordAtLeast(w: nat)
    requires w > 0 && w % UINT_MOD == 0
    ensures w >= UINT_MOD && w % 8 == 0
  {
    if w < UINT_MOD { DivUnique(w, UINT_MOD, 0, w); }
    ModOfMultiple(w, 8, UINT_MOD);
  }

  /** The encoding of the first `m` bytes, with the bits that follow them where they fill up the
      last data character. */
  function EncodedFirst(raw: seq<byte>, m: nat): (s: string)
    ensures |s| == EncodedLen(m)
  {
    seq(EncodedLen(m), c requires 0 <= c < EncodedLen(m) => CharAt(raw, m, c))
  }

  /** The encoder ends and writes the encoding exactly for data of less than 2^29 bytes. */
  lemma EncodeRightIff(raw: seq<byte>, w: nat)
    requires w > 0 && w % UINT_MOD == 0
    ensures !Endless(|raw|, w) && EncodedFirst(raw, Counted(|raw|, w)) == Encoded(raw) <==> |raw| < UINT_MOD / 8
  {
    hide Letter, Encoded, SextetAt, Counted;
    var n := |raw|;
    CountedBytes(n, w);
    EncodedLength(raw);
    if n < UINT_MOD / 8 {
      forall c | 0 <= c < |Encoded(raw)| ensures EncodedFirst(raw, n)[c] == Encoded(raw)[c] { EncodedAt(raw, c); }
    } else if !Endless(n, w) {
      CountedFew(n, w);
      assert EncodedLen(Counted(n, w)) < EncodedLen(n);
    }
  }

  lemma CountedFew(n: nat, w: nat)
    requires w > 0 && w % UINT_MOD == 0 && n >= UINT_MOD / 8 && !Endless(n, w)
    ensures Counted(n, w) + 3 <= n
  {
    var m := Counted(n, w);
    CountedBytes(n, w);
    WordAtLeast(w);
    assert m < n;
    var q := 8 * n / w;
    assert 8 * n == w * q + 8 * m;
    if q >= 1 { MulMonotone(1, q, w); }
  }

  ghost predicate Written(encoded: seq<char>, raw: seq<byte>, m: nat, out: nat) {
    out <= |encoded| && forall c :: 0 <= c < out ==> encoded[c] == CharAt(raw, m, c)
  }

  /** Encode into a buffer with room for a terminating NUL. With too many bits for its counter the
      loop does not end, and runs off the buffer: `endless`. */
  method Encode(raw: seq<byte>, w: nat, encoded: array<char>) returns (endless: bool)
    requires w > 0 && w % UINT_MOD == 0 && encoded.Length == EncodedLen(|raw|) + 1
    modifies encoded
    ensures endless <==> Endless(|raw|, w)
    ensures !endless ==>
              var s := EncodedFirst(raw, Counted(|raw|, w));
              && |s| < encoded.Length && encoded[..|s| + 1] == s + [NUL]
              && encoded[|s| + 1..] == old(encoded[|s| + 1..])
    ensures |raw| < UINT_MOD / 8 ==> !endless && encoded[..] == Encoded(raw) + [NUL]
  {
    hide Letter, Encoded, SextetAt, Counted, DataChars, EncodedLen, Written, EncodedFirst, Endless;
    ghost var m := Counted(|raw|, w);
    CountedBytes(|raw|, w);
    RoomForData(m, |raw|);
    EncodeRightIff(raw, w);
    if Endless(|raw|, w) {
      return true;
    }
    var bit, out := EncodeData(raw, w, encoded);
    out := EncodePads(raw, encoded, bit, out, m);
    WrittenAll(encoded[..], raw, m);
    encoded[out] := NUL;
    assert encoded[..out] == EncodedFirst(raw, m);
    assert encoded[..out + 1] == encoded[..out] + [NUL];
    if |raw| < UINT_MOD / 8 {
      assert encoded[..out + 1] == encoded[..];
    }
    return false;
  }

  lemma WrittenAll(encoded: seq<char>, raw: seq<byte>, m: nat)
    requires Written(encoded, raw, m, EncodedLen(m))
    ensures EncodedLen(m) <= |encoded| && encoded[..EncodedLen(m)] == EncodedFirst(raw, m)
  {
    hide CharAt;
  }

  /** The pad characters. */
  method EncodePads(raw: seq<byte>, encoded: array<char>, bit0: nat, out0: nat, ghost m: nat) returns (out: nat)
    requires bit0 == 6 * out0 && out0 == DataChars(m) <= EncodedLen(m) < encoded.Length && Written(encoded[..], raw, m, out0)
    modifies encoded
    ensures out == EncodedLen(m) && Written(encoded[..], raw, m, out)
    ensures forall i :: out <= i < encoded.Length ==> encoded[i] == old(encoded[i])
  {
    hide Letter, SextetAt, DataChars, EncodedLen;
    var bit := bit0;
    out := out0;
    Pads(m, out);
    while bit % 8 != 0
      invariant bit % 8 == 6 * out % 8 && DataChars(m) <= out <= EncodedLen(m) && (bit % 8 == 0 <==> out == EncodedLen(m))
      invariant Written(encoded[..], raw, m, out) && forall i :: out <= i < encoded.Length ==> encoded[i] == old(encoded[i])
      decreases EncodedLen(m) - out
    {
      encoded[out] := '=';
      PadStep(bit, out);
      bit, out := (bit + 6) % UINT_MOD, out + 1;
      Pads(m, out);
    }
  }

  lemma RoomForData(m: nat, n: nat)
    requires m <= n
    ensures DataChars(m) <= EncodedLen(m) <= EncodedLen(n)
  {
  }

  lemma DataStep(m: nat, out: nat)
    ensures 6 * out < 8 * m <==> out < DataChars(m)
    ensures 6 * out < 8 * m ==> 6 * out / 8 < m
  {
  }

  /** The data characters, six bits at a time. */
  method EncodeData(raw: seq<byte>, w: nat, encoded: array<char>) returns (bit: nat, out: nat)
    requires w > 0 && w % UINT_MOD == 0 && !Endless(|raw|, w) && encoded.Length == EncodedLen(|raw|) + 1
    modifies encoded
    ensures out == DataChars(Counted(|raw|, w)) && bit == 6 * out && Written(encoded[..], raw, Counted(|raw|, w), out)
    ensures forall i :: out <= i < encoded.Length ==> encoded[i] == old(encoded[i])
  {
    hide Letter, SextetAt, Counted, Extract, DataChars, EncodedLen, RawBits;
    ghost var m := Counted(|raw|, w);
    CountedBytes(|raw|, w);
    RoomForData(m, |raw|);
    var rawBits := RawBits(|raw|, w);
    bit, out := 0, 0;
    DataStep(m, 0);
    while bit < rawBits
      invariant bit == 6 * out && out <= DataChars(m) && bit < UINT_MOD && (bit < 8 * m <==> out < DataChars(m))
      invariant Written(encoded[..], raw, m, out) && forall i :: out <= i < encoded.Length ==> encoded[i] == old(encoded[i])
    {
      DataStep(m, out);
      DataStep(m, out + 1);
      var byte_, shift := bit / 8, bit % 8;
      ExtractIsSextet(raw, out);
      var next := if byte_ + 1 < |raw| then raw[byte_ + 1] else 0;
      var tmp := Extract(raw[byte_], next, shift);
      encoded[out] := TABLE[tmp];
      bit, out := bit + 6, out + 1;
    }
  }

  lemma PadStep(bit: int, out: nat)
    requires bit % 8 == 6 * out % 8
    ensures (bit + 6) % UINT_MOD % 8 == 6 * (out + 1) % 8
  {
    ModOfMultiple(bit + 6, 8, UINT_MOD);
    var q, p, r := bit / 8, 6 * out / 8, bit % 8;
    assert bit + 6 == 8 * q + (r + 6) && 6 * (out + 1) == 8 * p + (r + 6);
    if r < 2 {
      DivUnique(bit + 6, 8, q, r + 6);
      DivUnique(6 * (out + 1), 8, p, r + 6);
    } else {
      DivUnique(bit + 6, 8, q + 1, r - 2);
      DivUnique(6 * (out + 1), 8, p + 1, r - 2);
    }
  }

  lemma Pads(n: nat, out: nat)
    requires DataChars(n) <= out <= EncodedLen(n)
    ensures 6 * out % 8 == 0 <==> out == EncodedLen(n)
  {
    var h := (n + 2) / 3;
    assert EncodedLen(n) == 4 * h && DataChars(n) >= 4 * h - 2;
    if out == 4 * h {
      DivUnique(6 * out, 8, 3 * h, 0);
    } else if out == 4 * h - 1 {
      DivUnique(6 * out, 8, 3 * h - 1, 2);
    } else {
      DivUnique(6 * out, 8, 3 * h - 2, 4);
    }
  }

  // ----- Decoding -----

  datatype Parse = Malformed | Parsed(vals: seq<nat>, pads: nat)

  function IndexOf(s: string, ch: char): (i: Option<nat>)
    ensures i.None? <==> ch !in s
    ensures i.Some? ==> i.value < |s| && s[i.value] == ch && ch !in s[..i.value]
  {
    if s == [] then None
    else if s[0] == ch then Some(0)
    else match IndexOf(s[1..], ch) case None => None case Some(k) => Some(k + 1)
  }

  /** The value `strchr` finds. The table of the alphabet has no terminator, so the search goes on
      through the characters `beyond` it, up to the next NUL. */
  function Lookup(ch: char, beyond: string): Option<nat> {
    if Value(ch).Some? then Value(ch)
    else match IndexOf(beyond, ch) case None => None case Some(k) => Some(64 + k)
  }

  /** Values of the letters and number of pad characters: white space is skipped, at most two
      pads may follow the letters, and nothing else may occur. */
  function ParseFrom(s: string, beyond: string, vals: seq<nat>, pads: nat): (r: Parse)
    decreases |s|
  {
    if s == [] then Parsed(vals, pads)
    else if IsSpace(s[0]) then ParseFrom(s[1..], beyond, vals, pads)
    else if s[0] == '=' then (if pads >= 2 then Malformed else ParseFrom(s[1..], beyond, vals, pads + 1))
    else if pads > 0 || Lookup(s[0], beyond).None? then Malformed
    else ParseFrom(s[1..], beyond, vals + [Lookup(s[0], beyond).value], pads)
  }

  function ValueOr0(vals: seq<nat>, k: nat): nat { if k < |vals| then vals[k] % 64 else 0 }

  /** Eight bits of the stream of six-bit values, from bit `8 * i` on. */
  function ByteAt(vals: seq<nat>, i: nat): byte {
    var k := i / 3 * 4;
    match i % 3
    case 0 => ValueOr0(vals, k) * 4 + ValueOr0(vals, k + 1) / 16
    case 1 => ValueOr0(vals, k + 1) % 16 * 16 + ValueOr0(vals, k + 2) / 4
    case _ => ValueOr0(vals, k + 2) % 4 * 64 + ValueOr0(vals, k + 3)
  }

  /** The decoded bytes, if the string is well formed and holds a whole number of them. */
  function Decoded(s: string): Option<seq<byte>> {
    var p := ParseFrom(s, "", [], 0);
    if p.Malformed? then None else
    var bits := 6 * |p.vals| - 2 * p.pads;
    if bits % 8 != 0 || bits < 0 then None
    else Some(seq(bits / 8, i requires 0 <= i < bits / 8 => ByteAt(p.vals, i)))
  }

  /** The two halves in which a value is or-ed into the output, each cut to a byte. */
  function FirstPart(v: nat, shift: nat): byte {
    QuotientNat(v * 4, Pow2(shift));
    v * 4 / Pow2(shift) % 256
  }

  lemma QuotientNat(x: nat, d: nat)
    requires d > 0
    ensures x / d >= 0
  {
  }

  function SecondPart(v: nat, shift: nat): byte
    requires shift <= 8
  {
    v * 4 * Pow2(8 - shift) % 256
  }

  lemma Parts(v: nat)
    requires v < 64
    ensures FirstPart(v, 0) == v * 4 && SecondPart(v, 0) == 0
    ensures FirstPart(v, 6) == v / 16 && SecondPart(v, 6) == v % 16 * 16
    ensures FirstPart(v, 4) == v / 4 && SecondPart(v, 4) == v % 4 * 64
    ensures FirstPart(v, 2) == v && SecondPart(v, 2) == 0
  {
    Powers();
    DivUnique(v * 4 * 4, 256, v / 16, v % 16 * 16);
    DivUnique(v * 4 * 16, 256, v / 4, v % 4 * 64);
  }

  lemma OrNothing(x: nat)
    ensures Or(0, x) == x && Or(x, 0) == x
  {
    OrZero(x);
    OrCommutes(0, x);
  }

  lemma OrHigh(x: nat, m: nat, y: nat, s: nat)
    requires m == Pow2(s) && y < m
    ensures Or(x * m, y) == x * m + y
  {
    DivUnique(x * m, m, x, 0);
    OrDisjoint(x * m, y, s);
  }

  lemma {:induction false} OrCommutes(x: nat, y: nat)
    ensures Or(x, y) == Or(y, x)
    decreases x + y
  {
    if x + y > 0 { OrCommutes(x / 2, y / 2); }
  }

  /** Where the next value goes: byte index and shift. */
  lemma Slot(c: nat)
    ensures var g := c / 4 * 3;
            && (c % 4 == 0 ==> 6 * c / 8 == g && 6 * c % 8 == 0)
            && (c % 4 == 1 ==> 6 * c / 8 == g && 6 * c % 8 == 6)
            && (c % 4 == 2 ==> 6 * c / 8 == g + 1 && 6 * c % 8 == 4)
            && (c % 4 == 3 ==> 6 * c / 8 == g + 2 && 6 * c % 8 == 2)
  {
    var g := c / 4 * 3;
    if c % 4 == 0 { DivUnique(6 * c, 8, g, 0); }
    if c % 4 == 1 { DivUnique(6 * c, 8, g, 6); }
    if c % 4 == 2 { DivUnique(6 * c, 8, g + 1, 4); }
    if c % 4 == 3 { DivUnique(6 * c, 8, g + 2, 2); }
  }

  ghost predicate Deposited(vals: seq<nat>, v: nat, i: nat, shift: nat)
    requires shift <= 8
  {
    && Or(ByteAt(vals, i), FirstPart(v, shift)) == ByteAt(vals + [v], i)
    && Or(ByteAt(vals, i + 1), SecondPart(v, shift)) == ByteAt(vals + [v], i + 1)
  }

  lemma Deposit0(vals: seq<nat>, v: nat, g: nat)
    requires v < 64 && |vals| == 4 * g
    ensures Deposited(vals, v, 3 * g, 0)
  {
    hide Or, FirstPart, SecondPart, ByteAt;
    Parts(v);
    At0(vals, g);
    At0(vals + [v], g);
    At1(vals, g);
    At1(vals + [v], g);
    OrNothing(v * 4);
    OrNothing(0);
  }

  lemma Deposit1(vals: seq<nat>, v: nat, g: nat)
    requires v < 64 && |vals| == 4 * g + 1
    ensures Deposited(vals, v, 3 * g, 6)
  {
    hide Or, FirstPart, SecondPart, ByteAt;
    Parts(v);
    Powers();
    At0(vals, g);
    At0(vals + [v], g);
    At1(vals, g);
    At1(vals + [v], g);
    OrHigh(vals[4 * g] % 64, 4, v / 16, 2);
    OrNothing(v % 16 * 16);
  }

  lemma Deposit2(vals: seq<nat>, v: nat, g: nat)
    requires v < 64 && |vals| == 4 * g + 2
    ensures Deposited(vals, v, 3 * g + 1, 4)
  {
    hide Or, FirstPart, SecondPart, ByteAt;
    Parts(v);
    Powers();
    At1(vals, g);
    At1(vals + [v], g);
    At2(vals, g);
    At2(vals + [v], g);
    OrHigh(vals[4 * g + 1] % 64 % 16, 16, v / 4, 4);
    OrNothing(v % 4 * 64);
  }

  lemma Deposit3(vals: seq<nat>, v: nat, g: nat)
    requires v < 64 && |vals| == 4 * g + 3
    ensures Deposited(vals, v, 3 * g + 2, 2)
  {
    hide Or, FirstPart, SecondPart, ByteAt;
    Parts(v);
    Powers();
    At2(vals, g);
    At2(vals + [v], g);
    At0(vals, g + 1);
    At0(vals + [v], g + 1);
    OrHigh(vals[4 * g + 2] % 64 % 4, 64, v, 6);
    OrNothing(ByteAt(vals, 3 * g + 3));
  }

  /** Or-ing in the two halves of a value extends the decoded bytes by that value. */
  lemma Deposit(vals: seq<nat>, v: nat)
    requires v < 64
    ensures Deposited(vals, v, 6 * |vals| / 8, 6 * |vals| % 8)
  {
    hide Deposited;
    var g := |vals| / 4;
    Slot(|vals|);
    if |vals| % 4 == 0 {
      Deposit0(vals, v, g);
    } else if |vals| % 4 == 1 {
      Deposit1(vals, v, g);
    } else if |vals| % 4 == 2 {
      Deposit2(vals, v, g);
    } else {
      Deposit3(vals, v, g);
    }
  }

  lemma At0(vals: seq<nat>, g: nat)
    ensures ByteAt(vals, 3 * g) == ValueOr0(vals, 4 * g) * 4 + ValueOr0(vals, 4 * g + 1) / 16
  {
    assert 3 * g / 3 == g && 3 * g % 3 == 0;
  }

  lemma At1(vals: seq<nat>, g: nat)
    ensures ByteAt(vals, 3 * g + 1) == ValueOr0(vals, 4 * g + 1) % 16 * 16 + ValueOr0(vals, 4 * g + 2) / 4
  {
    assert (3 * g + 1) / 3 == g && (3 * g + 1) % 3 == 1;
  }

  lemma At2(vals: seq<nat>, g: nat)
    ensures ByteAt(vals, 3 * g + 2) == ValueOr0(vals, 4 * g + 2) % 4 * 64 + ValueOr0(vals, 4 * g + 3)
  {
    assert (3 * g + 2) / 3 == g && (3 * g + 2) % 3 == 2;
  }

  /** Other bytes do not depend on the new value. */
  lemma DepositOther(vals: seq<nat>, v: nat, i: nat)
    requires i != 6 * |vals| / 8 && i != 6 * |vals| / 8 + 1
    ensures ByteAt(vals + [v], i) == ByteAt(vals, i)
  {
    var c := |vals|;
    Slot(c);
    var k := i / 3 * 4;
    assert forall j :: j != c ==> ValueOr0(vals + [v], j) == ValueOr0(vals, j);
  }

  lemma {:induction false} OrBound(x: nat, y: nat, k: nat)
    requires x < Pow2(k) && y < Pow2(k)
    ensures Or(x, y) < Pow2(k)
  {
    if k > 0 { OrBound(x / 2, y / 2, k - 1); }
  }

  function OrByte(x: byte, y: byte): byte {
    Powers();
    OrBound(x, y, 8);
    Or(x, y)
  }

  /** Byte `i` of the output after or-ing in each value at its place, whatever the values are. */
  function Spread(vals: seq<nat>, i: nat): byte {
    if vals == [] then 0
    else
      var c := |vals| - 1;
      var b := Spread(vals[..c], i);
      if i == 6 * c / 8 then OrByte(b, FirstPart(vals[c], 6 * c % 8))
      else if i == 6 * c / 8 + 1 then OrByte(b, SecondPart(vals[c], 6 * c % 8))
      else b
  }

  /** Six-bit values spread out to their concatenation. */
  lemma {:induction false} SpreadIsByteAt(vals: seq<nat>, i: nat)
    requires forall k :: 0 <= k < |vals| ==> vals[k] < 64
    ensures Spread(vals, i) == ByteAt(vals, i)
  {
    hide Or, FirstPart, SecondPart, ByteAt, Deposited;
    if vals == [] {
      NoValues(i);
    } else {
      var c := |vals| - 1;
      var rest, v := vals[..c], vals[c];
      assert vals == rest + [v];
      SpreadIsByteAt(rest, i);
      if i == 6 * c / 8 {
        DepositAt(rest, v, i, 6 * c % 8);
      } else if i == 6 * c / 8 + 1 {
        DepositAt(rest, v, i - 1, 6 * c % 8);
      } else {
        DepositOther(rest, v, i);
      }
    }
  }

  lemma NoValues(i: nat)
    ensures ByteAt([], i) == 0
  {
  }

  /** What the decoder returns, given the characters beyond its table. */
  function DecodedOver(s: string, beyond: string): Option<seq<byte>> {
    var p := ParseFrom(s, beyond, [], 0);
    if p.Malformed? then None else
    var bits := 6 * |p.vals| - 2 * p.pads;
    if bits % 8 != 0 || bits < 0 then None
    else Some(seq(bits / 8, i requires 0 <= i < bits / 8 => Spread(p.vals, i)))
  }

  /** Every character before the first pad is white space or in the alphabet. */
  predicate Plain(s: string) {
    s == [] || s[0] == '=' || ((IsSpace(s[0]) || Value(s[0]).Some?) && Plain(s[1..]))
  }

  /** Number of letters and pads if every other character counts as a letter. */
  function Shape(s: string, letters: nat, pads: nat): Option<(nat, nat)>
    decreases |s|
  {
    if s == [] then Some((letters, pads))
    else if IsSpace(s[0]) then Shape(s[1..], letters, pads)
    else if s[0] == '=' then (if pads >= 2 then None else Shape(s[1..], letters, pads + 1))
    else if pads > 0 then None
    else Shape(s[1..], letters + 1, pads)
  }

  /** The string would be well formed and a whole number of bytes over a larger alphabet. */
  predicate Shaped(s: string) {
    var p := Shape(s, 0, 0);
    p.Some? && (6 * p.value.0 - 2 * p.value.1) % 8 == 0
  }

  /** Parsing counts letters and pads as `Shape` does, unless it rejects a character. */
  lemma {:induction false} ParseShape(s: string, beyond: string, vals: seq<nat>, pads: nat)
    requires pads <= 2
    ensures ParseFrom(s, beyond, vals, pads).Parsed? ==>
              var p := ParseFrom(s, beyond, vals, pads); Shape(s, |vals|, pads) == Some((|p.vals|, p.pads)) && p.pads <= 2
    ensures (forall ch :: ch in s ==> Lookup(ch, beyond).Some?) ==>
              (ParseFrom(s, beyond, vals, pads).Parsed? <==> Shape(s, |vals|, pads).Some?)
    decreases |s|
  {
    hide Value, Lookup;
    if s != [] {
      if IsSpace(s[0]) {
        ParseShape(s[1..], beyond, vals, pads);
      } else if s[0] == '=' {
        if pads < 2 { ParseShape(s[1..], beyond, vals, pads + 1); }
      } else if pads == 0 && Lookup(s[0], beyond).Some? {
        ParseShape(s[1..], beyond, vals + [Lookup(s[0], beyond).value], pads);
      }
    }
  }

  /** Once padding has begun, what lies beyond the table is not looked at. */
  lemma {:induction false} PaddedParse(s: string, beyond: string, vals: seq<nat>, pads: nat)
    requires pads > 0
    ensures ParseFrom(s, beyond, vals, pads) == ParseFrom(s, "", vals, pads)
    decreases |s|
  {
    if s != [] {
      if IsSpace(s[0]) {
        PaddedParse(s[1..], beyond, vals, pads);
      } else if s[0] == '=' && pads < 2 {
        PaddedParse(s[1..], beyond, vals, pads + 1);
      }
    }
  }

  lemma {:induction false} PlainParse(s: string, beyond: string, vals: seq<nat>)
    requires Plain(s) && forall k :: 0 <= k < |vals| ==> vals[k] < 64
    ensures ParseFrom(s, beyond, vals, 0) == ParseFrom(s, "", vals, 0)
    decreases |s|
  {
    hide Value;
    if s != [] {
      if IsSpace(s[0]) {
        PlainParse(s[1..], beyond, vals);
      } else if s[0] == '=' {
        PaddedParse(s[1..], beyond, vals, 1);
      } else {
        LetterOfValue(s[0]);
        PlainParse(s[1..], beyond, vals + [Value(s[0]).value]);
      }
    }
  }

  /** Without anything beyond the table every value has six bits, and only plain strings parse. */
  lemma {:induction false} BareParse(s: string, vals: seq<nat>, pads: nat)
    requires forall k :: 0 <= k < |vals| ==> vals[k] < 64
    ensures var p := ParseFrom(s, "", vals, pads);
            p.Parsed? ==> (forall k :: 0 <= k < |p.vals| ==> p.vals[k] < 64) && (pads == 0 ==> Plain(s))
    decreases |s|
  {
    hide Value;
    if s != [] {
      if IsSpace(s[0]) {
        BareParse(s[1..], vals, pads);
      } else if s[0] == '=' {
        if pads < 2 { BareParse(s[1..], vals, pads + 1); }
      } else if Value(s[0]).Some? {
        LetterOfValue(s[0]);
        BareParse(s[1..], vals + [Value(s[0]).value], pads);
      }
    }
  }

  /** With nothing beyond the table the decoder is right on every string. */
  lemma BareDecode(s: string)
    ensures DecodedOver(s, "") == Decoded(s)
  {
    hide ParseFrom, Spread, ByteAt;
    BareParse(s, [], 0);
    var p := ParseFrom(s, "", [], 0);
    if p.Parsed? {
      var bits := 6 * |p.vals| - 2 * p.pads;
      if bits % 8 == 0 && bits >= 0 {
        forall i: nat ensures Spread(p.vals, i) == ByteAt(p.vals, i) { SpreadIsByteAt(p.vals, i); }
        assert DecodedOver(s, "").value == Decoded(s).value;
      }
    }
  }

  /** Whatever lies beyond the table, the decoder is right: exactly for the strings whose
      characters before the first pad are white space or in the alphabet, and for those that are
      malformed even with foreign characters counted as letters. */
  lemma DecodeRightIff(s: string)
    requires NUL !in s
    ensures (forall beyond: string | NUL !in beyond :: DecodedOver(s, beyond) == Decoded(s)) <==> Plain(s) || !Shaped(s)
  {
    hide ParseFrom, Spread, ByteAt, Value, Decoded;
    BareDecode(s);
    ParseShape(s, "", [], 0);
    if Plain(s) {
      forall beyond: string | NUL !in beyond ensures DecodedOver(s, beyond) == Decoded(s) { PlainParse(s, beyond, []); }
    } else if !Shaped(s) {
      forall beyond: string | NUL !in beyond ensures DecodedOver(s, beyond) == Decoded(s) { ParseShape(s, beyond, [], 0); }
    } else {
      BareParse(s, [], 0);
      ParseShape(s, s, [], 0);
      assert DecodedOver(s, s) != Decoded(s);
    }
  }

  /** A foreign character that happens to follow the table is decoded. */
  lemma ForeignDecoded()
    ensures DecodedOver("!A==", "!").Some? && Decoded("!A==").None?
  {
    hide Spread, ByteAt;
    var s := "!A==";
    assert s[1..] == "A==" && s[1..][1..] == "==" && s[1..][1..][1..] == "=" && s[1..][1..][1..][1..] == "";
    assert IndexOf("!", '!') == Some(0);
    assert ParseFrom("!A==", "!", [], 0) == ParseFrom("==", "!", [64] + [0], 0);
    assert ParseFrom("==", "!", [64, 0], 0) == Parsed([64, 0], 2);
  }

  /** `strchr` in the unterminated table of the alphabet. */
  method Match(ch: char, beyond: string) returns (v: Option<nat>)
    ensures v == Lookup(ch, beyond)
  {
    if Value(ch).Some? { LetterOfValue(ch); }
    for k := 0 to 64
      invariant forall j :: 0 <= j < k ==> Value(ch) != Some(j)
    {
      ValueOfLetter(k);
      if TABLE[k] == ch { return Some(k); }
    }
    for k := 0 to |beyond|
      invariant ch !in beyond[..k]
    {
      if beyond[k] == ch {
        FirstIndex(beyond, ch, k);
        return Some(64 + k);
      }
    }
    assert beyond[..|beyond|] == beyond;
    v := None;
  }

  lemma {:induction false} FirstIndex(s: string, ch: char, k: nat)
    requires k < |s| && s[k] == ch && ch !in s[..k]
    ensures IndexOf(s, ch) == Some(k)
  {
    if k > 0 {
      assert s[..k][0] == s[0] && s[1..][..k - 1] == s[..k][1..];
      FirstIndex(s[1..], ch, k - 1);
    }
  }

  /** Or one value into the output; the byte after the decoded data may be touched, not changed. */
  method Add(raw: array<byte>, bit: nat, v: nat, ghost vals: seq<nat>, ghost max: nat)
    requires bit == 6 * |vals| && max % 3 == 0 && |vals| / 4 * 3 + 3 <= max < raw.Length
    requires forall i :: 0 <= i < max ==> raw[i] == Spread(vals, i)
    modifies raw
    ensures forall i :: 0 <= i < max ==> raw[i] == Spread(vals + [v], i)
    ensures raw[max..] == old(raw[max..])
  {
    hide Or, FirstPart, SecondPart, Spread, OrByte;
    Slot(|vals|);
    var i, shift := bit / 8, bit % 8;
    forall k: nat ensures Spread(vals + [v], k) == Spreading(vals, v, k) { SpreadStep(vals, v, k); }
    raw[i] := OrByte(raw[i], FirstPart(v, shift));
    if i + 1 == max {
      SlackUntouched(|vals|, v, i, raw[i + 1]);
    }
    raw[i + 1] := OrByte(raw[i + 1], SecondPart(v, shift));
  }

  function Spreading(vals: seq<nat>, v: nat, i: nat): byte {
    var c := |vals|;
    var b := Spread(vals, i);
    if i == 6 * c / 8 then OrByte(b, FirstPart(v, 6 * c % 8))
    else if i == 6 * c / 8 + 1 then OrByte(b, SecondPart(v, 6 * c % 8))
    else b
  }

  lemma SpreadStep(vals: seq<nat>, v: nat, i: nat)
    ensures Spread(vals + [v], i) == Spreading(vals, v, i)
  {
    assert (vals + [v])[..|vals|] == vals;
  }

  lemma DepositAt(vals: seq<nat>, v: nat, i: nat, shift: nat)
    requires v < 64 && i == 6 * |vals| / 8 && shift == 6 * |vals| % 8
    ensures Or(ByteAt(vals, i), FirstPart(v, shift)) == ByteAt(vals + [v], i)
    ensures Or(ByteAt(vals, i + 1), SecondPart(v, shift)) == ByteAt(vals + [v], i + 1)
  {
    hide Or, FirstPart, SecondPart, ByteAt;
    Deposit(vals, v);
  }

  lemma SlackUntouched(c: nat, v: nat, i: nat, b: byte)
    requires i == 6 * c / 8 && (i + 1) % 3 == 0
    ensures OrByte(b, SecondPart(v, 6 * c % 8)) == b
  {
    hide Or;
    Slot(c);
    Powers();
    assert SecondPart(v, 2) == 0;
    OrNothing(b);
  }

  ghost predicate Filled(raw: seq<byte>, vals: seq<nat>, max: nat) {
    max <= |raw| && forall i :: 0 <= i < max ==> raw[i] == Spread(vals, i)
  }

  /** Decode into a buffer with one byte to spare. */
  method Decode(encoded: string, beyond: string, raw: array<byte>) returns (rc: int)
    requires NUL !in encoded && NUL !in beyond && raw.Length > DecodedMaxLen(|encoded|) && 6 * |encoded| < UINT_MOD
    modifies raw
    ensures match DecodedOver(encoded, beyond)
            case None => rc == -EINVAL
            case Some(data) => rc == |data| <= DecodedMaxLen(|encoded|) && raw[..rc] == data
    ensures raw[DecodedMaxLen(|encoded|)..] == old(raw[DecodedMaxLen(|encoded|)..])
  {
    hide Spread, Lookup;
    var max := DecodedMaxLen(|encoded|);
    for i := 0 to max
      invariant forall k :: 0 <= k < i ==> raw[k] == 0
      invariant raw[max..] == old(raw[max..])
    {
      raw[i] := 0;
    }
    ghost var vals: seq<nat> := [];
    Blank(raw[..], max);
    var bit, pads := 0, 0;
    assert encoded[0..] == encoded;
    for p := 0 to |encoded|
      invariant Scanned(encoded, beyond, p, bit, pads, vals) && Filled(raw[..], vals, max)
      invariant raw[max..] == old(raw[max..])
    {
      var ok;
      ok, bit, pads, vals := Consume(encoded, beyond, p, bit, pads, raw, vals, max);
      if !ok { return -EINVAL; }
    }
    assert encoded[|encoded|..] == [];
    Wrapped(|vals|, pads);
    if bit % 8 != 0 { return -EINVAL; }
    rc := bit / 8;
    Fits(|vals|, pads, |encoded|);
    assert raw[..rc] == DecodedOver(encoded, beyond).value;
  }

  /** What has been read of the string before position `p`. */
  ghost predicate Scanned(s: string, beyond: string, p: nat, bit: nat, pads: nat, vals: seq<nat>) {
    && p <= |s| && pads <= 2 && |vals| + pads <= p && bit == (6 * |vals| - 2 * pads) % UINT_MOD
    && ParseFrom(s, beyond, [], 0) == ParseFrom(s[p..], beyond, vals, pads)
  }

  /** Process one character; `ok` is false if the string is malformed. */
  method Consume(s: string, beyond: string, p: nat, bit0: nat, pads0: nat, raw: array<byte>, ghost vals0: seq<nat>, ghost max: nat)
    returns (ok: bool, bit: nat, pads: nat, ghost vals: seq<nat>)
    requires Scanned(s, beyond, p, bit0, pads0, vals0) && p < |s| && 6 * |s| < UINT_MOD
    requires max == DecodedMaxLen(|s|) < raw.Length && Filled(raw[..], vals0, max)
    modifies raw
    ensures ok ==> Scanned(s, beyond, p + 1, bit, pads, vals) && Filled(raw[..], vals, max)
    ensures !ok ==> ParseFrom(s, beyond, [], 0) == Malformed
    ensures raw[max..] == old(raw[max..])
  {
    hide Spread, Lookup, DecodedMaxLen, ParseFrom;
    ok, bit, pads, vals := true, bit0, pads0, vals0;
    var ch := s[p];
    ParseNext(s, beyond, p, vals, pads);
    if IsSpace(ch) { return; }
    if ch == '=' {
      ok := pads < 2;
      Retreat(|vals|, pads);
      pads, bit := pads + 1, (bit + UINT_MOD - 2) % UINT_MOD;
      return;
    }
    if pads > 0 {
      ok := false;
      return;
    }
    var v := Match(ch, beyond);
    ok := v.Some?;
    if ok {
      RoomFor(|vals|, |s|);
      assert bit == 6 * |vals|;
      Add(raw, bit, v.value, vals, max);
      vals, bit := vals + [v.value], bit + 6;
    }
  }

  lemma ParseNext(s: string, beyond: string, p: nat, vals: seq<nat>, pads: nat)
    requires p < |s|
    ensures ParseFrom(s[p..], beyond, vals, pads) ==
            if IsSpace(s[p]) then ParseFrom(s[p + 1..], beyond, vals, pads)
            else if s[p] == '=' then (if pads >= 2 then Malformed else ParseFrom(s[p + 1..], beyond, vals, pads + 1))
            else if pads > 0 || Lookup(s[p], beyond).None? then Malformed
            else ParseFrom(s[p + 1..], beyond, vals + [Lookup(s[p], beyond).value], pads)
  {
    hide Lookup;
    assert s[p..][1..] == s[p + 1..] && s[p..][0] == s[p];
  }

  lemma Retreat(c: nat, pads: nat)
    requires 6 * c < UINT_MOD
    ensures ((6 * c - 2 * pads) % UINT_MOD + UINT_MOD - 2) % UINT_MOD == (6 * c - 2 * (pads + 1)) % UINT_MOD
  {
  }

  lemma Blank(raw: seq<byte>, max: nat)
    requires max <= |raw| && forall i :: 0 <= i < max ==> raw[i] == 0
    ensures Filled(raw, [], max)
  {
  }

  lemma RoomFor(c: nat, len: nat)
    requires c < len
    ensures DecodedMaxLen(len) % 3 == 0 && c / 4 * 3 + 3 <= DecodedMaxLen(len)
  {
  }

  /** A padded empty string wraps around, but not to a whole number of bytes. */
  lemma Wrapped(c: nat, pads: nat)
    requires pads <= 2 && 6 * c < UINT_MOD
    ensures var bits := 6 * c - 2 * pads;
            bits % UINT_MOD % 8 == bits % 8 && (bits >= 0 ==> bits % UINT_MOD == bits) && (bits < 0 ==> bits % 8 != 0)
  {
  }

  lemma Fits(c: nat, pads: nat, len: nat)
    requires c <= len && 6 * c - 2 * pads >= 0
    ensures (6 * c - 2 * pads) / 8 <= DecodedMaxLen(len)
  {
  }

  // ----- Round trip -----

  ghost function Sextets(raw: seq<byte>, n: nat): (vals: seq<nat>)
    ensures |vals| == n
  {
    seq(n, c requires 0 <= c < n => SextetAt(raw, c))
  }

  lemma {:induction false} ParseLetters(raw: seq<byte>, c: nat)
    requires c <= DataChars(|raw|) <= |Encoded(raw)|
    ensures ParseFrom(Encoded(raw), "", [], 0) == ParseFrom(Encoded(raw)[c..], "", Sextets(raw, c), 0)
  {
    hide Letter, Encoded, SextetAt, Value;
    var e := Encoded(raw);
    if c == 0 {
      assert e[0..] == e && Sextets(raw, 0) == [];
    } else {
      ParseLetters(raw, c - 1);
      EncodedAt(raw, c - 1);
      ValueOfLetter(SextetAt(raw, c - 1));
      assert e[c - 1..][1..] == e[c..];
      assert Sextets(raw, c) == Sextets(raw, c - 1) + [SextetAt(raw, c - 1)];
    }
  }

  lemma {:induction false} ParsePads(s: string, vals: seq<nat>, pads: nat)
    requires pads + |s| <= 2 && forall i :: 0 <= i < |s| ==> s[i] == '='
    ensures ParseFrom(s, "", vals, pads) == Parsed(vals, pads + |s|)
    decreases |s|
  {
    if s != [] { ParsePads(s[1..], vals, pads + 1); }
  }

  lemma PadCount(n: nat)
    ensures 0 <= EncodedLen(n) - DataChars(n) <= 2
    ensures 6 * DataChars(n) - 2 * (EncodedLen(n) - DataChars(n)) == 8 * n
  {
    var g := n / 3;
    if n % 3 == 0 {
      assert DataChars(n) == 4 * g && EncodedLen(n) == 4 * g;
    } else if n % 3 == 1 {
      assert DataChars(n) == 4 * g + 2 && EncodedLen(n) == 4 * g + 4;
    } else {
      assert DataChars(n) == 4 * g + 3 && EncodedLen(n) == 4 * g + 4;
    }
  }

  lemma SextetGroup(raw: seq<byte>, g: nat)
    ensures SextetAt(raw, 4 * g) == ByteOr0(raw, 3 * g) / 4
    ensures SextetAt(raw, 4 * g + 1) == ByteOr0(raw, 3 * g) % 4 * 16 + ByteOr0(raw, 3 * g + 1) / 16
    ensures SextetAt(raw, 4 * g + 2) == ByteOr0(raw, 3 * g + 1) % 16 * 4 + ByteOr0(raw, 3 * g + 2) / 64
    ensures SextetAt(raw, 4 * g + 3) == ByteOr0(raw, 3 * g + 2) % 64
  {
    assert 4 * g / 4 == g && (4 * g + 1) / 4 == g && (4 * g + 2) / 4 == g && (4 * g + 3) / 4 == g;
    assert 4 * g % 4 == 0 && (4 * g + 1) % 4 == 1 && (4 * g + 2) % 4 == 2 && (4 * g + 3) % 4 == 3;
  }

  lemma Rejoin(a: byte, b: byte, c: byte)
    ensures a / 4 * 4 + (a % 4 * 16 + b / 16) / 16 == a
    ensures (a % 4 * 16 + b / 16) % 16 * 16 + (b % 16 * 4 + c / 64) / 4 == b
    ensures (b % 16 * 4 + c / 64) % 4 * 64 + c % 64 == c
  {
  }

  lemma SextetBytes(raw: seq<byte>, i: nat)
    requires i < |raw|
    ensures ByteAt(Sextets(raw, DataChars(|raw|)), i) == raw[i]
  {
    hide SextetAt, ByteAt, DataChars;
    var n := DataChars(|raw|);
    var vals := Sextets(raw, n);
    var g := i / 3;
    Reach(|raw|, i);
    SextetGroup(raw, g);
    Rejoin(ByteOr0(raw, 3 * g), ByteOr0(raw, 3 * g + 1), ByteOr0(raw, 3 * g + 2));
    assert forall c :: 0 <= c < n ==> ValueOr0(vals, c) == SextetAt(raw, c);
    if i % 3 == 0 {
      At0(vals, g);
    } else if i % 3 == 1 {
      At1(vals, g);
    } else {
      At2(vals, g);
    }
  }

  /** The characters that hold byte `i` are among the data characters. */
  lemma Reach(n: nat, i: nat)
    requires i < n
    ensures i / 3 * 4 + i % 3 + 1 < DataChars(n)
  {
  }

  /** Decoding an encoding returns the data, whatever lies beyond the table. */
  lemma DecodeEncode(raw: seq<byte>, beyond: string)
    ensures DecodedOver(Encoded(raw), beyond) == Some(raw)
  {
    hide Spread, Encoded, Decoded, ParseFrom, Plain;
    var e := Encoded(raw);
    DecodedEncoded(raw);
    BareDecode(e);
    BareParse(e, [], 0);
    PlainParse(e, beyond, []);
  }

  lemma DecodedEncoded(raw: seq<byte>)
    ensures Decoded(Encoded(raw)) == Some(raw)
  {
    hide ByteAt, SextetAt, Encoded, ParseFrom, DataChars, EncodedLen;
    var e, n := Encoded(raw), DataChars(|raw|);
    EncodedLength(raw);
    PadCount(|raw|);
    ParseEncoded(raw);
    forall i | 0 <= i < |raw| ensures ByteAt(Sextets(raw, n), i) == raw[i] { SextetBytes(raw, i); }
    assert Decoded(e).value == raw;
  }

  lemma ParseEncoded(raw: seq<byte>)
    requires DataChars(|raw|) <= |Encoded(raw)| <= DataChars(|raw|) + 2
    ensures ParseFrom(Encoded(raw), "", [], 0) == Parsed(Sextets(raw, DataChars(|raw|)), |Encoded(raw)| - DataChars(|raw|))
  {
    hide SextetAt, Encoded, ParseFrom, DataChars, EncodedLen;
    var e, n := Encoded(raw), DataChars(|raw|);
    ParseLetters(raw, n);
    forall i | 0 <= i < |e[n..]| ensures e[n..][i] == '=' { EncodedAt(raw, n + i); }
    ParsePads(e[n..], Sextets(raw, n), 0);
  }

  function Strip(s: string): string {
    if s == [] then [] else if IsSpace(s[0]) then Strip(s[1..]) else [s[0]] + Strip(s[1..])
  }

  lemma {:induction false} ParseStripped(s: string, beyond: string, vals: seq<nat>, pads: nat)
    ensures ParseFrom(s, beyond, vals, pads) == ParseFrom(Strip(s), beyond, vals, pads)
    decreases |s|
  {
    if s != [] {
      if IsSpace(s[0]) {
        ParseStripped(s[1..], beyond, vals, pads);
      } else if s[0] == '=' {
        ParseStripped(s[1..], beyond, vals, pads + 1);
      } else if Lookup(s[0], beyond).Some? {
        ParseStripped(s[1..], beyond, vals + [Lookup(s[0], beyond).value], pads);
      }
      assert Strip(s) != [] && !IsSpace(s[0]) ==> Strip(s)[1..] == Strip(s[1..]);
    }
  }

  /** White space never matters: strings that differ only in white space decode alike. */
  lemma SpaceIrrelevant(s: string, t: string, beyond: string)
    requires Strip(s) == Strip(t)
    ensures Decoded(s) == Decoded(t) && DecodedOver(s, beyond) == DecodedOver(t, beyond)
  {
    hide ParseFrom, Strip, ByteAt, Spread;
    ParseStripped(s, "", [], 0);
    ParseStripped(t, "", [], 0);
    ParseStripped(s, beyond, [], 0);
    ParseStripped(t, beyond, [], 0);
  }
}
