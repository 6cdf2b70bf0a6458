/** One-time codes: base32 decoding (RFC 4648), the time counter (RFC 6238) and truncation (RFC 4226). */
module Totp {
  import opened Numerals

  type Byte = b: int | 0 <= b < 256

  /** What HMAC-SHA-1 returns. */
  type Digest = d: seq<Byte> | |d| == 20 witness seq(20, _ => 0)

  /** HMAC-SHA-1 itself: some function of key and message. */
  type Mac = (seq<Byte>, seq<Byte>) -> Digest

  datatype Result<+T> = Ok(value: T) | BadSecret | BadTime

  // ----- base32 decoding as the code does it -----

  /** secret.replace(/=+$/, "") */
  function Stripped(s: string): string {
    if s != "" && s[|s|-1] == '=' then Stripped(s[..|s|-1]) else s
  }

  /**
   indexOf(character.toUpperCase()). Besides the letters of either case and the six digits, four characters have an
   upper-case form found in the alphabet: dotless i, long s, and the two ligatures whose form is "ST".
   */
  function SymbolValue(c: char): (v: int)
    ensures -1 <= v < 32
  {
    if 'A' <= c <= 'Z' then c as int - 'A' as int
    else if 'a' <= c <= 'z' then c as int - 'a' as int
    else if '2' <= c <= '7' then c as int - '2' as int + 26
    else if c == '\U{0131}' then 8
    else if c == '\U{017F}' || c == '\U{FB05}' || c == '\U{FB06}' then 18
    else -1
  }

  /** The alphabet of section 6 of RFC 4648, which is the constant of the code. */
  predicate InAlphabet(c: char) {
    'A' <= c <= 'Z' || '2' <= c <= '7'
  }

  function Symbol(v: nat): (c: char)
    requires v < 32
    ensures InAlphabet(c) && SymbolValue(c) == v
  {
    if v < 26 then ('A' as int + v) as char else ('2' as int + v - 26) as char
  }

  /** The constant string of the code, which is table 3 of RFC 4648. */
  lemma AlphabetPositions(v: nat)
    requires v < 32
    ensures "ABCDEFGHIJKLMNOPQRSTUVWXYZ234567"[v] == Symbol(v)
  {
  }

  predicate AllSymbols(s: string) {
    forall i :: 0 <= i < |s| ==> SymbolValue(s[i]) >= 0
  }

  /** Five binary digits for every character. */
  function BitString(s: string): (bits: seq<int>)
    requires AllSymbols(s)
    ensures |bits| == 5 * |s| && DigitsBelow(bits, 2)
  {
    if s == "" then [] else Fixed(SymbolValue(s[0]), 2, 5) + BitString(s[1..])
  }

  lemma EightBitsAreAByte(bits: seq<int>)
    requires DigitsBelow(bits, 2) && |bits| == 8
    ensures Value(bits, 2) < 256
  {
    ValueBelow(bits, 2);
    Powers();
  }

  /** The matches of /.{8}/g, each read as a binary number; what is left over is dropped. */
  function Bytes(bits: seq<int>): (bytes: seq<Byte>)
    requires DigitsBelow(bits, 2)
    ensures |bytes| == |bits| / 8
  {
    if |bits| < 8 then []
    else
      EightBitsAreAByte(bits[..8]);
      [Value(bits[..8], 2)] + Bytes(bits[8..])
  }

  function Decode(secret: string): Result<seq<Byte>> {
    var s := Stripped(secret);
    if AllSymbols(s) then Ok(Bytes(BitString(s))) else BadSecret
  }

  // ----- base32 encoding, section 6 of RFC 4648 -----

  /** The bytes as one bit string. */
  function ByteBits(bytes: seq<Byte>): (bits: seq<int>)
    ensures |bits| == 8 * |bytes| && DigitsBelow(bits, 2)
  {
    if bytes == [] then [] else Fixed(bytes[0], 2, 8) + ByteBits(bytes[1..])
  }

  function ZeroBits(n: nat): (bits: seq<int>)
    ensures |bits| == n && DigitsBelow(bits, 2) && forall i :: 0 <= i < n ==> bits[i] == 0
  {
    seq(n, _ => 0)
  }

  /** The letter of a five-bit group. */
  function Letter(group: seq<int>): (c: char)
    requires DigitsBelow(group, 2) && |group| == 5
    ensures InAlphabet(c)
  {
    ValueBelow(group, 2);
    Powers();
    Symbol(Value(group, 2))
  }

  /** A letter for each group of five bits; zeros fill up the last group. */
  function Letters(bits: seq<int>): string
    requires DigitsBelow(bits, 2)
  {
    if bits == [] then ""
    else if |bits| < 5 then [Letter(bits + ZeroBits(5 - |bits|))]
    else [Letter(bits[..5])] + Letters(bits[5..])
  }

  function Equals(n: nat): (s: string)
    ensures |s| == n && forall i :: 0 <= i < n ==> s[i] == '='
  {
    seq(n, _ => '=')
  }

  /** The letters, without the padding. */
  function EncodeBare(bytes: seq<Byte>): string {
    Letters(ByteBits(bytes))
  }

  /** The padding completes the last group of eight characters. */
  function Encode(bytes: seq<Byte>): string {
    EncodeBare(bytes) + Equals((8 - |EncodeBare(bytes)| % 8) % 8)
  }

  /** Each character of the one is that of the other, or its lower-case letter. */
  predicate SameLetters(a: string, b: string) {
    |a| == |b| &&
    forall i :: 0 <= i < |a| ==> a[i] == b[i] || ('A' <= b[i] <= 'Z' && a[i] as int == b[i] as int + 32)
  }

  // ----- the round trip -----

  lemma SymbolOfLetter(group: seq<int>, c: char)
    requires DigitsBelow(group, 2) && |group| == 5
    requires c == Letter(group) || ('A' <= Letter(group) <= 'Z' && c as int == Letter(group) as int + 32)
    ensures SymbolValue(c) >= 0 && Fixed(SymbolValue(c), 2, 5) == group
  {
    assert SymbolValue(c) == Value(group, 2);
    FixedOfValue(group, 2);
  }

  lemma BitStringOnce(c: char, rest: string)
    requires AllSymbols(rest) && SymbolValue(c) >= 0
    ensures AllSymbols([c] + rest) && BitString([c] + rest) == Fixed(SymbolValue(c), 2, 5) + BitString(rest)
  {
    assert ([c] + rest)[1..] == rest;
  }

  /** Zeros follow the bits, fewer than five of them. */
  predicate Followed(all: seq<int>, bits: seq<int>) {
    |bits| <= |all| < |bits| + 5 && all == bits + ZeroBits(|all| - |bits|)
  }

  lemma FollowedByMore(group: seq<int>, all: seq<int>, bits: seq<int>)
    requires Followed(all, bits)
    ensures Followed(group + all, group + bits)
  {
    assert group + (bits + ZeroBits(|all| - |bits|)) == group + bits + ZeroBits(|all| - |bits|);
  }

  /** Decoding the letters of some bits gives these bits and fewer than five zeros. */
  lemma {:induction false} BitsOfLetters(bits: seq<int>, text: string)
    requires DigitsBelow(bits, 2) && SameLetters(text, Letters(bits))
    ensures AllSymbols(text) && Followed(BitString(text), bits)
    decreases |bits|
  {
    if bits == [] {
    } else if |bits| < 5 {
      LastGroup(bits, text);
    } else {
      FirstGroup(bits, text);
      BitsOfLetters(bits[5..], text[1..]);
      BitStringOnce(text[0], text[1..]);
      FollowedByMore(bits[..5], BitString(text[1..]), bits[5..]);
      assert bits[..5] + bits[5..] == bits;
    }
  }

  lemma LastGroup(bits: seq<int>, text: string)
    requires DigitsBelow(bits, 2) && 0 < |bits| < 5 && SameLetters(text, Letters(bits))
    ensures AllSymbols(text) && Followed(BitString(text), bits)
  {
    SymbolOfLetter(bits + ZeroBits(5 - |bits|), text[0]);
    assert text == [text[0]] + "";
    BitStringOnce(text[0], "");
  }

  lemma FirstGroup(bits: seq<int>, text: string)
    requires DigitsBelow(bits, 2) && |bits| >= 5 && SameLetters(text, Letters(bits))
    ensures DigitsBelow(bits[5..], 2) && SameLetters(text[1..], Letters(bits[5..])) && text == [text[0]] + text[1..]
    ensures SymbolValue(text[0]) >= 0 && Fixed(SymbolValue(text[0]), 2, 5) == bits[..5]
  {
    assert Letters(bits)[1..] == Letters(bits[5..]);
    SymbolOfLetter(bits[..5], text[0]);
  }

  lemma BytesOnce(b: Byte, rest: seq<int>)
    requires DigitsBelow(rest, 2)
    ensures DigitsBelow(Fixed(b, 2, 8) + rest, 2) && Bytes(Fixed(b, 2, 8) + rest) == [b] + Bytes(rest)
  {
    var bits := Fixed(b, 2, 8) + rest;
    assert bits[..8] == Fixed(b, 2, 8) && bits[8..] == rest;
    Powers();
    ValueOfFixed(b, 2, 8);
  }

  lemma {:induction false} BytesOfByteBits(bytes: seq<Byte>, tail: seq<int>)
    requires DigitsBelow(tail, 2) && |tail| < 8
    ensures Bytes(ByteBits(bytes) + tail) == bytes
  {
    if bytes == [] {
      assert ByteBits(bytes) + tail == tail;
    } else {
      var rest := ByteBits(bytes[1..]) + tail;
      BytesOfByteBits(bytes[1..], tail);
      BytesOnce(bytes[0], rest);
      assert ByteBits(bytes) + tail == Fixed(bytes[0], 2, 8) + rest;
    }
  }

  lemma {:induction false} StripsPadding(text: string, n: nat)
    requires text != "" ==> text[|text|-1] != '='
    ensures Stripped(text + Equals(n)) == text
  {
    var s := text + Equals(n);
    if n > 0 {
      assert s[..|s|-1] == text + Equals(n - 1);
      StripsPadding(text, n - 1);
    } else {
      assert s == text;
    }
  }

  /** Every byte string comes back, from any casing of its encoding and any amount of padding, right or not. */
  lemma DecodeInvertsEncode(bytes: seq<Byte>, text: string, padding: nat)
    requires SameLetters(text, EncodeBare(bytes))
    ensures Decode(text + Equals(padding)) == Ok(bytes)
  {
    BitsOfLetters(ByteBits(bytes), text);
    assert text != "" ==> SymbolValue(text[|text|-1]) >= 0;
    StripsPadding(text, padding);
    BytesOfByteBits(bytes, ZeroBits(|BitString(text)| - 8 * |bytes|));
  }

  lemma PaddingCompletes(n: nat)
    ensures (n + (8 - n % 8) % 8) % 8 == 0
  {
  }

  lemma StandardRoundTrip(bytes: seq<Byte>)
    ensures Decode(Encode(bytes)) == Ok(bytes) && |Encode(bytes)| % 8 == 0
  {
    PaddingCompletes(|EncodeBare(bytes)|);
    DecodeInvertsEncode(bytes, EncodeBare(bytes), (8 - |EncodeBare(bytes)| % 8) % 8);
  }

  /** n symbols give floor(5n/8) bytes; any other character, an inner '=' included, is refused. */
  lemma DecodedLength(secret: string)
    ensures Decode(secret) == BadSecret <==>
            exists i :: 0 <= i < |Stripped(secret)| && SymbolValue(Stripped(secret)[i]) < 0
    ensures Decode(secret).Ok? ==> |Decode(secret).value| == 5 * |Stripped(secret)| / 8
  {
  }

  // ----- which texts decoding can tell apart -----

  predicate Canonical(s: string) {
    forall i :: 0 <= i < |s| ==> InAlphabet(s[i])
  }

  lemma LetterOfSymbol(c: char)
    requires InAlphabet(c)
    ensures SymbolValue(c) >= 0 && Letter(Fixed(SymbolValue(c), 2, 5)) == c
  {
    Powers();
    ValueOfFixed(SymbolValue(c), 2, 5);
  }

  lemma {:induction false} LettersOfBits(s: string, bits: seq<int>)
    requires Canonical(s) && DigitsBelow(bits, 2)
    requires AllSymbols(s) && Followed(BitString(s), bits)
    ensures Letters(bits) == s
  {
    if s != "" {
      LetterOfSymbol(s[0]);
      var group := Fixed(SymbolValue(s[0]), 2, 5);
      if |bits| < 5 {
        assert |s| == 1;
        assert BitString(s) == group;
      } else {
        assert bits[..5] == BitString(s)[..5] == group;
        assert BitString(s)[5..] == BitString(s[1..]);
        LettersOfBits(s[1..], bits[5..]);
      }
    }
  }

  lemma ByteBitsOnce(b: Byte, rest: seq<Byte>)
    ensures ByteBits([b] + rest) == Fixed(b, 2, 8) + ByteBits(rest)
  {
    assert ([b] + rest)[1..] == rest;
  }

  lemma TakeMore(first: seq<int>, rest: seq<int>, n: nat)
    requires n <= |rest|
    ensures (first + rest)[..n + |first|] == first + rest[..n]
  {
  }

  lemma WholeBytes(n: nat)
    ensures (n + 8) / 8 * 8 == n / 8 * 8 + 8
  {
  }

  lemma {:induction false} ByteBitsOfBytes(bits: seq<int>)
    requires DigitsBelow(bits, 2)
    ensures ByteBits(Bytes(bits)) == bits[..|bits| / 8 * 8]
    decreases |bits|
  {
    if |bits| >= 8 {
      var first, rest := bits[..8], bits[8..];
      EightBitsAreAByte(first);
      FixedOfValue(first, 2);
      ByteBitsOfBytes(rest);
      ByteBitsOnce(Value(first, 2), Bytes(rest));
      WholeBytes(|rest|);
      TakeMore(first, rest, |rest| / 8 * 8);
      assert first + rest == bits;
    }
  }

  /** The bits that do not fill a byte are lost. */
  function Dropped(s: string): seq<int>
    requires AllSymbols(s)
  {
    BitString(s)[|BitString(s)| / 8 * 8..]
  }

  lemma BareOfDecoded(s: string)
    requires AllSymbols(s)
    ensures var bits := BitString(s);
            Decode(s) == Ok(Bytes(bits)) && EncodeBare(Bytes(bits)) == Letters(bits[..|bits| / 8 * 8])
  {
    assert s != "" ==> SymbolValue(s[|s|-1]) >= 0;
    assert Stripped(s) == s;
    ByteBitsOfBytes(BitString(s));
  }

  lemma LettersMatchIff(s: string, kept: seq<int>, dropped: seq<int>)
    requires Canonical(s) && AllSymbols(s) && DigitsBelow(kept, 2) && BitString(s) == kept + dropped
    ensures Letters(kept) == s <==> |dropped| < 5 && dropped == ZeroBits(|dropped|)
  {
    if Letters(kept) == s {
      BitsOfLetters(kept, s);
      assert dropped == BitString(s)[|kept|..];
    } else if |dropped| < 5 && dropped == ZeroBits(|dropped|) {
      LettersOfBits(s, kept);
    }
  }

  /**
   The decoder accepts more than encodings: re-encoding gives the upper-case text back exactly when fewer than five
   bits were dropped and all of them are zero.
   */
  lemma ReencodesIff(s: string)
    requires Canonical(s) && AllSymbols(s)
    ensures Decode(s).Ok?
    ensures EncodeBare(Decode(s).value) == s <==> |Dropped(s)| < 5 && Dropped(s) == ZeroBits(|Dropped(s)|)
  {
    var bits := BitString(s);
    var kept := bits[..|bits| / 8 * 8];
    BareOfDecoded(s);
    LettersMatchIff(s, kept, Dropped(s));
  }

  // ----- what is accepted and what it decodes to -----

  /** Only the padding at the end goes. */
  lemma {:induction false} StrippedIs(s: string)
    ensures |Stripped(s)| <= |s| && s == Stripped(s) + Equals(|s| - |Stripped(s)|)
    ensures Stripped(s) != "" ==> Stripped(s)[|Stripped(s)|-1] != '='
  {
    if s != "" && s[|s|-1] == '=' {
      StrippedIs(s[..|s|-1]);
    }
  }

  /** The characters with a value: the alphabet, its lower-case letters with the same values, and four others. */
  lemma SymbolsAre(c: char)
    ensures SymbolValue(c) >= 0 <==>
            || 'A' <= c <= 'Z' || 'a' <= c <= 'z' || '2' <= c <= '7'
            || c == '\U{0131}' || c == '\U{017F}' || c == '\U{FB05}' || c == '\U{FB06}'
    ensures 'a' <= c <= 'z' ==> SymbolValue(c) == SymbolValue((c as int - 'a' as int + 'A' as int) as char)
    ensures SymbolValue('\U{0131}') == SymbolValue('I')
    ensures SymbolValue('\U{017F}') == SymbolValue('\U{FB05}') == SymbolValue('\U{FB06}') == SymbolValue('S')
  {
  }

  lemma {:induction false} BitStringAt(s: string, k: nat)
    requires AllSymbols(s) && k < 5 * |s|
    ensures BitString(s)[k] == Fixed(SymbolValue(s[k/5]), 2, 5)[k%5]
  {
    if k >= 5 {
      BitStringAt(s[1..], k - 5);
      assert s[k/5] == s[1..][(k-5)/5] && (k - 5) % 5 == k % 5;
    }
  }

  lemma {:induction false} ByteBitsAt(bytes: seq<Byte>, k: nat)
    requires k < 8 * |bytes|
    ensures ByteBits(bytes)[k] == Fixed(bytes[k/8], 2, 8)[k%8]
  {
    if k >= 8 {
      ByteBitsAt(bytes[1..], k - 8);
      assert bytes[k/8] == bytes[1..][(k-8)/8] && (k - 8) % 8 == k % 8;
    }
  }

  /**
   Of every accepted text, an encoding or not: bit k of the bytes is bit k of the five-bit groups of its characters,
   up to the last whole byte.
   */
  lemma DecodedBits(secret: string, k: nat)
    requires Decode(secret).Ok? && k < 8 * |Decode(secret).value|
    ensures var s, bytes := Stripped(secret), Decode(secret).value;
            && k / 5 < |s| && SymbolValue(s[k/5]) >= 0
            && Fixed(bytes[k/8], 2, 8)[k%8] == Fixed(SymbolValue(s[k/5]), 2, 5)[k%5]
  {
    var s, bytes := Stripped(secret), Decode(secret).value;
    ByteBitsOfBytes(BitString(s));
    ByteBitsAt(bytes, k);
    BitStringAt(s, k);
  }

  lemma {:induction false} StripsAlike(a: string, b: string)
    requires SameLetters(a, b)
    ensures SameLetters(Stripped(a), Stripped(b))
  {
    if a != "" && a[|a|-1] == '=' {
      StripsAlike(a[..|a|-1], b[..|b|-1]);
    }
  }

  lemma {:induction false} SameBits(a: string, b: string)
    requires SameLetters(a, b)
    ensures AllSymbols(a) <==> AllSymbols(b)
    ensures AllSymbols(a) ==> BitString(a) == BitString(b)
  {
    forall i | 0 <= i < |a| ensures SymbolValue(a[i]) == SymbolValue(b[i]) {
    }
    if a != "" && AllSymbols(a) {
      SameBits(a[1..], b[1..]);
    }
  }

  /** Lower-case letters decode as the capital ones, in every text, accepted or not. */
  lemma DecodeIgnoresCase(a: string, b: string)
    requires |a| == |b|
    requires forall i :: 0 <= i < |a| ==> a[i] == b[i] || ('A' <= b[i] <= 'Z' && a[i] as int == b[i] as int + 32)
    ensures Decode(a) == Decode(b)
  {
    StripsAlike(a, b);
    SameBits(Stripped(a), Stripped(b));
  }

  // ----- the counter -----

  /** floor(now / 30000), in milliseconds; the division of the code is exact enough for every representable date. */
  function Window(now: int): int {
    now / 30_000
  }

  /** The counter as eight bytes, most significant first. */
  function CounterBytes(counter: nat): seq<Byte> {
    Fixed(counter, 256, 8)
  }

  const COUNTER_LIMIT: nat := 0x1_0000_0000_0000_0000

  /** writeBigUInt64BE into the zeroed buffer: refuses what does not fit, else fills all eight bytes. */
  method WriteBigUInt64BE(buffer: array<Byte>, counter: int) returns (ok: bool)
    requires buffer.Length == 8
    modifies buffer
    ensures ok <==> 0 <= counter < COUNTER_LIMIT
    ensures ok ==> buffer[..] == CounterBytes(counter) && Value(buffer[..], 256) == counter
    ensures !ok ==> buffer[..] == old(buffer[..])
  {
    if counter < 0 || counter >= COUNTER_LIMIT { return false; }
    var rest: nat, i := counter, 8;
    while i > 0
      invariant 0 <= i <= 8
      invariant CounterBytes(counter) == Fixed(rest, 256, i) + buffer[i..]
    {
      ghost var tail := buffer[i..];
      i := i - 1;
      buffer[i] := rest % 256;
      assert buffer[i+1..] == tail;
      assert buffer[i..] == [rest % 256] + tail;
      assert Fixed(rest, 256, i + 1) == Fixed(rest / 256, 256, i) + [rest % 256];
      rest := rest / 256;
    }
    Powers();
    ValueOfFixed(counter, 256, 8);
    ok := true;
  }

  lemma CounterIsInjective(a: nat, b: nat)
    requires a < COUNTER_LIMIT && b < COUNTER_LIMIT
    ensures CounterBytes(a) == CounterBytes(b) <==> a == b
  {
    Powers();
    ValueOfFixed(a, 256, 8);
    ValueOfFixed(b, 256, 8);
  }

  predicate InWindow(t: int, w: int) {
    Starts(w) <= t < Starts(w + 1)
  }

  lemma WindowIsUnique(t: int, w: int)
    ensures InWindow(t, w) <==> w == Window(t)
    ensures InWindow(t, w) <==> 30_000 * w <= t < 30_000 * w + 30_000
  {
  }

  /** The message names the 30-second window of section 4.2 of RFC 6238, and only it. */
  lemma MessageNamesWindow(t: int, u: int)
    requires 0 <= Window(t) < COUNTER_LIMIT && 0 <= Window(u) < COUNTER_LIMIT
    ensures CounterBytes(Window(t)) == CounterBytes(Window(u)) <==> exists w: int :: InWindow(t, w) && InWindow(u, w)
  {
    CounterIsInjective(Window(t), Window(u));
    WindowIsUnique(t, Window(t));
    WindowIsUnique(u, Window(u));
    forall w: int | InWindow(t, w) && InWindow(u, w) ensures Window(t) == Window(u) {
      WindowIsUnique(t, w);
      WindowIsUnique(u, w);
    }
  }

  /** The first millisecond of a window. */
  function Starts(w: int): int {
    30_000 * w
  }

  // ----- truncation -----

  function ReadUInt32BE(digest: Digest, offset: nat): (v: nat)
    requires offset + 3 < 20
    ensures v < 0x1_0000_0000
  {
    var a: int, b: int, c: int := digest[offset], digest[offset + 1], digest[offset + 2];
    a * 0x100_0000 + b * 0x1_0000 + c * 0x100 + digest[offset + 3]
  }

  /** The six-digit text; `& 0x0f` and `& 0x7fffffff` keep the low four and the low 31 bits. */
  function Code(digest: Digest): string {
    var offset := digest[19] % 0x10;
    var binary := ReadUInt32BE(digest, offset) % 0x8000_0000;
    Padded(binary % 1_000_000, 6)
  }

  /** Section 5.3 of RFC 4226: the four selected bytes, the top bit of the first masked, as a number. */
  function DynamicTruncation(digest: Digest): nat {
    var offset := Value(Fixed(digest[19], 2, 8)[4..], 2);
    LowNibble(digest[19]);
    Value([digest[offset] % 0x80] + digest[offset + 1..offset + 4], 256)
  }

  lemma Nibble(b: int)
    requires 0 <= b < 256
    ensures ((b / 2 / 2 / 2 % 2 * 2 + b / 2 / 2 % 2) * 2 + b / 2 % 2) * 2 + b % 2 == b % 16
  {
  }

  lemma LowNibble(b: Byte)
    ensures Value(Fixed(b, 2, 8)[4..], 2) == b % 16
  {
    var b1: nat, b2: nat, b3: nat, b4: nat := b / 2, b / 2 / 2, b / 2 / 2 / 2, b / 2 / 2 / 2 / 2;
    var d0, d1, d2, d3 := b % 2, b1 % 2, b2 % 2, b3 % 2;
    assert Fixed(b, 2, 8) == Fixed(b1, 2, 7) + [d0];
    assert Fixed(b1, 2, 7) == Fixed(b2, 2, 6) + [d1];
    assert Fixed(b2, 2, 6) == Fixed(b3, 2, 5) + [d2];
    assert Fixed(b3, 2, 5) == Fixed(b4, 2, 4) + [d3];
    assert Fixed(b, 2, 8)[4..] == [d3, d2, d1, d0];
    ValueOfFour(d3, d2, d1, d0, 2);
    Nibble(b);
  }

  lemma ValueOfFour(a: int, b: int, c: int, d: int, base: nat)
    requires 0 <= a < base && 0 <= b < base && 0 <= c < base && 0 <= d < base
    ensures Value([a, b, c, d], base) == ((a * base + b) * base + c) * base + d
  {
    AppendTo([], a, [a], 0, base);
    AppendTo([a], b, [a, b], a, base);
    AppendTo([a, b], c, [a, b, c], a * base + b, base);
    AppendTo([a, b, c], d, [a, b, c, d], (a * base + b) * base + c, base);
  }

  lemma AppendTo(init: seq<int>, last: int, all: seq<int>, v: int, base: nat)
    requires DigitsBelow(init, base) && 0 <= last < base && all == init + [last] && Value(init, base) == v
    ensures DigitsBelow(all, base) && Value(all, base) == v * base + last
  {
    Append(init, last, base);
  }

  /** Masking the number is masking its first byte. */
  lemma MaskTopBit(digest: Digest)
    ensures ReadUInt32BE(digest, digest[19] % 16) % 0x8000_0000 == DynamicTruncation(digest)
  {
    LowNibble(digest[19]);
    var o := digest[19] % 16;
    var a: int, b: int, c: int, d: int := digest[o], digest[o + 1], digest[o + 2], digest[o + 3];
    assert [a % 0x80] + digest[o + 1..o + 4] == [a % 0x80, b, c, d];
    ValueOfFour(a % 0x80, b, c, d, 256);
    Mask(a, b * 0x1_0000 + c * 0x100 + d);
  }

  lemma Mask(a: nat, r: nat)
    requires a < 256 && r < 0x100_0000
    ensures (a * 0x100_0000 + r) % 0x8000_0000 == a % 0x80 * 0x100_0000 + r
  {
  }

  /** The code is the six-digit form of the truncated value modulo a million. */
  lemma CodeIsHotp(digest: Digest)
    ensures var code := Code(digest);
            && |code| == 6 && AllDigits(code)
            && Number(code) == DynamicTruncation(digest) % 1_000_000
            && DynamicTruncation(digest) < 0x8000_0000
  {
    MaskTopBit(digest);
    Powers();
    NumberOfPadded(DynamicTruncation(digest) % 1_000_000, 6);
  }

  /** Four bytes from the offset named by the low four bits of the last one, without the top bit. */
  lemma TruncationIs(digest: Digest)
    ensures var o := digest[19] % 16;
            var a: int, b: int, c: int, d: int := digest[o], digest[o + 1], digest[o + 2], digest[o + 3];
            DynamicTruncation(digest) == a % 128 * 0x100_0000 + b * 0x1_0000 + c * 0x100 + d
  {
    LowNibble(digest[19]);
    var o := digest[19] % 16;
    var a: int, b: int, c: int, d: int := digest[o], digest[o + 1], digest[o + 2], digest[o + 3];
    assert [a % 0x80] + digest[o + 1..o + 4] == [a % 0x80, b, c, d];
    ValueOfFour(a % 0x80, b, c, d, 256);
  }

  // ----- the whole -----

  function GenerateTotp(hmac: Mac, secret: string, now: int): Result<string> {
    var key := Decode(secret);
    if !key.Ok? then BadSecret
    else if Window(now) < 0 || Window(now) >= COUNTER_LIMIT then BadTime
    else Ok(Code(hmac(key.value, CounterBytes(Window(now)))))
  }

  /**
   For every key, in every casing and padding of its base32 form, and every time from the epoch on, the result is the
   RFC 6238 code of that key for the 30-second window of that time: six digits, the truncated HMAC modulo a million.
   */
  lemma TotpOfEncodedKey(hmac: Mac, key: seq<Byte>, text: string, padding: nat, now: int)
    requires SameLetters(text, EncodeBare(key))
    requires 0 <= now < COUNTER_LIMIT * 30_000
    ensures var r := GenerateTotp(hmac, text + Equals(padding), now);
            && r.Ok? && |r.value| == 6 && AllDigits(r.value)
            && exists message: seq<Byte> :: |message| == 8
                 && 30_000 * Value(message, 256) <= now < 30_000 * (Value(message, 256) + 1)
                 && Number(r.value) == DynamicTruncation(hmac(key, message)) % 1_000_000
  {
    DecodeInvertsEncode(key, text, padding);
    Powers();
    var message := CounterBytes(Window(now));
    ValueOfFixed(Window(now), 256, 8);
    WindowIsUnique(now, Window(now));
    CodeIsHotp(hmac(key, message));
  }

  /** When generation fails: a character outside the alphabet, looked at first, or a window number beyond 64 bits. */
  lemma WhenGenerationFails(hmac: Mac, secret: string, now: int)
    ensures GenerateTotp(hmac, secret, now) == BadSecret <==> !AllSymbols(Stripped(secret))
    ensures GenerateTotp(hmac, secret, now) == BadTime <==>
            AllSymbols(Stripped(secret)) && !(0 <= now < 0x1_0000_0000_0000_0000 * 30_000)
  {
  }
}
