/** The hexadecimal and blob-key conversions of src/security.c, which work inside one buffer. */
module HexCodec {
  type byte = x: int | 0 <= x < 256

  const DIGIT_0: byte := 48
  const UPPER_A: byte := 65
  const LOWER_A: byte := 97
  const LOWER_X: byte := 120
  const QUOTE: byte := 39

  const HEXKEY_LEN: nat := 64
  const BLOBKEY_LEN: nat := 67
  const KEYSALT_LEN: nat := 32

  predicate IsUpper(c: byte) {
    UPPER_A <= c < UPPER_A + 26
  }

  predicate IsLower(c: byte) {
    LOWER_A <= c < LOWER_A + 26
  }

  predicate IsHexDigit(c: byte) {
    UPPER_A <= c < UPPER_A + 6 || LOWER_A <= c < LOWER_A + 6 || DIGIT_0 <= c < DIGIT_0 + 10
  }

  ghost predicate IsHex(s: seq<byte>) {
    forall i :: 0 <= i < |s| ==> IsHexDigit(s[i])
  }

  // hexchar2decint and decint2hexchar; the first one takes any character, and the result may be no digit at all
  function HexToInt(c: byte): int {
    if IsUpper(c) then c - UPPER_A + 10 else if IsLower(c) then c - LOWER_A + 10 else c - DIGIT_0
  }

  function IntToHex(n: nat): byte
    requires n < 16
  {
    if n < 10 then n + DIGIT_0 else n - 10 + UPPER_A
  }

  // The digits of RFC 4648 section 8 are the upper-case ones; both cases have the same value
  function ToUpper(c: byte): byte {
    if IsLower(c) then c - LOWER_A + UPPER_A else c
  }

  lemma DigitValues(c: byte, n: nat)
    requires n < 16
    ensures IsHexDigit(c) ==> 0 <= HexToInt(c) < 16 && IntToHex(HexToInt(c)) == ToUpper(c)
    ensures IsHexDigit(IntToHex(n)) && HexToInt(IntToHex(n)) == n
  {
  }

  /* ---------- the two codes ---------- */

  function Encode(bin: seq<byte>): (hex: seq<byte>)
    ensures |hex| == 2 * |bin|
  {
    seq(2 * |bin|, k requires 0 <= k < 2 * |bin| =>
      if k % 2 == 0 then IntToHex(bin[k / 2] / 16) else IntToHex(bin[k / 2] % 16))
  }

  function Decode(hex: seq<byte>): (bin: seq<byte>)
    ensures |bin| == |hex| / 2
  {
    seq(|hex| / 2, i requires 0 <= i < |hex| / 2 => ByteOf(hex[2 * i], hex[2 * i + 1]))
  }

  // The low byte of (hi << 4) | lo
  function ByteOf(hi: byte, lo: byte): byte {
    16 * OrNibble(HexToInt(hi) % 16, HexToInt(lo) / 16 % 16) + HexToInt(lo) % 16
  }

  function OrNibble(x: nat, y: nat): (r: nat)
    requires x < 16 && y < 16
    ensures r < 16 && (y == 0 ==> r == x)
  {
    8 * OrBit(x / 8, y / 8) + 4 * OrBit(x / 4 % 2, y / 4 % 2) + 2 * OrBit(x / 2 % 2, y / 2 % 2) + OrBit(x % 2, y % 2)
  }

  function OrBit(x: nat, y: nat): (r: nat)
    requires x < 2 && y < 2
    ensures r < 2 && (r == 1 <==> x == 1 || y == 1)
  {
    if x == 1 then 1 else y
  }

  lemma ByteOfDigits(hi: byte, lo: byte)
    requires IsHexDigit(hi) && IsHexDigit(lo)
    ensures ByteOf(hi, lo) == 16 * HexToInt(hi) + HexToInt(lo)
  {
    hide OrNibble;
    DigitValues(hi, 0);
    DigitValues(lo, 0);
  }

  function Upper(s: seq<byte>): (r: seq<byte>)
    ensures |r| == |s|
  {
    seq(|s|, i requires 0 <= i < |s| => ToUpper(s[i]))
  }

  lemma EncodeIsHex(bin: seq<byte>)
    ensures IsHex(Encode(bin))
  {
    forall k | 0 <= k < 2 * |bin|
      ensures IsHexDigit(Encode(bin)[k])
    {
      DigitValues(0, bin[k / 2] / 16);
      DigitValues(0, bin[k / 2] % 16);
    }
  }

  lemma DecodeUndoesEncode(bin: seq<byte>)
    ensures IsHex(Encode(bin)) && Decode(Encode(bin)) == bin
  {
    hide ByteOf, HexToInt, IntToHex;
    EncodeIsHex(bin);
    forall i | 0 <= i < |bin|
      ensures Decode(Encode(bin))[i] == bin[i]
    {
      var hex := Encode(bin);
      assert hex[2 * i] == IntToHex(bin[i] / 16) && hex[2 * i + 1] == IntToHex(bin[i] % 16);
      DigitValues(0, bin[i] / 16);
      DigitValues(0, bin[i] % 16);
      ByteOfDigits(hex[2 * i], hex[2 * i + 1]);
    }
  }

  lemma EncodeAfterDecode(hex: seq<byte>)
    requires IsHex(hex) && |hex| % 2 == 0
    ensures Encode(Decode(hex)) == Upper(hex)
  {
    hide ByteOf, IntToHex, HexToInt, ToUpper;
    var bin := Decode(hex);
    forall k | 0 <= k < |hex|
      ensures Encode(bin)[k] == Upper(hex)[k]
    {
      var i := k / 2;
      assert bin[i] == ByteOf(hex[2 * i], hex[2 * i + 1]);
      DigitsOfByte(hex[2 * i], hex[2 * i + 1]);
      assert k == 2 * i || k == 2 * i + 1;
    }
  }

  lemma DigitsOfByte(hi: byte, lo: byte)
    requires IsHexDigit(hi) && IsHexDigit(lo)
    ensures IntToHex(ByteOf(hi, lo) / 16) == ToUpper(hi) && IntToHex(ByteOf(hi, lo) % 16) == ToUpper(lo)
  {
    hide ByteOf, ToUpper, IntToHex, HexToInt, IsHexDigit;
    ByteOfDigits(hi, lo);
    DigitValues(hi, 0);
    DigitValues(lo, 0);
  }

  /* ---------- in place ---------- */

  // The buffer begins at hex0 inside buf; the result overwrites it from the front
  method Hex2Bin(buf: array<byte>, hex0: nat, hexLen: nat) returns (binLen: nat)
    requires hex0 + hexLen <= buf.Length
    modifies buf
    ensures binLen == hexLen / 2
    ensures buf[hex0..hex0 + binLen] == Decode(old(buf[hex0..hex0 + hexLen]))
    ensures buf[..hex0] == old(buf[..hex0]) && buf[hex0 + binLen..] == old(buf[hex0 + binLen..])
  {
    hide ByteOf;
    ghost var hex := buf[hex0..hex0 + hexLen];
    binLen := hexLen / 2;
    var bin := 0;
    while bin < binLen
      invariant bin <= binLen
      invariant forall i :: 0 <= i < bin ==> buf[hex0 + i] == Decode(hex)[i]
      invariant forall k :: 0 <= k < hex0 || hex0 + bin <= k < buf.Length ==> buf[k] == old(buf[k])
    {
      assert buf[hex0 + 2 * bin] == hex[2 * bin] && buf[hex0 + 2 * bin + 1] == hex[2 * bin + 1];
      buf[hex0 + bin] := ByteOf(buf[hex0 + 2 * bin], buf[hex0 + 2 * bin + 1]);
      bin := bin + 1;
    }
  }

  // The digits are written from the back, the lower one first: no byte is overwritten before it has been read
  method Bin2Hex(bin0: array<byte>, binLen: nat) returns (hex: array<byte>)
    requires binLen <= bin0.Length
    ensures fresh(hex) && hex.Length == 2 * binLen + 1
    ensures hex[..2 * binLen] == Encode(bin0[..binLen]) && hex[2 * binLen] == 0
  {
    ghost var bin := bin0[..binLen];
    hex := new byte[2 * binLen + 1];
    forall k | 0 <= k < binLen {
      hex[k] := bin0[k];
    }
    var i := binLen;
    while i > 0
      invariant i <= binLen
      invariant forall k :: 0 <= k < i ==> hex[k] == bin[k]
      invariant forall k :: 2 * i <= k < 2 * binLen ==> hex[k] == Encode(bin)[k]
    {
      i := i - 1;
      hex[2 * i + 1] := IntToHex(hex[i] % 16);
      hex[2 * i] := IntToHex(hex[i] / 16);
    }
    hex[2 * binLen] := 0;
  }

  /* ---------- blob keys ---------- */

  function Blob(hex: seq<byte>): seq<byte> {
    [LOWER_X, QUOTE] + hex + [QUOTE]
  }

  method Bin2Blob(bin: array<byte>, binLen: nat) returns (blob: array<byte>, blobLen: nat)
    requires binLen <= bin.Length
    ensures fresh(blob) && blobLen == 2 * binLen + 3 && blob.Length == blobLen + 1
    ensures blob[..blobLen] == Blob(Encode(bin[..binLen])) && blob[blobLen] == 0
  {
    var hex := Bin2Hex(bin, binLen);
    var hexLen := 2 * binLen;
    blobLen := hexLen + 3;
    blob := new byte[blobLen + 1];
    blob[0] := LOWER_X;
    blob[1] := QUOTE;
    forall k | 0 <= k < hexLen {
      blob[2 + k] := hex[k];
    }
    blob[blobLen - 1] := QUOTE;
    blob[blobLen] := 0;
    assert forall k :: 0 <= k < hexLen ==> blob[2 + k] == hex[..hexLen][k];
    assert blob[..blobLen] == Blob(hex[..hexLen]);
  }

  method Blob2Bin(blob: array<byte>, blobLen: nat) returns (binLen: nat)
    requires 3 <= blobLen <= blob.Length
    modifies blob
    ensures binLen == (blobLen - 3) / 2
    ensures blob[..binLen] == Decode(old(blob[2..blobLen - 1]))
  {
    binLen := Hex2Bin(blob, 2, blobLen - 3);
    ghost var bin := blob[2..2 + binLen];
    forall k | 0 <= k < binLen {
      blob[k] := blob[2 + k];
    }
    assert blob[..binLen] == bin;
  }

  // A key as the source accepts it: x'...' around 64 hexadecimal digits and, maybe, 32 binary ones
  ghost predicate BlobKey(key: seq<byte>) {
    && (|key| == BLOBKEY_LEN || |key| == BLOBKEY_LEN + KEYSALT_LEN)
    && key[0] == LOWER_X && key[1] == QUOTE && key[|key| - 1] == QUOTE
    && IsHex(key[2..2 + HEXKEY_LEN])
    && forall i :: 2 + HEXKEY_LEN <= i < |key| - 1 ==> key[i] == DIGIT_0 || key[i] == DIGIT_0 + 1
  }

  method IsHexStr(str: seq<byte>, from: nat, len0: nat) returns (r: bool)
    requires from + len0 <= |str|
    ensures r <==> IsHex(str[from..from + len0])
  {
    var at, len := from, len0;
    while len > 0
      invariant 0 <= len <= len0 && at == from + len0 - len
      invariant forall i :: from <= i < at ==> IsHexDigit(str[i])
    {
      if !IsHexDigit(str[at]) {
        assert str[from..from + len0][at - from] == str[at];
        return false;
      }
      at, len := at + 1, len - 1;
    }
    return true;
  }

  method IsSaltStr(str: seq<byte>, from: nat, len0: nat) returns (r: bool)
    requires from + len0 <= |str|
    ensures r <==> forall i :: from <= i < from + len0 ==> str[i] == DIGIT_0 || str[i] == DIGIT_0 + 1
  {
    var at, len := from, len0;
    while len > 0
      invariant 0 <= len <= len0 && at == from + len0 - len
      invariant forall i :: from <= i < at ==> str[i] == DIGIT_0 || str[i] == DIGIT_0 + 1
    {
      if str[at] != DIGIT_0 && str[at] != DIGIT_0 + 1 {
        return false;
      }
      at, len := at + 1, len - 1;
    }
    return true;
  }

  method IsBlobKey(key: seq<byte>) returns (r: bool)
    ensures r <==> BlobKey(key)
  {
    var len := |key|;
    if len != BLOBKEY_LEN && len != BLOBKEY_LEN + KEYSALT_LEN {
      return false;
    }
    if key[0] != LOWER_X || key[1] != QUOTE || key[len - 1] != QUOTE {
      return false;
    }
    var hex := IsHexStr(key, 2, HEXKEY_LEN);
    if !hex {
      return false;
    }
    if len == BLOBKEY_LEN + KEYSALT_LEN {
      var salt := IsSaltStr(key, 2 + HEXKEY_LEN, KEYSALT_LEN);
      if !salt {
        return false;
      }
    }
    return true;
  }

  // Every accepted key, salted or not, is all digits between the quotes
  lemma KeyDigits(key: seq<byte>)
    requires BlobKey(key)
    ensures |key| >= BLOBKEY_LEN && IsHex(key[2..|key| - 1]) && |key[2..|key| - 1]| % 2 == 0
  {
    var digits := key[2..|key| - 1];
    forall i | 0 <= i < |digits|
      ensures IsHexDigit(digits[i])
    {
      if i < HEXKEY_LEN {
        assert key[2..2 + HEXKEY_LEN][i] == digits[i];
      }
    }
  }

  // A key on its way through the cipher file: checked and converted by pk init, converted back by pk create
  method KeyThereAndBack(keybuf: array<byte>, keylen: nat)
      returns (accepted: bool, blob: array<byte>, blobLen: nat, again: bool)
    requires keylen <= keybuf.Length
    modifies keybuf
    ensures accepted <==> BlobKey(old(keybuf[..])[..keylen])
    ensures accepted ==>
      && again && blobLen == keylen <= blob.Length
      && blob[..blobLen] == Blob(Upper(old(keybuf[..])[2..keylen - 1]))
    ensures !accepted ==> keybuf[..] == old(keybuf[..]) && blob == keybuf && blobLen == keylen && !again
  {
    ghost var key := keybuf[..keylen];
    accepted := IsBlobKey(keybuf[..keylen]);
    if !accepted {
      return accepted, keybuf, keylen, false;
    }
    BlobKeyRoundTrip(key);
    assert keybuf[2..keylen - 1] == key[2..keylen - 1] == keybuf[..][2..keylen - 1];
    EncodeAfterDecode(key[2..keylen - 1]);
    var binLen := Blob2Bin(keybuf, keylen);
    blob, blobLen := Bin2Blob(keybuf, binLen);
    again := IsBlobKey(blob[..blobLen]);
  }

  // blob2bin and then bin2blob: the same key with upper-case digits, which is accepted again and then stays as it is
  lemma BlobKeyRoundTrip(key: seq<byte>)
    requires BlobKey(key)
    ensures IsHex(key[2..|key| - 1])
    ensures var key' := Blob(Encode(Decode(key[2..|key| - 1])));
      && key' == key[..2] + Upper(key[2..|key| - 1]) + key[|key| - 1..]
      && BlobKey(key')
      && Blob(Encode(Decode(key'[2..|key'| - 1]))) == key'
  {
    hide BlobKey, Encode, Decode, Upper;
    KeyDigits(key);
    var digits := key[2..|key| - 1];
    EncodeAfterDecode(digits);
    var key' := Blob(Upper(digits));
    assert key'[2..|key'| - 1] == Upper(digits);
    UpperKey(key);
    UpperTwice(digits);
    EncodeAfterDecode(Upper(digits));
  }

  lemma UpperKey(key: seq<byte>)
    requires BlobKey(key)
    ensures var digits := key[2..|key| - 1];
      && Blob(Upper(digits)) == key[..2] + Upper(digits) + key[|key| - 1..]
      && BlobKey(Blob(Upper(digits))) && IsHex(Upper(digits))
  {
    var digits := key[2..|key| - 1];
    var key' := Blob(Upper(digits));
    assert key[..2] == [LOWER_X, QUOTE] && key[|key| - 1..] == [QUOTE];
    KeyDigits(key);
    UpperIsHex(digits);
    assert key'[2..2 + HEXKEY_LEN] == Upper(digits)[..HEXKEY_LEN];
    forall i | 2 + HEXKEY_LEN <= i < |key'| - 1
      ensures key'[i] == DIGIT_0 || key'[i] == DIGIT_0 + 1
    {
      assert key'[i] == ToUpper(digits[i - 2]) && digits[i - 2] == key[i];
    }
  }

  lemma UpperIsHex(s: seq<byte>)
    requires IsHex(s)
    ensures IsHex(Upper(s))
  {
  }

  lemma UpperTwice(s: seq<byte>)
    ensures Upper(Upper(s)) == Upper(s)
  {
  }

  /* ---------- what the digits denote ---------- */

  // The bytes of a string of ASCII characters
  function Bytes(s: string): (b: seq<byte>)
    requires forall i :: 0 <= i < |s| ==> (s[i] as int) < 256
    ensures |b| == |s| && forall i :: 0 <= i < |s| ==> b[i] == s[i] as int
  {
    seq(|s|, i requires 0 <= i < |s| => s[i] as int)
  }

  // The number that a sequence of digits denotes, the first digit being the highest
  function Number(base: nat, digits: seq<nat>): nat {
    if digits == [] then 0 else base * Number(base, digits[..|digits| - 1]) + digits[|digits| - 1]
  }

  // c is the n-th digit, in either case
  predicate IsDigitOf(c: byte, n: nat) {
    n < 16 && (c == "0123456789ABCDEF"[n] as int || c == "0123456789abcdef"[n] as int)
  }

  ghost predicate IsDigit(c: byte) {
    exists n: nat :: IsDigitOf(c, n)
  }

  lemma DigitPlaces(n: nat)
    requires n < 16
    ensures "0123456789ABCDEF"[n] as int == if n < 10 then 48 + n else 55 + n
    ensures "0123456789abcdef"[n] as int == if n < 10 then 48 + n else 87 + n
  {
    var u, l := "0123456789ABCDEF", "0123456789abcdef";
    assert u[0] == '0' && u[1] == '1' && u[2] == '2' && u[3] == '3' && u[4] == '4' && u[5] == '5' && u[6] == '6';
    assert u[7] == '7' && u[8] == '8' && u[9] == '9' && u[10] == 'A' && u[11] == 'B' && u[12] == 'C' && u[13] == 'D';
    assert u[14] == 'E' && u[15] == 'F' && l[0] == '0' && l[1] == '1' && l[2] == '2' && l[3] == '3' && l[4] == '4';
    assert l[5] == '5' && l[6] == '6' && l[7] == '7' && l[8] == '8' && l[9] == '9' && l[10] == 'a' && l[11] == 'b';
    assert l[12] == 'c' && l[13] == 'd' && l[14] == 'e' && l[15] == 'f';
  }

  // Exactly the characters of the two rows of digits are digits, each worth its place
  lemma DigitsMean(c: byte)
    ensures IsHexDigit(c) <==> IsDigit(c)
    ensures IsHexDigit(c) ==> 0 <= HexToInt(c) < 16 && IsDigitOf(c, HexToInt(c))
    ensures forall n: nat :: IsDigitOf(c, n) ==> HexToInt(c) == n
  {
    forall n: nat | IsDigitOf(c, n)
      ensures IsHexDigit(c) && HexToInt(c) == n
    {
      DigitPlaces(n);
    }
    if IsHexDigit(c) {
      var n: nat := HexToInt(c);
      DigitPlaces(n);
      assert IsDigitOf(c, n);
    }
  }

  // What is written are the digits of the upper row
  lemma WrittenDigit(n: nat)
    requires n < 16
    ensures IntToHex(n) == "0123456789ABCDEF"[n] as int
  {
    DigitPlaces(n);
  }

  // The values of hexadecimal digits
  function Places(hex: seq<byte>): (r: seq<nat>)
    requires IsHex(hex)
    ensures |r| == |hex| && forall i :: 0 <= i < |hex| ==> IsDigitOf(hex[i], r[i])
  {
    forall i | 0 <= i < |hex|
      ensures IsDigitOf(hex[i], HexToInt(hex[i]))
    {
      DigitsMean(hex[i]);
    }
    seq(|hex|, i requires 0 <= i < |hex| => HexToInt(hex[i]))
  }

  lemma {:induction false} PlacesDetermined(hex: seq<byte>, r: seq<nat>)
    requires IsHex(hex) && |r| == |hex| && forall i :: 0 <= i < |hex| ==> IsDigitOf(hex[i], r[i])
    ensures r == Places(hex)
  {
    forall i | 0 <= i < |hex|
      ensures r[i] == Places(hex)[i]
    {
      DigitsMean(hex[i]);
    }
  }

  lemma TwoDigits(base: nat, ds: seq<nat>, hi: nat, lo: nat)
    ensures Number(base, ds + [hi, lo]) == base * (base * Number(base, ds) + hi) + lo
  {
    assert (ds + [hi, lo])[..|ds| + 1] == ds + [hi] && (ds + [hi])[..|ds|] == ds;
  }

  // The digits of bytes denote the same number as the bytes, and all of them come from the upper row
  lemma {:induction false} EncodeDenotes(bin: seq<byte>)
    ensures IsHex(Encode(bin)) && Number(16, Places(Encode(bin))) == Number(256, bin)
    ensures forall k :: 0 <= k < 2 * |bin| ==>
      exists n :: 0 <= n < 16 && Encode(bin)[k] == "0123456789ABCDEF"[n] as int
  {
    EncodeIsHex(bin);
    forall k | 0 <= k < 2 * |bin|
      ensures exists n :: 0 <= n < 16 && Encode(bin)[k] == "0123456789ABCDEF"[n] as int
    {
      WrittenDigit(if k % 2 == 0 then bin[k / 2] / 16 else bin[k / 2] % 16);
    }
    EncodeNumber(bin);
  }

  lemma {:induction false} EncodeNumber(bin: seq<byte>)
    requires IsHex(Encode(bin))
    ensures Number(16, Places(Encode(bin))) == Number(256, bin)
  {
    hide IsDigitOf, IntToHex, HexToInt, IsHexDigit;
    if bin != [] {
      var n := |bin| - 1;
      var before, x := bin[..n], bin[n];
      EncodeIsHex(before);
      EncodeNumber(before);
      assert Encode(bin) == Encode(before) + [IntToHex(x / 16), IntToHex(x % 16)];
      DigitValues(0, x / 16);
      DigitValues(0, x % 16);
      var ps := Places(Encode(before)) + [x / 16, x % 16];
      PlacesOfTwo(Encode(before), x);
      PlacesDetermined(Encode(bin), ps);
      TwoDigits(16, Places(Encode(before)), x / 16, x % 16);
    } else {
      assert Encode(bin) == [];
    }
  }

  lemma PlacesOfTwo(hex: seq<byte>, x: byte)
    requires IsHex(hex)
    ensures var all, ps := hex + [IntToHex(x / 16), IntToHex(x % 16)], Places(hex) + [x / 16, x % 16];
      forall i :: 0 <= i < |all| ==> IsDigitOf(all[i], ps[i])
  {
    WrittenDigit(x / 16);
    WrittenDigit(x % 16);
  }

  // Bytes made of digits denote the same number as the digits, upper or lower case
  lemma DecodeDenotes(hex: seq<byte>)
    requires IsHex(hex) && |hex| % 2 == 0
    ensures Number(256, Decode(hex)) == Number(16, Places(hex))
  {
    hide Encode, Decode, Number;
    EncodeDenotes(Decode(hex));
    EncodeAfterDecode(hex);
    forall i | 0 <= i < |hex|
      ensures IsDigitOf(hex[i], Places(Upper(hex))[i])
    {
      UpperDigit(hex[i], Places(Upper(hex))[i]);
    }
    PlacesDetermined(hex, Places(Upper(hex)));
  }

  lemma UpperDigit(c: byte, n: nat)
    requires IsHexDigit(c) && IsDigitOf(ToUpper(c), n)
    ensures IsDigitOf(c, n)
  {
    DigitPlaces(n);
    DigitsMean(c);
    DigitPlaces(HexToInt(c));
  }

  // A blob is x, a quote, the digits and a quote
  lemma BlobIsQuoted(hex: seq<byte>)
    ensures Blob(hex) == Bytes("x'") + hex + Bytes("'")
  {
  }

  // The keys that are accepted, spelled out: 64 digits, or 64 digits and 32 characters 0 or 1
  lemma BlobKeyMeans(key: seq<byte>)
    ensures BlobKey(key) <==>
      && (|key| == 67 || |key| == 99)
      && key[..2] == Bytes("x'") && key[|key| - 1..] == Bytes("'")
      && (forall i :: 2 <= i < 66 ==> IsDigit(key[i]))
      && forall i :: 66 <= i < |key| - 1 ==> key[i] == '0' as int || key[i] == '1' as int
  {
    hide IsDigit, IsHexDigit, Bytes;
    if |key| == 67 || |key| == 99 {
      HexMeans(key);
      QuotesMean(key);
      assert forall i :: 66 <= i < |key| - 1 ==> (key[i] == DIGIT_0 || key[i] == DIGIT_0 + 1 <==>
        key[i] == '0' as int || key[i] == '1' as int);
    }
  }

  lemma HexMeans(key: seq<byte>)
    requires |key| >= 67
    ensures IsHex(key[2..66]) <==> forall i :: 2 <= i < 66 ==> IsDigit(key[i])
  {
    hide IsHexDigit, IsDigit;
    forall i | 2 <= i < 66
      ensures IsHexDigit(key[i]) <==> IsDigit(key[i])
    {
      DigitsMean(key[i]);
    }
    var part := key[2..66];
    assert forall i :: 2 <= i < 66 ==> key[i] == part[i - 2];
    assert forall i :: 0 <= i < 64 ==> part[i] == key[i + 2];
  }

  lemma QuotesMean(key: seq<byte>)
    requires |key| >= 67
    ensures key[..2] == Bytes("x'") <==> key[0] == LOWER_X && key[1] == QUOTE
    ensures key[|key| - 1..] == Bytes("'") <==> key[|key| - 1] == QUOTE
  {
  }

  // A key of 32 random bytes is accepted once it is a blob
  lemma RandomKeyIsBlobKey(bin: seq<byte>)
    requires |bin| == 32
    ensures BlobKey(Blob(Encode(bin)))
  {
    hide Encode;
    EncodeIsHex(bin);
    assert Blob(Encode(bin))[2..66] == Encode(bin);
  }
}
