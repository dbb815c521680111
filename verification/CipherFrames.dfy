/** The framing of the cipher file of src/cipher-config.c: tag, length, payload, and so on. */
module CipherFrames {
  import opened Wrappers
  import opened Growth
  import opened HexCodec

  const TYPE_SIZE: nat := 1
  const DLEN_SIZE: nat := 8
  const DIGEST_LENGTH: nat := 32
  const UNSIGNED_SIZE: nat := 4
  const POINTER_SIZE: nat := 8

  // enum field_type
  const FIELD_KDF_ALGORITHM: byte := 1
  const FIELD_HMAC_ALGORITHM: byte := 2
  const FIELD_COMPATIBILITY: byte := 3
  const FIELD_PAGE_SIZE: byte := 4
  const FIELD_KDF_ITER: byte := 5
  const FIELD_KEY: byte := 6
  const FIELD_KEY_PASSPHRASE: byte := 7
  const FIELD_KEY_BINARY: byte := 8
  const FIELD_TYPE_END: byte := 9

  datatype Field = Field(tag: byte, payload: seq<byte>)

  /* ---------- little-endian numbers ---------- */

  function Power256(n: nat): (p: nat)
    ensures p > 0
  {
    if n == 0 then 1 else 256 * Power256(n - 1)
  }

  function ToBytes(v: nat, n: nat): (b: seq<byte>)
    ensures |b| == n
  {
    if n == 0 then [] else [v % 256] + ToBytes(v / 256, n - 1)
  }

  function FromBytes(b: seq<byte>): nat {
    if b == [] then 0 else b[0] + 256 * FromBytes(b[1..])
  }

  lemma {:induction false} FromToBytes(v: nat, n: nat)
    requires v < Power256(n)
    ensures FromBytes(ToBytes(v, n)) == v
  {
    if n > 0 {
      FromToBytes(v / 256, n - 1);
      assert ToBytes(v, n)[1..] == ToBytes(v / 256, n - 1);
    }
  }

  lemma {:induction false} ToFromBytes(b: seq<byte>)
    ensures FromBytes(b) < Power256(|b|) && ToBytes(FromBytes(b), |b|) == b
  {
    hide ToBytes;
    if b == [] {
      ToBytesStep(0, 0);
    } else {
      ToFromBytes(b[1..]);
      assert b == [b[0]] + b[1..];
      var rest := FromBytes(b[1..]);
      assert (b[0] + 256 * rest) % 256 == b[0] && (b[0] + 256 * rest) / 256 == rest;
      ToBytesStep(FromBytes(b), |b| - 1);
    }
  }

  lemma SizeRange()
    ensures Power256(DLEN_SIZE) == SIZE_MAX + 1
  {
    assert Power256(2) == 0x1_0000;
    assert Power256(4) == 0x1_0000_0000;
    assert Power256(6) == 0x1_0000_0000_0000;
    assert Power256(8) == SIZE_MAX + 1;
  }

  /* ---------- the bytes of a field list ---------- */

  function Frame(f: Field): seq<byte> {
    [f.tag] + ToBytes(|f.payload|, DLEN_SIZE) + f.payload
  }

  function Frames(fs: seq<Field>): seq<byte> {
    if fs == [] then [] else Frame(fs[0]) + Frames(fs[1..])
  }

  // The tags that deserialize_cipher_config has a case for: FIELD_KEY itself has none
  predicate HasCase(tag: byte) {
    0 < tag < FIELD_TYPE_END && tag != FIELD_KEY
  }

  // Whether the store of the case stays inside the object it goes to. Tags count from 1 and the table of objects from
  // 0, so a KDF algorithm goes to the pointer of the HMAC algorithm, an HMAC algorithm (a pointer) to the compatibility
  // (a smaller number), the numbers one member further, the last of them into the pointer to the key, and a key past
  // the table.
  predicate StoreFits(tag: byte, dtlen: nat) {
    || tag == FIELD_KDF_ALGORITHM
    || ((tag == FIELD_COMPATIBILITY || tag == FIELD_PAGE_SIZE) && dtlen <= UNSIGNED_SIZE)
    || (tag == FIELD_KDF_ITER && dtlen <= POINTER_SIZE)
  }

  predicate Storable(f: Field) {
    StoreFits(f.tag, |f.payload|)
  }

  ghost predicate AllReadable(fs: seq<Field>) {
    forall i :: 0 <= i < |fs| ==> Storable(fs[i]) && |fs[i].payload| <= SIZE_MAX
  }

  ghost predicate Readable(fs: seq<Field>) {
    fs != [] && AllReadable(fs)
  }

  // What the cursor loop comes to: the fields it visits; a tag out of range; an abort in bug(); and, without a defined
  // outcome, a read past the end of the buffer or a store outside its object
  datatype Scan = Visited(fields: seq<Field>) | BadTag | Bug | Overrun | WildStore

  function ScanFrom(buf: seq<byte>): Scan
    decreases |buf|
  {
    if |buf| == 0 then Overrun
    else
      var tag := buf[0];
      if !(0 < tag < FIELD_TYPE_END) then BadTag
      else if |buf| < TYPE_SIZE + DLEN_SIZE then Overrun
      else
        var dtlen := FromBytes(buf[1..9]);
        if tag == FIELD_KEY then Bug
        else if !StoreFits(tag, dtlen) then WildStore
        else if 9 + dtlen > |buf| then Overrun
        else if 9 + dtlen == |buf| then Visited([Field(tag, buf[9..])])
        else Prepend(Field(tag, buf[9..9 + dtlen]), ScanFrom(buf[9 + dtlen..]))
  }

  // The cursor loop undoes the framing
  lemma {:induction false} ScanOfFrames(fs: seq<Field>)
    requires Readable(fs)
    ensures ScanFrom(Frames(fs)) == Visited(fs)
  {
    var f, rest := fs[0], fs[1..];
    var buf, tail := Frames(fs), Frames(rest);
    var n := |f.payload|;
    SizeRange();
    FromToBytes(n, DLEN_SIZE);
    assert buf[0] == f.tag && buf[1..9] == ToBytes(n, DLEN_SIZE);
    assert buf[9..9 + n] == f.payload && buf[9 + n..] == tail;
    assert fs == [f] + rest;
    if rest != [] {
      ScanOfFrames(rest);
      assert |tail| > 0;
    } else {
      assert buf[9..] == f.payload;
    }
  }

  // The framing undoes the cursor loop: whatever it accepts is the frames of what it visited
  lemma {:induction false} FramesOfScan(buf: seq<byte>)
    requires ScanFrom(buf).Visited? && |buf| <= SIZE_MAX
    ensures Readable(ScanFrom(buf).fields) && Frames(ScanFrom(buf).fields) == buf
    decreases |buf|
  {
    hide FromBytes, ToBytes, Power256;
    var n := FromBytes(buf[1..9]);
    ToFromBytes(buf[1..9]);
    var f := Field(buf[0], buf[9..9 + n]);
    FrameInFront(buf, n);
    if 9 + n < |buf| {
      FramesOfScan(buf[9 + n..]);
      FramesCons(f, ScanFrom(buf[9 + n..]).fields);
    } else {
      FramesCons(f, []);
      assert buf[9..] == buf[9..9 + n] && Frame(f) + [] == Frame(f) == buf;
    }
  }

  lemma FrameInFront(buf: seq<byte>, n: nat)
    requires 9 + n <= |buf| && ToBytes(n, DLEN_SIZE) == buf[1..9]
    ensures Frame(Field(buf[0], buf[9..9 + n])) + buf[9 + n..] == buf
  {
    hide ToBytes;
  }

  lemma FramesCons(f: Field, rest: seq<Field>)
    ensures Frames([f] + rest) == Frame(f) + Frames(rest) && Frames([]) == [] && [f] + [] == [f]
  {
    assert ([f] + rest)[1..] == rest;
  }

  // Both directions at once
  lemma ScanExact(buf: seq<byte>, fs: seq<Field>)
    requires |buf| <= SIZE_MAX
    ensures ScanFrom(buf) == Visited(fs) <==> Readable(fs) && Frames(fs) == buf
  {
    if Readable(fs) && Frames(fs) == buf {
      ScanOfFrames(fs);
    }
    if ScanFrom(buf) == Visited(fs) {
      FramesOfScan(buf);
    }
  }

  // One turn of the loop, with the cursor at cur
  lemma ScanStep(buf: seq<byte>, cur: nat)
    requires cur <= |buf|
    ensures ScanFrom(buf[cur..]) ==
      if cur == |buf| then Overrun
      else if !(0 < buf[cur] < FIELD_TYPE_END) then BadTag
      else if cur + 9 > |buf| then Overrun
      else if buf[cur] == FIELD_KEY then Bug
      else
        var end := cur + 9 + FromBytes(buf[cur + 1..cur + 9]);
        if !StoreFits(buf[cur], end - cur - 9) then WildStore
        else if end > |buf| then Overrun
        else if end == |buf| then Visited([Field(buf[cur], buf[cur + 9..end])])
        else Prepend(Field(buf[cur], buf[cur + 9..end]), ScanFrom(buf[end..]))
  {
    hide FromBytes;
    if cur + 9 <= |buf| {
      TailSlice(buf, cur, 1, 9);
      var n := FromBytes(buf[cur + 1..cur + 9]);
      if cur + 9 + n <= |buf| {
        TailSlice(buf, cur, 9, 9 + n);
        TailSlice(buf, cur, 9, |buf| - cur);
      }
    }
  }

  lemma TailSlice(buf: seq<byte>, cur: nat, lo: nat, hi: nat)
    requires lo <= hi && cur + hi <= |buf|
    ensures buf[cur..][lo..hi] == buf[cur + lo..cur + hi] && buf[cur..][hi..] == buf[cur + hi..]
    ensures hi == |buf| - cur ==> buf[cur..][lo..] == buf[cur + lo..cur + hi]
  {
  }

  // What deserialize_cipher_config can store: the members that the table has where the tags point. Numbers and the
  // pointer to the key are kept as their bytes.
  datatype Target = Target(hmacAlgorithm: Option<seq<byte>>, pageSize: seq<byte>, kdfIter: seq<byte>, keyBuf: seq<byte>)
  {
    ghost predicate Valid() {
      |pageSize| == UNSIGNED_SIZE && |kdfIter| == UNSIGNED_SIZE && |keyBuf| == POINTER_SIZE
    }
  }

  // memcpy to the front of an object
  function Overwrite(dst: seq<byte>, data: seq<byte>): (r: seq<byte>)
    requires |data| <= |dst|
    ensures |r| == |dst|
  {
    data + dst[|data|..]
  }

  // The store of one case
  function Stored(to: Target, f: Field): (r: Target)
    requires to.Valid() && Storable(f)
    ensures r.Valid()
  {
    if f.tag == FIELD_KDF_ALGORITHM then to.(hmacAlgorithm := Some(f.payload))
    else if f.tag == FIELD_COMPATIBILITY then to.(pageSize := Overwrite(to.pageSize, f.payload))
    else if f.tag == FIELD_PAGE_SIZE then to.(kdfIter := Overwrite(to.kdfIter, f.payload))
    else to.(keyBuf := Overwrite(to.keyBuf, f.payload))
  }

  function AllStored(to: Target, fs: seq<Field>): (r: Target)
    requires to.Valid() && forall i :: 0 <= i < |fs| ==> Storable(fs[i])
    ensures r.Valid()
  {
    if fs == [] then to else Stored(AllStored(to, fs[..|fs| - 1]), fs[|fs| - 1])
  }

  lemma StoredSnoc(to: Target, fs: seq<Field>, f: Field)
    requires to.Valid() && Storable(f) && forall i :: 0 <= i < |fs| ==> Storable(fs[i])
    ensures AllStored(to, fs + [f]) == Stored(AllStored(to, fs), f) && AllStored(to, []) == to
  {
    assert (fs + [f])[..|fs|] == fs;
  }

  // The loop of deserialize_cipher_config over buf; the cursor is its distance from the start
  method Deserialize(buf: seq<byte>, to0: Target) returns (r: Scan, to: Target)
    requires to0.Valid()
    ensures r == ScanFrom(buf)
    ensures r.Visited? ==> (forall i :: 0 <= i < |r.fields| ==> Storable(r.fields[i])) && to == AllStored(to0, r.fields)
  {
    to := to0;
    hide ScanFrom, FromBytes, Power256, ToBytes, After, Prepend, AllStored, Stored, StoreFits;
    var cur := 0;
    var fields: seq<Field> := [];
    assert buf[0..] == buf;
    NothingVisited(ScanFrom(buf));
    NothingStored(to);
    while true
      invariant cur <= |buf|
      invariant to.Valid() && (forall i :: 0 <= i < |fields| ==> Storable(fields[i])) && to == AllStored(to0, fields)
      invariant ScanFrom(buf) == After(fields, ScanFrom(buf[cur..]))
      decreases |buf| - cur
    {
      ScanStep(buf, cur);
      AfterStops(fields);
      if cur == |buf| {
        return Overrun, to;
      }
      var tag := buf[cur];
      if !(0 < tag < FIELD_TYPE_END) {
        return BadTag, to;
      }
      cur := cur + TYPE_SIZE;
      if cur + DLEN_SIZE > |buf| {
        return Overrun, to;
      }
      var dtlen := FromBytes(buf[cur..cur + DLEN_SIZE]);
      cur := cur + DLEN_SIZE;
      if tag == FIELD_KEY {
        return Bug, to;
      }
      if !StoreFits(tag, dtlen) {
        return WildStore, to;
      }
      if cur + dtlen > |buf| {
        return Overrun, to;
      }
      var field := Field(tag, buf[cur..cur + dtlen]);
      StoredSnoc(to0, fields, field);
      to := Stored(to, field);
      AfterPrepend(fields, field, ScanFrom(buf[cur + dtlen..]));
      fields := fields + [field];
      cur := cur + dtlen;
      if cur == |buf| {
        return Visited(fields), to;
      }
    }
  }

  lemma NothingStored(to: Target)
    requires to.Valid()
    ensures AllStored(to, []) == to
  {
  }

  // The outcome of a scan whose first fields are known
  function After(fields: seq<Field>, rest: Scan): Scan {
    if rest.Visited? then Visited(fields + rest.fields) else rest
  }

  function Prepend(f: Field, rest: Scan): Scan {
    After([f], rest)
  }

  lemma NothingVisited(rest: Scan)
    ensures After([], rest) == rest
  {
  }

  lemma AfterStops(fields: seq<Field>)
    ensures After(fields, Overrun) == Overrun && After(fields, WildStore) == WildStore
    ensures After(fields, BadTag) == BadTag && After(fields, Bug) == Bug
  {
  }

  lemma AfterPrepend(fields: seq<Field>, f: Field, rest: Scan)
    ensures After(fields, Prepend(f, rest)) == After(fields + [f], rest)
    ensures After(fields, Visited([f])) == Visited(fields + [f])
  {
    if rest.Visited? {
      assert fields + ([f] + rest.fields) == fields + [f] + rest.fields;
    }
  }

  /* ---------- writing ---------- */

  type uint = x: int | 0 <= x <= 0xFFFF_FFFF

  // struct cipher_config and struct cipher_key; the strings as bytes
  datatype Config = Config(kdfAlgorithm: Option<seq<byte>>, hmacAlgorithm: Option<seq<byte>>,
                           compatibility: uint, pageSize: uint, kdfIter: uint)

  datatype Key = NoKey | Key(bytes: seq<byte>, isBinary: bool)

  const CPRDEF_COMPATIBILITY: uint := 4
  const CPRDEF_PAGE_SIZE: uint := 4096
  const CPRDEF_KDF_ITER: uint := 256000
  // "PBKDF2_HMAC_SHA512" and "HMAC_SHA512"
  const CPRDEF_KDF_ALGORITHM: seq<byte> := [80, 66, 75, 68, 70, 50, 95, 72, 77, 65, 67, 95, 83, 72, 65, 53, 49, 50]
  const CPRDEF_HMAC_ALGORITHM: seq<byte> := [72, 77, 65, 67, 95, 83, 72, 65, 53, 49, 50]

  function StringField(tag: byte, v: Option<seq<byte>>, default: seq<byte>): (r: seq<Field>)
    ensures |r| <= 1
  {
    if v.Some? && v.value != default then [Field(tag, v.value)] else []
  }

  function NumberField(tag: byte, v: uint, default: uint): (r: seq<Field>)
    ensures |r| <= 1
  {
    if v != default then [Field(tag, ToBytes(v, UNSIGNED_SIZE))] else []
  }

  // The key is written under FIELD_KEY + is_binary: 6 for a passphrase and 7 for a binary key
  function KeyField(key: Key): (r: seq<Field>)
    ensures |r| <= 1
  {
    if key.NoKey? then [] else [Field(if key.isBinary then FIELD_KEY + 1 else FIELD_KEY, key.bytes)]
  }

  function ConfigFields(c: Config): seq<Field> {
    StringField(FIELD_KDF_ALGORITHM, c.kdfAlgorithm, CPRDEF_KDF_ALGORITHM)
    + StringField(FIELD_HMAC_ALGORITHM, c.hmacAlgorithm, CPRDEF_HMAC_ALGORITHM)
    + NumberField(FIELD_COMPATIBILITY, c.compatibility, CPRDEF_COMPATIBILITY)
    + NumberField(FIELD_PAGE_SIZE, c.pageSize, CPRDEF_PAGE_SIZE)
    + NumberField(FIELD_KDF_ITER, c.kdfIter, CPRDEF_KDF_ITER)
  }

  function FieldsOf(c: Config, key: Key): seq<Field> {
    ConfigFields(c) + KeyField(key)
  }

  class Blob {
    var buf: array<byte>
    var size: nat
    var cap: nat

    ghost predicate Valid()
      reads this
    {
      size <= cap == buf.Length
    }

    function Contents(): seq<byte>
      requires Valid()
      reads this, buf
    {
      buf[..size]
    }

    constructor ()
      ensures Valid() && Contents() == [] && fresh(buf)
    {
      buf := new byte[0];
      size, cap := 0, 0;
    }

    method CapacityGrow(request: nat)
      requires Valid()
      modifies this`buf, this`cap
      ensures Valid() && request <= cap == buf.Length && (buf == old(buf) || fresh(buf))
      ensures Contents() == old(Contents())
    {
      if request > cap {
        cap := Grown(request, cap);
        var buf' := new byte[cap];
        forall k | 0 <= k < size {
          buf'[k] := buf[k];
        }
        buf := buf';
      }
    }

    method Put(data: seq<byte>)
      requires Valid() && size + |data| <= cap
      modifies this`size, buf
      ensures Valid() && cap == old(cap) && buf == old(buf)
      ensures Contents() == old(Contents()) + data
    {
      forall k | 0 <= k < |data| {
        buf[size + k] := data[k];
      }
      size := size + |data|;
    }

    method AppendField(tag: byte, data: seq<byte>)
      requires Valid()
      modifies this, buf
      ensures Valid() && (buf == old(buf) || fresh(buf))
      ensures Contents() == old(Contents()) + Frame(Field(tag, data))
    {
      var requiredSize := size + TYPE_SIZE + DLEN_SIZE + |data|;
      CapacityGrow(requiredSize);
      ghost var before := Contents();
      Put([tag]);
      Put(ToBytes(|data|, DLEN_SIZE));
      Put(data);
      assert Contents() == before + ([tag] + ToBytes(|data|, DLEN_SIZE) + data);
    }
  }

  lemma {:induction false} FramesConcat(a: seq<Field>, b: seq<Field>)
    ensures Frames(a + b) == Frames(a) + Frames(b)
  {
    if a == [] {
      assert a + b == b;
    } else {
      FramesConcat(a[1..], b);
      assert (a + b)[1..] == a[1..] + b;
    }
  }

  method AppendFields(blob: Blob, fs: seq<Field>, ghost done: seq<Field>)
    requires blob.Valid() && |fs| <= 1 && blob.Contents() == Frames(done)
    modifies blob, blob.buf
    ensures blob.Valid() && (blob.buf == old(blob.buf) || fresh(blob.buf))
    ensures blob.Contents() == Frames(done + fs)
  {
    FramesConcat(done, fs);
    if |fs| == 1 {
      blob.AppendField(fs[0].tag, fs[0].payload);
      assert Frames(fs) == Frame(fs[0]) + Frames([]);
    }
  }

  // The serialised fields, in a buffer that has room for the digest after them
  method SerializeCipherConfig(c: Config, key: Key) returns (blob: Blob)
    ensures fresh(blob) && blob.Valid() && blob.Contents() == Frames(FieldsOf(c, key))
    ensures blob.size + 32 <= blob.buf.Length
  {
    hide Frames, StringField, NumberField, KeyField, ToBytes, Power256, Grown, Blob.Valid, Blob.Contents;
    blob := new Blob();
    blob.CapacityGrow(64);
    NoFrames();
    var f1 := StringField(FIELD_KDF_ALGORITHM, c.kdfAlgorithm, CPRDEF_KDF_ALGORITHM);
    AppendFields(blob, f1, []);
    var f2 := StringField(FIELD_HMAC_ALGORITHM, c.hmacAlgorithm, CPRDEF_HMAC_ALGORITHM);
    AppendFields(blob, f2, [] + f1);
    var f3 := NumberField(FIELD_COMPATIBILITY, c.compatibility, CPRDEF_COMPATIBILITY);
    AppendFields(blob, f3, [] + f1 + f2);
    var f4 := NumberField(FIELD_PAGE_SIZE, c.pageSize, CPRDEF_PAGE_SIZE);
    AppendFields(blob, f4, [] + f1 + f2 + f3);
    var f5 := NumberField(FIELD_KDF_ITER, c.kdfIter, CPRDEF_KDF_ITER);
    AppendFields(blob, f5, [] + f1 + f2 + f3 + f4);
    var f6 := KeyField(key);
    AppendFields(blob, f6, [] + f1 + f2 + f3 + f4 + f5);
    blob.CapacityGrow(blob.size + DIGEST_LENGTH);
    assert [] + f1 + f2 + f3 + f4 + f5 + f6 == FieldsOf(c, key);
  }

  lemma NoFrames()
    ensures Frames([]) == []
  {
  }

  /* ---------- the bytes, one by one ---------- */

  function Number32(v: nat): (b: seq<byte>)
    ensures |b| == 4
  {
    [v % 256, v / 0x100 % 256, v / 0x1_0000 % 256, v / 0x100_0000 % 256]
  }

  // The lowest byte comes first
  lemma LowByteFirst(v: nat, n: nat)
    ensures ToBytes(v, 4 + n) == Number32(v) + ToBytes(v / 0x1_0000_0000, n)
    ensures ToBytes(v, 0) == []
  {
    hide ToBytes;
    var v1, v2, v3 := v / 0x100, v / 0x1_0000, v / 0x100_0000;
    ToBytesStep(v, 3 + n);
    ToBytesStep(v1, 2 + n);
    ToBytesStep(v2, 1 + n);
    ToBytesStep(v3, n);
  }

  lemma ToBytesStep(v: nat, n: nat)
    ensures ToBytes(v, 1 + n) == [v % 256] + ToBytes(v / 256, n)
    ensures ToBytes(v, 0) == []
  {
  }

  // A frame: the tag, eight bytes of length with the lowest first, and the payload
  lemma FrameMeans(f: Field)
    ensures var n := |f.payload|;
      Frame(f) ==
        [f.tag, n % 256, n / 0x100 % 256, n / 0x1_0000 % 256, n / 0x100_0000 % 256, n / 0x1_0000_0000 % 256,
         n / 0x1_0000_0000 / 0x100 % 256, n / 0x1_0000_0000 / 0x1_0000 % 256, n / 0x1_0000_0000 / 0x100_0000 % 256]
        + f.payload
  {
    hide ToBytes;
    var n := |f.payload|;
    LowByteFirst(n, 4);
    LowByteFirst(n / 0x1_0000_0000, 0);
    LowByteFirst(n / 0x1_0000_0000 / 0x1_0000_0000, 0);
    assert Number32(n / 0x1_0000_0000) + [] == Number32(n / 0x1_0000_0000);
  }

  // Which tag each value is written under, and when it is written at all
  lemma FieldsMean(c: Config, key: Key)
    ensures FieldsOf(c, key) ==
      (if c.kdfAlgorithm.Some? && c.kdfAlgorithm.value != Bytes("PBKDF2_HMAC_SHA512")
       then [Field(1, c.kdfAlgorithm.value)] else [])
      + (if c.hmacAlgorithm.Some? && c.hmacAlgorithm.value != Bytes("HMAC_SHA512")
         then [Field(2, c.hmacAlgorithm.value)] else [])
      + (if c.compatibility != 4 then [Field(3, Number32(c.compatibility))] else [])
      + (if c.pageSize != 4096 then [Field(4, Number32(c.pageSize))] else [])
      + (if c.kdfIter != 256000 then [Field(5, Number32(c.kdfIter))] else [])
      + (if key.NoKey? then [] else if key.isBinary then [Field(7, key.bytes)] else [Field(6, key.bytes)])
  {
    hide ToBytes, Bytes;
    UnsignedBytes(c.compatibility);
    UnsignedBytes(c.pageSize);
    UnsignedBytes(c.kdfIter);
    DefaultNames();
  }

  lemma UnsignedBytes(v: nat)
    ensures ToBytes(v, 4) == Number32(v)
  {
    hide ToBytes;
    LowByteFirst(v, 0);
    LowByteFirst(v / 0x1_0000_0000, 0);
    assert Number32(v) + [] == Number32(v);
  }

  lemma DefaultNames()
    ensures CPRDEF_KDF_ALGORITHM == Bytes("PBKDF2_HMAC_SHA512") && CPRDEF_HMAC_ALGORITHM == Bytes("HMAC_SHA512")
  {
  }

  /* ---------- what can be read back ---------- */

  ghost predicate SizesFit(c: Config, key: Key) {
    && (c.kdfAlgorithm.Some? ==> |c.kdfAlgorithm.value| <= SIZE_MAX)
    && (c.hmacAlgorithm.Some? ==> |c.hmacAlgorithm.value| <= SIZE_MAX)
    && (key.Key? ==> |key.bytes| <= SIZE_MAX)
    && |Frames(FieldsOf(c, key))| <= SIZE_MAX
  }

  predicate HmacIsWritten(c: Config) {
    c.hmacAlgorithm.Some? && c.hmacAlgorithm.value != CPRDEF_HMAC_ALGORITHM
  }

  // What stands in front of the HMAC algorithm, and all of the configuration without one
  lemma ConfigFieldsReadable(c: Config, key: Key)
    requires SizesFit(c, key)
    ensures AllReadable(StringField(FIELD_KDF_ALGORITHM, c.kdfAlgorithm, CPRDEF_KDF_ALGORITHM))
    ensures !HmacIsWritten(c) ==> AllReadable(ConfigFields(c))
  {
  }

  // The outcome of reading back what was written, for every configuration and key. It is the list of what was written
  // exactly when there is something, and neither an HMAC algorithm nor a key is in it.
  lemma ReadableExactly(c: Config, key: Key)
    requires SizesFit(c, key)
    ensures var fs := FieldsOf(c, key);
      ScanFrom(Frames(fs)) ==
        if HmacIsWritten(c) then WildStore
        else if key.Key? then (if key.isBinary then WildStore else Bug)
        else if fs == [] then Overrun
        else Visited(fs)
  {
    hide Frames, ScanFrom, StringField, NumberField, KeyField, StoreFits;
    var cs, fs := ConfigFields(c), FieldsOf(c, key);
    ConfigFieldsReadable(c, key);
    if HmacIsWritten(c) {
      var before := StringField(FIELD_KDF_ALGORITHM, c.kdfAlgorithm, CPRDEF_KDF_ALGORITHM);
      var f := Field(FIELD_HMAC_ALGORITHM, c.hmacAlgorithm.value);
      HmacStands(c, key);
      ScanStopsAt(before, f, FieldsAfterHmac(c, key));
    } else if key.Key? {
      KeyStands(c, key);
      ScanStopsAt(cs, KeyField(key)[0], []);
    } else {
      NoKeyStands(c);
      if fs == [] {
        NoFrames();
        NothingToScan();
      } else {
        ScanExact(Frames(fs), fs);
      }
    }
  }

  // Where the field stands at which the reader stops
  lemma HmacStands(c: Config, key: Key)
    requires HmacIsWritten(c)
    ensures FieldsOf(c, key) == StringField(FIELD_KDF_ALGORITHM, c.kdfAlgorithm, CPRDEF_KDF_ALGORITHM)
      + [Field(FIELD_HMAC_ALGORITHM, c.hmacAlgorithm.value)] + FieldsAfterHmac(c, key)
    ensures !StoreFits(FIELD_HMAC_ALGORITHM, |c.hmacAlgorithm.value|)
  {
    hide NumberField, KeyField;
  }

  lemma KeyStands(c: Config, key: Key)
    requires key.Key?
    ensures KeyField(key) != [] && FieldsOf(c, key) == ConfigFields(c) + [KeyField(key)[0]] + []
    ensures var f := KeyField(key)[0];
      !Storable(f) && f.payload == key.bytes && f.tag == if key.isBinary then FIELD_KEY + 1 else FIELD_KEY
  {
  }

  lemma NoKeyStands(c: Config)
    ensures FieldsOf(c, NoKey) == ConfigFields(c)
  {
  }

  function FieldsAfterHmac(c: Config, key: Key): seq<Field> {
    NumberField(FIELD_COMPATIBILITY, c.compatibility, CPRDEF_COMPATIBILITY)
    + NumberField(FIELD_PAGE_SIZE, c.pageSize, CPRDEF_PAGE_SIZE)
    + NumberField(FIELD_KDF_ITER, c.kdfIter, CPRDEF_KDF_ITER)
    + KeyField(key)
  }

  // The first field without a case, or without a place to store it, ends the loop, whatever follows
  lemma {:induction false} ScanStopsAt(cs: seq<Field>, f: Field, rest: seq<Field>)
    requires AllReadable(cs) && 0 < f.tag < FIELD_TYPE_END && |f.payload| <= SIZE_MAX && !Storable(f)
    ensures ScanFrom(Frames(cs + [f] + rest)) == if f.tag == FIELD_KEY then Bug else WildStore
  {
    hide ScanFrom, StoreFits, ToBytes, FromBytes;
    var fs := cs + [f] + rest;
    if cs != [] {
      StorableHasCase(cs[0]);
    }
    FrontFrame(fs);
    if cs != [] {
      assert fs[1..] == cs[1..] + [f] + rest;
      ScanStopsAt(cs[1..], f, rest);
      assert cs[0] == fs[0] && Storable(cs[0]);
      FramesTaken(cs[1..] + [f] + rest);
    }
  }

  lemma StorableHasCase(f: Field)
    requires Storable(f)
    ensures HasCase(f.tag)
  {
  }

  lemma NothingToScan()
    ensures ScanFrom([]) == Overrun
  {
  }

  lemma FramesTaken(fs: seq<Field>)
    requires fs != []
    ensures |Frames(fs)| > 0
  {
  }

  // What the loop makes of the front field of framed fields
  lemma FrontFrame(fs: seq<Field>)
    requires fs != [] && 0 < fs[0].tag < FIELD_TYPE_END && |fs[0].payload| <= SIZE_MAX
    ensures fs[0].tag == FIELD_KEY ==> ScanFrom(Frames(fs)) == Bug
    ensures fs[0].tag != FIELD_KEY && !Storable(fs[0]) ==> ScanFrom(Frames(fs)) == WildStore
    ensures Storable(fs[0]) && |Frames(fs[1..])| > 0 ==>
      ScanFrom(Frames(fs)) == Prepend(fs[0], ScanFrom(Frames(fs[1..])))
  {
    hide ToBytes, FromBytes, Prepend;
    var f := fs[0];
    var buf, n := Frames(fs), |f.payload|;
    SizeRange();
    FromToBytes(n, DLEN_SIZE);
    assert buf[0] == f.tag && buf[1..9] == ToBytes(n, DLEN_SIZE);
    assert buf[9..9 + n] == f.payload && buf[9 + n..] == Frames(fs[1..]);
  }

  // The tag of a binary key is never written, so no key would be taken for a binary one
  lemma BinaryKeysAreForgotten(c: Config, key: Key)
    ensures forall f :: f in FieldsOf(c, key) ==> f.tag != FIELD_KEY_BINARY
    ensures key.Key? && key.isBinary ==> Field(FIELD_KEY_PASSPHRASE, key.bytes) in FieldsOf(c, key)
  {
    hide ToBytes;
    assert key.Key? && key.isBinary ==> FieldsOf(c, key)[|ConfigFields(c)|] == Field(FIELD_KEY_PASSPHRASE, key.bytes);
  }

  // The outcomes by tag, for any bytes: 1, 3, 4 and 5 go on, 2, 7 and 8 store astray, 6 aborts, the others are refused
  lemma FirstTagDecides(buf: seq<byte>)
    ensures buf == [] ==> ScanFrom(buf) == Overrun
    ensures buf != [] && !(1 <= buf[0] <= 8) ==> ScanFrom(buf) == BadTag
    ensures |buf| >= 9 && buf[0] == 6 ==> ScanFrom(buf) == Bug
    ensures |buf| >= 9 && buf[0] in {2, 7, 8} ==> ScanFrom(buf) == WildStore
    ensures |buf| >= 9 && buf[0] in {3, 4} && FromBytes(buf[1..9]) > 4 ==> ScanFrom(buf) == WildStore
    ensures |buf| >= 9 && buf[0] == 5 && FromBytes(buf[1..9]) > 8 ==> ScanFrom(buf) == WildStore
    ensures 0 < |buf| < 9 && 1 <= buf[0] <= 8 ==> ScanFrom(buf) == Overrun
  {
  }

  /* ---------- what comes back ---------- */

  // CC_INIT and CK_INIT, as far as the loop can store there
  function Initial(): (t: Target)
    ensures t.Valid()
  {
    Target(None, ToBytes(CPRDEF_PAGE_SIZE, UNSIGNED_SIZE), ToBytes(CPRDEF_KDF_ITER, UNSIGNED_SIZE),
           ToBytes(0, POINTER_SIZE))
  }

  // Every value comes back one member further: the KDF algorithm as the HMAC algorithm, the compatibility as the page
  // size, the page size as the iteration count, and the iteration count in the pointer to the key
  lemma ValuesComeBackShifted(c: Config)
    requires !HmacIsWritten(c)
    ensures var fs, to := FieldsOf(c, NoKey), Initial();
      && (forall i :: 0 <= i < |fs| ==> Storable(fs[i]))
      && AllStored(to, fs) == Target(
           if c.kdfAlgorithm == Some(CPRDEF_KDF_ALGORITHM) then None else c.kdfAlgorithm,
           if c.compatibility == CPRDEF_COMPATIBILITY then to.pageSize else ToBytes(c.compatibility, UNSIGNED_SIZE),
           if c.pageSize == CPRDEF_PAGE_SIZE then to.kdfIter else ToBytes(c.pageSize, UNSIGNED_SIZE),
           if c.kdfIter == CPRDEF_KDF_ITER then to.keyBuf
           else ToBytes(c.kdfIter, UNSIGNED_SIZE) + to.keyBuf[UNSIGNED_SIZE..])
  {
    hide ToBytes, AllStored;
    var to := Initial();
    var f1 := StringField(FIELD_KDF_ALGORITHM, c.kdfAlgorithm, CPRDEF_KDF_ALGORITHM);
    var f2 := NumberField(FIELD_COMPATIBILITY, c.compatibility, CPRDEF_COMPATIBILITY);
    var f3 := NumberField(FIELD_PAGE_SIZE, c.pageSize, CPRDEF_PAGE_SIZE);
    var f4 := NumberField(FIELD_KDF_ITER, c.kdfIter, CPRDEF_KDF_ITER);
    assert FieldsOf(c, NoKey) == [] + f1 + f2 + f3 + f4;
    StoredMore(to, [], f1);
    StoredMore(to, [] + f1, f2);
    StoredMore(to, [] + f1 + f2, f3);
    StoredMore(to, [] + f1 + f2 + f3, f4);
    NothingStored(to);
  }

  lemma StoredMore(to: Target, fs: seq<Field>, g: seq<Field>)
    requires to.Valid() && |g| <= 1 && (forall i :: 0 <= i < |fs| ==> Storable(fs[i])) && (|g| == 1 ==> Storable(g[0]))
    ensures forall i :: 0 <= i < |fs + g| ==> Storable((fs + g)[i])
    ensures AllStored(to, fs + g) == if g == [] then AllStored(to, fs) else Stored(AllStored(to, fs), g[0])
  {
    hide AllStored, Stored, StoreFits;
    if g == [] {
      assert fs + g == fs;
    } else {
      assert g == [g[0]];
      StoredSnoc(to, fs, g[0]);
    }
  }

  // The configuration that the reader ends up with; the KDF algorithm and the compatibility are never stored
  function AsConfig(t: Target): Config
    requires t.Valid()
  {
    ConfigBound(t.pageSize);
    ConfigBound(t.kdfIter);
    Config(None, t.hmacAlgorithm, CPRDEF_COMPATIBILITY, FromBytes(t.pageSize), FromBytes(t.kdfIter))
  }

  lemma ConfigBound(b: seq<byte>)
    requires |b| == UNSIGNED_SIZE
    ensures FromBytes(b) <= 0xFFFF_FFFF
  {
    ToFromBytes(b);
    assert Power256(2) == 0x1_0000;
    assert Power256(4) == 0x1_0000_0000;
  }

  // A default algorithm counts as none given
  function Normal(c: Config): Config {
    c.(kdfAlgorithm := if c.kdfAlgorithm == Some(CPRDEF_KDF_ALGORITHM) then None else c.kdfAlgorithm,
       hmacAlgorithm := if c.hmacAlgorithm == Some(CPRDEF_HMAC_ALGORITHM) then None else c.hmacAlgorithm)
  }

  // No configuration that is written comes back: whenever the reader gets to the end, it has something else
  lemma NoConfigComesBack(c: Config)
    requires !HmacIsWritten(c) && FieldsOf(c, NoKey) != []
    ensures forall i :: 0 <= i < |FieldsOf(c, NoKey)| ==> Storable(FieldsOf(c, NoKey)[i])
    ensures AsConfig(AllStored(Initial(), FieldsOf(c, NoKey))) != Normal(c)
  {
    hide ToBytes, FromBytes, AllStored, Power256;
    ValuesComeBackShifted(c);
    UnsignedComesBack(CPRDEF_PAGE_SIZE);
    UnsignedComesBack(CPRDEF_KDF_ITER);
  }

  lemma UnsignedComesBack(v: uint)
    ensures FromBytes(ToBytes(v, UNSIGNED_SIZE)) == v
  {
    assert Power256(2) == 0x1_0000;
    assert Power256(4) == 0x1_0000_0000;
    FromToBytes(v, UNSIGNED_SIZE);
  }
}
