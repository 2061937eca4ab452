/**
 * The binary splat file decoder of `src/splat_decoder/mod.rs`: a file is a
 * sequence of 32-byte records with no header; each record holds a position
 * and a scale (three `f32` each, read big-endian by `Buf::get_f32`), an
 * RGBA colour (four `u8`) and a rotation (four `u8`, each mapped through
 * `(raw - 128) / 128`).
 */
module SplatDecoder {
  import opened Wrappers
  import opened Vectors
  import opened Bytes

  /** The size in bytes of one record. */
  const RecordSize: nat := 32

  /**
   * The build profile. Rust's `u8` subtraction panics on overflow in a
   * debug build and wraps modulo 256 in a release build.
   */
  datatype Build = Debug | Release

  /** `a - b` on `u8`: `None` is the debug-build overflow panic. */
  function SubU8(build: Build, a: Byte, b: Byte): (r: Option<Byte>)
    ensures r.Some? <==> (build == Release || a >= b)
    ensures r.Some? ==> (r.value - (a - b)) % 256 == 0
    ensures r.Some? && a >= b ==> r.value == a - b
  {
    if build == Release then Some((a as int - b) % 256)
    else if a >= b then Some(a - b)
    else None
  }

  /** Why decoding fails. */
  datatype DecodeError =
    /** A record handed to the record decoder is not exactly 32 bytes long. */
    | RecordNot32Bytes(length: nat)
    /** The file length is not a multiple of 32. */
    | FileNotMultipleOf32(length: nat)
    /**
     * The debug-build panic "attempt to subtract with overflow" raised by
     * `raw - 128` for rotation component `component` (0 to 3); it is not a
     * returned error but it ends the decode all the same.
     */
    | RotationSubtractOverflow(component: nat)

  /**
   * One decoded splat. Each rotation component is kept as the `u8`
   * numerator `raw - 128`; the source's `f32` value is that numerator over
   * 128, which `f32` represents exactly.
   */
  datatype SplatEntry = SplatEntry(
    position: Vector3<F32>,
    scale: Vector3<F32>,
    color: Vector4<Byte>,
    rotation: Vector4<Byte>)

  /** The real value `numerator / 128` that `(numerator as f32) / 128f32` computes exactly. */
  function RotationValue(numerator: Byte): (v: real)
    ensures 0.0 <= v < 2.0
    ensures v * 128.0 == numerator as real
  {
    numerator as real / 128.0
  }

  /** The `f32` whose bytes start at `offset`, most significant byte first. */
  function FloatAt(record: seq<Byte>, offset: nat): F32
    requires offset + 4 <= |record|
  {
    F32(BigEndianWord(record[offset..offset + 4]))
  }

  /** Rotation component `component` decoded from its raw byte. */
  function RotationComponent(build: Build, raw: Byte, component: nat): (r: Result<Byte, DecodeError>)
  {
    match SubU8(build, raw, 128)
    case Some(n) => Ok(n)
    case None => Err(RotationSubtractOverflow(component))
  }

  /**
   * The record decode `SplatEntry::from_raw_splat_data`, stated by byte
   * offsets: bytes 0-11 position, 12-23 scale, 24-27 colour, 28-31 rotation.
   */
  function DecodeRecord(build: Build, record: seq<Byte>): (r: Result<SplatEntry, DecodeError>)
  {
    if |record| != RecordSize then Err(RecordNot32Bytes(|record|))
    else
      var first :- RotationComponent(build, record[28], 0);
      var second :- RotationComponent(build, record[29], 1);
      var third :- RotationComponent(build, record[30], 2);
      var fourth :- RotationComponent(build, record[31], 3);
      Ok(SplatEntry(
           Vector3(FloatAt(record, 0), FloatAt(record, 4), FloatAt(record, 8)),
           Vector3(FloatAt(record, 12), FloatAt(record, 16), FloatAt(record, 20)),
           Vector4(record[24], record[25], record[26], record[27]),
           Vector4(first, second, third, fourth)))
  }

  /** Three successive `get_f32` calls, as for the position and the scale. */
  method GetVector3F32(buf: Buf) returns (v: Vector3<F32>)
    requires |buf.rest| >= 12
    modifies buf
    ensures v == Vector3(FloatAt(old(buf.rest), 0), FloatAt(old(buf.rest), 4), FloatAt(old(buf.rest), 8))
    ensures buf.rest == old(buf.rest)[12..]
  {
    ghost var start := buf.rest;
    var x := buf.GetF32();
    var y := buf.GetF32();
    assert start[4..][4..] == start[8..] && start[4..][..4] == start[4..8];
    var z := buf.GetF32();
    assert start[8..][4..] == start[12..] && start[8..][..4] == start[8..12];
    v := Vector3(x, y, z);
  }

  /** Four successive `get_u8` calls, as for the colour and the raw rotation. */
  method GetVector4U8(buf: Buf) returns (v: Vector4<Byte>)
    requires |buf.rest| >= 4
    modifies buf
    ensures v == Vector4(old(buf.rest)[0], old(buf.rest)[1], old(buf.rest)[2], old(buf.rest)[3])
    ensures buf.rest == old(buf.rest)[4..]
  {
    ghost var start := buf.rest;
    var x := buf.GetU8();
    var y := buf.GetU8();
    var z := buf.GetU8();
    var w := buf.GetU8();
    assert start[1..][1..][1..][1..] == start[4..];
    v := Vector4(x, y, z, w);
  }

  /** `SplatEntry::from_raw_splat_data`: reads the fields one after another from a `Bytes` cursor. */
  method FromRawSplatData(build: Build, bytes: seq<Byte>) returns (r: Result<SplatEntry, DecodeError>)
    ensures r == DecodeRecord(build, bytes)
  {
    if |bytes| != RecordSize {
      return Err(RecordNot32Bytes(|bytes|));
    }
    var buf := new Buf(bytes);

    var position := GetVector3F32(buf);
    var scale := GetVector3F32(buf);
    assert bytes[12..][0..4] == bytes[12..16] && bytes[12..][4..8] == bytes[16..20]
      && bytes[12..][8..12] == bytes[20..24] && bytes[12..][12..] == bytes[24..];
    var color := GetVector4U8(buf);
    var raw := GetVector4U8(buf);
    assert bytes[24..][4..] == bytes[28..];

    var first :- RotationComponent(build, raw.x, 0);
    var second :- RotationComponent(build, raw.y, 1);
    var third :- RotationComponent(build, raw.z, 2);
    var fourth :- RotationComponent(build, raw.w, 3);
    var rotation := Vector4(first, second, third, fourth);

    return Ok(SplatEntry(position, scale, color, rotation));
  }

  /** The raw rotation byte whose decoded numerator is `numerator`. */
  function RotationByte(numerator: Byte): (raw: Byte)
    ensures SubU8(Release, raw, 128) == Some(numerator)
    ensures numerator < 128 ==> raw >= 128
  {
    (numerator + 128) % 256
  }

  /** The 32 bytes of a record that decodes to `e`. */
  function EncodeRecord(e: SplatEntry): (record: seq<Byte>)
    ensures |record| == RecordSize
  {
    WordBytes(e.position.x.bits) + WordBytes(e.position.y.bits) + WordBytes(e.position.z.bits)
    + WordBytes(e.scale.x.bits) + WordBytes(e.scale.y.bits) + WordBytes(e.scale.z.bits)
    + [e.color.x, e.color.y, e.color.z, e.color.w]
    + [RotationByte(e.rotation.x), RotationByte(e.rotation.y),
       RotationByte(e.rotation.z), RotationByte(e.rotation.w)]
  }

  /** True when every raw rotation byte of a 32-byte record is at least 128. */
  predicate RotationBytesHigh(record: seq<Byte>)
    requires |record| == RecordSize
  {
    record[28] >= 128 && record[29] >= 128 && record[30] >= 128 && record[31] >= 128
  }

  /**
   * When a record decodes: it is 32 bytes long and, in a debug build, no
   * rotation byte lies below 128; the first such byte names the panic.
   */
  lemma DecodeRecordOutcome(build: Build, record: seq<Byte>)
    ensures |record| != RecordSize ==> DecodeRecord(build, record) == Err(RecordNot32Bytes(|record|))
    ensures DecodeRecord(build, record).Ok? <==>
              |record| == RecordSize && (build == Release || RotationBytesHigh(record))
    ensures |record| == RecordSize && build == Debug && !RotationBytesHigh(record) ==>
              var c := if record[28] < 128 then 0 else if record[29] < 128 then 1
                       else if record[30] < 128 then 2 else 3;
              DecodeRecord(build, record) == Err(RotationSubtractOverflow(c))
  {
  }

  /**
   * The fields of a decoded record: each `f32` is the word
   * `b0 * 2^24 + b1 * 2^16 + b2 * 2^8 + b3` of its four bytes, the colour is
   * copied in R, G, B, A order, and each rotation numerator is
   * `raw - 128` modulo 256 (exactly `raw - 128` when `raw >= 128`).
   */
  lemma DecodeRecordFields(build: Build, record: seq<Byte>)
    requires DecodeRecord(build, record).Ok?
    ensures var e := DecodeRecord(build, record).value;
      && e.position.x.bits == BigEndianWord(record[0..4])
      && e.position.y.bits == BigEndianWord(record[4..8])
      && e.position.z.bits == BigEndianWord(record[8..12])
      && e.scale.x.bits == BigEndianWord(record[12..16])
      && e.scale.y.bits == BigEndianWord(record[16..20])
      && e.scale.z.bits == BigEndianWord(record[20..24])
      && e.position.x.bits == record[0] as int * 0x100_0000 + record[1] as int * 0x1_0000 + record[2] as int * 0x100 + record[3]
      && e.color == Vector4(record[24], record[25], record[26], record[27])
      && (e.rotation.x - (record[28] as int - 128)) % 256 == 0
      && (e.rotation.y - (record[29] as int - 128)) % 256 == 0
      && (e.rotation.z - (record[30] as int - 128)) % 256 == 0
      && (e.rotation.w - (record[31] as int - 128)) % 256 == 0
      && (record[28] >= 128 ==> e.rotation.x == record[28] as int - 128 && e.rotation.x < 128)
      && (record[28] < 128 ==> build == Release && e.rotation.x == record[28] as int + 128)
      && (record[29] >= 128 ==> e.rotation.y == record[29] as int - 128 && e.rotation.y < 128)
      && (record[29] < 128 ==> build == Release && e.rotation.y == record[29] as int + 128)
      && (record[30] >= 128 ==> e.rotation.z == record[30] as int - 128 && e.rotation.z < 128)
      && (record[30] < 128 ==> build == Release && e.rotation.z == record[30] as int + 128)
      && (record[31] >= 128 ==> e.rotation.w == record[31] as int - 128 && e.rotation.w < 128)
      && (record[31] < 128 ==> build == Release && e.rotation.w == record[31] as int + 128)
  {
    BigEndianWordBytes(record[0..4]);
  }

  /**
   * The real value `(raw - 128) as f32 / 128f32` of a rotation component
   * whose raw byte is `raw`: `(raw - 128) / 128`, in [0, 1), for a byte of
   * at least 128; for a lower byte (release builds only) the wrapped
   * `(raw + 128) / 128`, in [1, 2).
   */
  lemma RotationComponentValue(build: Build, raw: Byte, component: nat)
    requires RotationComponent(build, raw, component).Ok?
    ensures var v := RotationValue(RotationComponent(build, raw, component).value);
      && (raw >= 128 ==> v == (raw - 128) as real / 128.0 && v < 1.0)
      && (raw < 128 ==> build == Release && v == (raw + 128) as real / 128.0 && 1.0 <= v)
  {
  }

  /** The rotation values of a decoded record, component by component, from bytes 28 to 31. */
  lemma DecodeRecordRotationValues(build: Build, record: seq<Byte>)
    requires DecodeRecord(build, record).Ok?
    ensures |record| == RecordSize
    ensures var rot := DecodeRecord(build, record).value.rotation;
      && rot.x == RotationComponent(build, record[28], 0).value
      && rot.y == RotationComponent(build, record[29], 1).value
      && rot.z == RotationComponent(build, record[30], 2).value
      && rot.w == RotationComponent(build, record[31], 3).value
      && (record[28] >= 128 ==> RotationValue(rot.x) == (record[28] - 128) as real / 128.0)
      && (record[29] >= 128 ==> RotationValue(rot.y) == (record[29] - 128) as real / 128.0)
      && (record[30] >= 128 ==> RotationValue(rot.z) == (record[30] - 128) as real / 128.0)
      && (record[31] >= 128 ==> RotationValue(rot.w) == (record[31] - 128) as real / 128.0)
  {
    RotationComponentValue(build, record[28], 0);
    RotationComponentValue(build, record[29], 1);
    RotationComponentValue(build, record[30], 2);
    RotationComponentValue(build, record[31], 3);
  }

  /** Encoding a splat and decoding the bytes gives the splat back (in a debug build, when every numerator is below 128). */
  lemma {:induction false} DecodeEncodeRecord(build: Build, e: SplatEntry)
    requires build == Debug ==> e.rotation.x < 128 && e.rotation.y < 128 && e.rotation.z < 128 && e.rotation.w < 128
    ensures DecodeRecord(build, EncodeRecord(e)) == Ok(e)
  {
    var b := EncodeRecord(e);
    assert b[0..4] == WordBytes(e.position.x.bits);
    assert b[4..8] == WordBytes(e.position.y.bits);
    assert b[8..12] == WordBytes(e.position.z.bits);
    assert b[12..16] == WordBytes(e.scale.x.bits);
    assert b[16..20] == WordBytes(e.scale.y.bits);
    assert b[20..24] == WordBytes(e.scale.z.bits);
  }

  /** Re-encoding a decoded rotation numerator gives the raw byte back. */
  lemma RotationByteOfComponent(build: Build, raw: Byte, component: nat)
    requires RotationComponent(build, raw, component).Ok?
    ensures RotationByte(RotationComponent(build, raw, component).value) == raw
  {
    if raw < 128 {
      assert RotationComponent(build, raw, component).value == raw + 128;
    }
  }

  /** Two 32-byte records that agree on every field's bytes are equal. */
  lemma EqualByFields(a: seq<Byte>, b: seq<Byte>)
    requires |a| == RecordSize && |b| == RecordSize
    requires a[0..4] == b[0..4] && a[4..8] == b[4..8] && a[8..12] == b[8..12]
    requires a[12..16] == b[12..16] && a[16..20] == b[16..20] && a[20..24] == b[20..24]
    requires a[24..28] == b[24..28] && a[28..32] == b[28..32]
    ensures a == b
  {
    forall k | 0 <= k < RecordSize
      ensures a[k] == b[k]
    {
      var lo := k - k % 4;
      assert a[lo..lo + 4][k - lo] == b[lo..lo + 4][k - lo];
    }
  }

  /** A record that decodes is exactly the encoding of what it decodes to. */
  lemma {:induction false} EncodeDecodeRecord(build: Build, record: seq<Byte>)
    requires DecodeRecord(build, record).Ok?
    ensures EncodeRecord(DecodeRecord(build, record).value) == record
  {
    var e := DecodeRecord(build, record).value;
    var enc := EncodeRecord(e);
    BigEndianWordBytes(record[0..4]);
    BigEndianWordBytes(record[4..8]);
    BigEndianWordBytes(record[8..12]);
    BigEndianWordBytes(record[12..16]);
    BigEndianWordBytes(record[16..20]);
    BigEndianWordBytes(record[20..24]);
    RotationByteOfComponent(build, record[28], 0);
    RotationByteOfComponent(build, record[29], 1);
    RotationByteOfComponent(build, record[30], 2);
    RotationByteOfComponent(build, record[31], 3);
    assert enc[0..4] == WordBytes(e.position.x.bits);
    assert enc[4..8] == WordBytes(e.position.y.bits);
    assert enc[8..12] == WordBytes(e.position.z.bits);
    assert enc[12..16] == WordBytes(e.scale.x.bits);
    assert enc[16..20] == WordBytes(e.scale.y.bits);
    assert enc[20..24] == WordBytes(e.scale.z.bits);
    assert enc[24..28] == record[24..28];
    assert enc[28..32] == record[28..32];
    EqualByFields(enc, record);
  }

  /** The concatenation of a sequence of byte strings. */
  function Concat(cs: seq<seq<Byte>>): seq<Byte>
  {
    if cs == [] then [] else cs[0] + Concat(cs[1..])
  }

  /**
   * `<[u8]>::chunks(32)`: consecutive pieces of 32 bytes, the last one
   * shorter when the length is not a multiple of 32; none for no bytes.
   */
  function Chunks(s: seq<Byte>): (cs: seq<seq<Byte>>)
    ensures Concat(cs) == s
    ensures forall i | 0 <= i < |cs| :: 0 < |cs[i]| <= RecordSize
    ensures forall i | 0 <= i < |cs| - 1 :: |cs[i]| == RecordSize
    ensures |s| % RecordSize == 0 ==> |cs| == |s| / RecordSize && forall i | 0 <= i < |cs| :: |cs[i]| == RecordSize
    decreases |s|
  {
    if |s| == 0 then []
    else if |s| <= RecordSize then [s]
    else [s[..RecordSize]] + Chunks(s[RecordSize..])
  }

  /** The record at index `i` of a file: its bytes `32 * i` up to `32 * i + 32`. */
  function RecordAt(contents: seq<Byte>, i: nat): seq<Byte>
    requires RecordSize * i + RecordSize <= |contents|
  {
    contents[RecordSize * i..RecordSize * i + RecordSize]
  }

  /** When the length is a multiple of 32, chunk `i` is the record at index `i`. */
  lemma {:induction false} ChunkIsRecord(contents: seq<Byte>, i: nat)
    requires |contents| % RecordSize == 0 && i < |contents| / RecordSize
    ensures Chunks(contents)[i] == RecordAt(contents, i)
    decreases |contents|
  {
    if i > 0 {
      var tail := contents[RecordSize..];
      ChunkIsRecord(tail, i - 1);
      assert RecordAt(tail, i - 1) == RecordAt(contents, i);
    }
  }

  /**
   * `collect::<Result<Vec<_>>>()` over results taken in order: every value
   * when all are `Ok`, otherwise the first error.
   */
  function Collect<T, E>(rs: seq<Result<T, E>>): (r: Result<seq<T>, E>)
    ensures r.Ok? <==> forall i | 0 <= i < |rs| :: rs[i].Ok?
    ensures r.Ok? ==> |r.value| == |rs| && forall i | 0 <= i < |rs| :: rs[i] == Ok(r.value[i])
    ensures r.Err? ==> exists i | 0 <= i < |rs| :: rs[i] == Err(r.error) && forall j | 0 <= j < i :: rs[j].Ok?
  {
    if rs == [] then Ok([])
    else
      match rs[0]
      case Err(e) => Err(e)
      case Ok(v) =>
        var rest :- Collect(rs[1..]);
        Ok([v] + rest)
  }

  /** The decodes of the chunks of `contents`, in file order. */
  function ChunkDecodes(build: Build, contents: seq<Byte>): (ds: seq<Result<SplatEntry, DecodeError>>)
  {
    var cs := Chunks(contents);
    seq(|cs|, i requires 0 <= i < |cs| => DecodeRecord(build, cs[i]))
  }

  /** A loaded splat file. */
  datatype SplatFile = SplatFile(splats: seq<SplatEntry>)

  /**
   * Every result `SplatFile::load_from_file` may produce for file contents
   * `contents`: decoding runs on chunks in parallel (`par_bridge`), so the
   * entries come in any order, and any failing chunk may be the one whose
   * error is reported.
   */
  ghost predicate IsLoadOutcome(build: Build, contents: seq<Byte>, r: Result<SplatFile, DecodeError>)
  {
    if |contents| % RecordSize != 0 then r == Err(FileNotMultipleOf32(|contents|))
    else
      var ds := ChunkDecodes(build, contents);
      match Collect(ds)
      case Ok(entries) => r.Ok? && multiset(r.value.splats) == multiset(entries)
      case Err(_) => r.Err? && exists i | 0 <= i < |ds| :: ds[i] == Err(r.error)
  }

  /**
   * `SplatFile::load_from_file` on the bytes of the file, with the chunks
   * decoded in file order: one of the outcomes of `IsLoadOutcome`.
   */
  function LoadFromFile(build: Build, contents: seq<Byte>): (r: Result<SplatFile, DecodeError>)
    ensures IsLoadOutcome(build, contents, r)
  {
    if |contents| % RecordSize != 0 then Err(FileNotMultipleOf32(|contents|))
    else
      var splats :- Collect(ChunkDecodes(build, contents));
      Ok(SplatFile(splats))
  }

  /**
   * What every load outcome is: a bad length is the length error; with a
   * good length no chunk hits the record-size error; a success holds exactly
   * `|contents| / 32` entries, which are the decodes of the records.
   */
  lemma LoadOutcomeShape(build: Build, contents: seq<Byte>, r: Result<SplatFile, DecodeError>)
    requires IsLoadOutcome(build, contents, r)
    ensures |contents| % RecordSize != 0 <==> r == Err(FileNotMultipleOf32(|contents|))
    ensures r.Ok? ==> |r.value.splats| == |contents| / RecordSize
    ensures r.Ok? ==> forall i | 0 <= i < |contents| / RecordSize ::
              DecodeRecord(build, RecordAt(contents, i)).Ok? && DecodeRecord(build, RecordAt(contents, i)).value in r.value.splats
    ensures r.Ok? ==> forall e | e in r.value.splats :: exists i | 0 <= i < |contents| / RecordSize ::
              DecodeRecord(build, RecordAt(contents, i)) == Ok(e)
    ensures r.Err? && |contents| % RecordSize == 0 ==>
              build == Debug && r.error.RotationSubtractOverflow? &&
              exists i | 0 <= i < |contents| / RecordSize :: DecodeRecord(build, RecordAt(contents, i)) == Err(r.error)
  {
    if |contents| % RecordSize == 0 {
      var ds := ChunkDecodes(build, contents);
      var n := |contents| / RecordSize;
      forall i | 0 <= i < n
        ensures ds[i] == DecodeRecord(build, RecordAt(contents, i))
      {
        ChunkIsRecord(contents, i);
      }
      forall i | 0 <= i < n
        ensures ds[i].Err? ==> build == Debug && ds[i].error.RotationSubtractOverflow?
      {
        DecodeRecordOutcome(build, RecordAt(contents, i));
      }
      match Collect(ds)
      case Ok(entries) =>
        if r.Ok? {
          assert |r.value.splats| == |entries| by {
            calc {
              |r.value.splats|;
              |multiset(r.value.splats)|;
              |multiset(entries)|;
              |entries|;
            }
          }
          forall i | 0 <= i < n
            ensures DecodeRecord(build, RecordAt(contents, i)).value in r.value.splats
          {
            assert entries[i] in multiset(entries);
          }
          forall e | e in r.value.splats
            ensures exists i | 0 <= i < n :: DecodeRecord(build, RecordAt(contents, i)) == Ok(e)
          {
            assert e in multiset(entries);
            var i :| 0 <= i < |entries| && entries[i] == e;
            assert ds[i] == Ok(e);
          }
        }
      case Err(_) =>
    }
  }

  /** The entries in any order at all are a possible load outcome, when the file-order load succeeds. */
  lemma AnyOrderIsLoadOutcome(build: Build, contents: seq<Byte>, splats: seq<SplatEntry>)
    requires LoadFromFile(build, contents).Ok?
    ensures IsLoadOutcome(build, contents, Ok(SplatFile(splats))) <==>
              multiset(splats) == multiset(LoadFromFile(build, contents).value.splats)
  {
  }

  /** A release build never fails to load a file whose length is a multiple of 32. */
  lemma ReleaseLoadSucceeds(contents: seq<Byte>, r: Result<SplatFile, DecodeError>)
    requires |contents| % RecordSize == 0
    requires IsLoadOutcome(Release, contents, r)
    ensures r.Ok?
  {
    LoadOutcomeShape(Release, contents, r);
  }

  /** A debug build panics on a file holding a record with a rotation byte below 128. */
  lemma DebugLoadPanicsOnLowRotationByte(contents: seq<Byte>, i: nat, r: Result<SplatFile, DecodeError>)
    requires |contents| % RecordSize == 0 && i < |contents| / RecordSize
    requires !RotationBytesHigh(RecordAt(contents, i))
    requires IsLoadOutcome(Debug, contents, r)
    ensures r.Err? && r.error.RotationSubtractOverflow?
  {
    var ds := ChunkDecodes(Debug, contents);
    ChunkIsRecord(contents, i);
    DecodeRecordOutcome(Debug, RecordAt(contents, i));
    assert ds[i].Err?;
    LoadOutcomeShape(Debug, contents, r);
  }

  /** The bytes of a file holding `entries` in this order. */
  function EncodeFile(entries: seq<SplatEntry>): (contents: seq<Byte>)
    ensures |contents| == RecordSize * |entries|
  {
    if entries == [] then [] else EncodeRecord(entries[0]) + EncodeFile(entries[1..])
  }

  lemma {:induction false} ChunksOfEncodedFile(entries: seq<SplatEntry>)
    ensures Chunks(EncodeFile(entries)) == seq(|entries|, i requires 0 <= i < |entries| => EncodeRecord(entries[i]))
  {
    if entries != [] {
      var head := EncodeRecord(entries[0]);
      var s := EncodeFile(entries);
      assert s[..RecordSize] == head;
      assert s[RecordSize..] == EncodeFile(entries[1..]);
      ChunksOfEncodedFile(entries[1..]);
    }
  }

  /** Results that are all `Ok` collect to their values. */
  lemma CollectAllOk<T, E>(rs: seq<Result<T, E>>, vs: seq<T>)
    requires |rs| == |vs| && forall i | 0 <= i < |rs| :: rs[i] == Ok(vs[i])
    ensures Collect(rs) == Ok(vs)
  {
    var r := Collect(rs);
    assert r.Ok?;
    assert r.value == vs;
  }

  /** Loading the encoding of a list of splats in a release build gives that list back, in order. */
  lemma {:induction false} LoadEncodedFile(entries: seq<SplatEntry>)
    ensures LoadFromFile(Release, EncodeFile(entries)) == Ok(SplatFile(entries))
  {
    var contents := EncodeFile(entries);
    assert |contents| % RecordSize == 0;
    ChunksOfEncodedFile(entries);
    var cs := Chunks(contents);
    var ds := ChunkDecodes(Release, contents);
    assert |ds| == |entries|;
    forall i | 0 <= i < |entries|
      ensures ds[i] == Ok(entries[i])
    {
      assert cs[i] == EncodeRecord(entries[i]);
      DecodeEncodeRecord(Release, entries[i]);
    }
    CollectAllOk(ds, entries);
  }
}
