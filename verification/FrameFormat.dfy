/** What a frame is. `FrameOf` relates a message to its bytes without running any codec; `Decoded` is the function
    decodeAt computes; the two are proved to be the same thing, in both directions. */
module FrameFormat {
  import opened Bytes
  import opened Genome
  import opened AeadModel

  /** A decoded frame: one value per plain field, one per encrypted field, and the payload. */
  datatype Message = Message(plain: seq<Bytes>, encrypted: seq<Bytes>, payload: Bytes)

  // ---- integers ----

  /** encodeInt */
  function IntBytes(v: nat, enc: Encoding, endian: Endian): Result<Bytes> {
    var n := IntWidth(enc);
    if n == 0 then Err(Unsupported)
    else if v >= Pow256(n) then Err(TooLarge)
    else match endian
      case Big => Ok(BigEndian(v, n))
      case Little => Ok(LittleEndian(v, n))
      case NoEndian => Err(Unsupported)
  }

  /** decodeInt */
  function IntValue(b: Bytes, enc: Encoding, endian: Endian): Option<nat> {
    var n := IntWidth(enc);
    if n == 0 || |b| < n then None
    else match endian
      case Big => Some(BigValue(b[..n]))
      case Little => Some(LittleValue(b[..n]))
      case NoEndian => None
  }

  lemma IntRoundTrip(v: nat, enc: Encoding, endian: Endian)
    requires IntBytes(v, enc, endian).Ok?
    ensures |IntBytes(v, enc, endian).value| == IntWidth(enc)
    ensures IntValue(IntBytes(v, enc, endian).value, enc, endian) == Some(v)
  {
    hide LittleEndian, BigEndian, LittleValue, BigValue, Pow256;
    IntegerRoundTrip(v, IntWidth(enc));
    var b := IntBytes(v, enc, endian).value;
    assert b[..|b|] == b;
  }

  /** An integer field holds exactly the values below 2^8, 2^16, 2^24 or 2^32, and needs to know its endianness. */
  lemma IntFits(v: nat, enc: Encoding, endian: Endian)
    ensures IntBytes(v, enc, endian).Ok? <==> (endian != NoEndian
      && match enc
         case U8 => v < 0x100
         case U16 => v < 0x1_0000
         case U24 => v < 0x100_0000
         case U32 => v < 0x1_0000_0000
         case _ => false)
  {
    Pow256Values();
    hide Pow256, BigEndian, LittleEndian;
  }

  // ---- fields ----

  /** v is a value field f can carry. */
  predicate FieldFits(f: FieldSpec, v: Bytes) {
    match f.encoding
    case U8 | U16 | U24 | U32 => |v| == IntWidth(f.encoding)
    case FixedBytes | Raw32 | X963 => 0 < f.size == |v|
    case PrefixedU8 => |v| < 0x100
    case PrefixedU16 => |v| < 0x1_0000
    case OtherEncoding => false
  }

  /** The bytes of value v in field f. */
  function Wire(f: FieldSpec, v: Bytes): Bytes
    requires FieldFits(f, v)
  {
    match f.encoding
    case PrefixedU8 => [|v|] + v
    case PrefixedU16 => BigEndian(|v|, 2) + v
    case _ => v
  }

  ghost predicate Fits(fields: seq<FieldSpec>, values: seq<Bytes>) {
    |fields| == |values| && forall i :: 0 <= i < |fields| ==> FieldFits(fields[i], values[i])
  }

  ghost function WireAll(fields: seq<FieldSpec>, values: seq<Bytes>): Bytes
    requires Fits(fields, values)
  {
    if fields == [] then [] else Wire(fields[0], values[0]) + WireAll(fields[1..], values[1..])
  }

  ghost predicate PlainFits(fields: seq<FieldSpec>, values: seq<Bytes>) {
    |fields| == |values| && forall i :: 0 <= i < |fields| ==> FixedSize(fields[i]) == Ok(|values[i]|)
  }

  /** decodeEncryptedField: the value at the front of buf and the number of bytes it takes. */
  function TakeField(f: FieldSpec, buf: Bytes): Option<(Bytes, nat)> {
    match f.encoding
    case U8 | U16 | U24 | U32 =>
      var n := IntWidth(f.encoding);
      if |buf| < n then None else Some((buf[..n], n))
    case FixedBytes | Raw32 | X963 =>
      if f.size == 0 || |buf| < f.size then None else Some((buf[..f.size], f.size))
    case PrefixedU8 =>
      if |buf| < 1 then None else
        var n: int := buf[0];
        if |buf| < 1 + n then None else Some((buf[1..1 + n], 1 + n))
    case PrefixedU16 =>
      if |buf| < 2 then None else
        var n := BigValue(buf[..2]);
        if |buf| < 2 + n then None else Some((buf[2..2 + n], 2 + n))
    case OtherEncoding => None
  }

  lemma TakeFieldOfWire(f: FieldSpec, v: Bytes, rest: Bytes)
    requires FieldFits(f, v)
    ensures TakeField(f, Wire(f, v) + rest) == Some((v, |Wire(f, v)|))
  {
    var buf := Wire(f, v) + rest;
    if f.encoding == PrefixedU8 {
      assert buf[0] == |v| && buf[1..1 + |v|] == v;
    } else if f.encoding == PrefixedU16 {
      Pow256Values();
      IntegerRoundTrip(|v|, 2);
      assert buf[..2] == BigEndian(|v|, 2) && buf[2..2 + |v|] == v;
    } else {
      assert buf[..|v|] == v;
    }
  }

  lemma WireOfTakeField(f: FieldSpec, buf: Bytes)
    requires TakeField(f, buf).Some?
    ensures var (v, n) := TakeField(f, buf).value;
      FieldFits(f, v) && n == |Wire(f, v)| && n <= |buf| && Wire(f, v) == buf[..n]
  {
    if f.encoding == PrefixedU16 {
      Pow256Values();
      BigUnique(buf[..2]);
      var n := BigValue(buf[..2]);
      assert buf[..2 + n] == buf[..2] + buf[2..2 + n];
    }
  }

  lemma TakeFieldFits(f: FieldSpec, buf: Bytes)
    ensures TakeField(f, buf).Some? ==> TakeField(f, buf).value.1 <= |buf|
  {
  }

  function TakeFields(fields: seq<FieldSpec>, buf: Bytes): Option<(seq<Bytes>, Bytes)> {
    if fields == [] then Some(([], buf)) else
      match TakeField(fields[0], buf)
      case None => None
      case Some((v, n)) =>
        if n > |buf| then None else
          match TakeFields(fields[1..], buf[n..])
          case None => None
          case Some((vs, rest)) => Some(([v] + vs, rest))
  }

  /** Parsing the encrypted section is exactly finding fitting values whose bytes come first. */
  lemma TakeFieldsExact(fields: seq<FieldSpec>, buf: Bytes, vs: seq<Bytes>, rest: Bytes)
    ensures TakeFields(fields, buf) == Some((vs, rest)) <==> Fits(fields, vs) && buf == WireAll(fields, vs) + rest
  {
    if Fits(fields, vs) && buf == WireAll(fields, vs) + rest {
      TakeFieldsOfWire(fields, buf, vs, rest);
    }
    if TakeFields(fields, buf) == Some((vs, rest)) {
      WireOfTakeFields(fields, buf, vs, rest);
    }
  }

  lemma {:induction false} TakeFieldsOfWire(fields: seq<FieldSpec>, buf: Bytes, vs: seq<Bytes>, rest: Bytes)
    requires Fits(fields, vs) && buf == WireAll(fields, vs) + rest
    ensures TakeFields(fields, buf) == Some((vs, rest))
  {
    if fields != [] {
      var w := Wire(fields[0], vs[0]);
      assert buf == w + (WireAll(fields[1..], vs[1..]) + rest);
      TakeFieldOfWire(fields[0], vs[0], WireAll(fields[1..], vs[1..]) + rest);
      assert buf[|w|..] == WireAll(fields[1..], vs[1..]) + rest;
      TakeFieldsOfWire(fields[1..], buf[|w|..], vs[1..], rest);
      assert [vs[0]] + vs[1..] == vs;
    } else {
      assert vs == [] && buf == rest;
    }
  }

  lemma {:induction false} WireOfTakeFields(fields: seq<FieldSpec>, buf: Bytes, vs: seq<Bytes>, rest: Bytes)
    requires TakeFields(fields, buf) == Some((vs, rest))
    ensures Fits(fields, vs) && buf == WireAll(fields, vs) + rest
  {
    if fields != [] {
      WireOfTakeField(fields[0], buf);
      var (v, n) := TakeField(fields[0], buf).value;
      var vs' := TakeFields(fields[1..], buf[n..]).value.0;
      assert vs == [v] + vs' && vs[1..] == vs';
      WireOfTakeFields(fields[1..], buf[n..], vs', rest);
      FitsCons(fields, v, vs');
      WireSplit(Wire(fields[0], v), buf, WireAll(fields[1..], vs'), rest);
    }
  }

  lemma FitsCons(fields: seq<FieldSpec>, v: Bytes, vs: seq<Bytes>)
    requires fields != [] && FieldFits(fields[0], v) && Fits(fields[1..], vs)
    ensures Fits(fields, [v] + vs)
    ensures WireAll(fields, [v] + vs) == Wire(fields[0], v) + WireAll(fields[1..], vs)
  {
    forall i | 0 <= i < |fields| ensures FieldFits(fields[i], ([v] + vs)[i]) {
      if i > 0 {
        assert fields[i] == fields[1..][i - 1];
      }
    }
    assert ([v] + vs)[1..] == vs;
  }

  lemma WireSplit(w: Bytes, buf: Bytes, mid: Bytes, rest: Bytes)
    requires w <= buf && buf[|w|..] == mid + rest
    ensures buf == (w + mid) + rest
  {
    assert buf == w + buf[|w|..];
  }

  function TakePlain(fields: seq<FieldSpec>, buf: Bytes): Option<seq<Bytes>> {
    if fields == [] then Some([]) else
      match FixedSize(fields[0])
      case Err(_) => None
      case Ok(n) =>
        if n > |buf| then None else
          match TakePlain(fields[1..], buf[n..])
          case None => None
          case Some(vs) => Some([buf[..n]] + vs)
  }

  lemma {:induction false} TakePlainExact(fields: seq<FieldSpec>, buf: Bytes, vs: seq<Bytes>)
    ensures TakePlain(fields, buf) == Some(vs) <==> PlainFits(fields, vs) && Flatten(vs) <= buf
    ensures PlainFits(fields, vs) ==> |Flatten(vs)| == PlainSize(fields)
  {
    if fields != [] {
      if FixedSize(fields[0]).Ok? && FixedSize(fields[0]).value <= |buf| && vs != [] {
        var n := FixedSize(fields[0]).value;
        TakePlainExact(fields[1..], buf[n..], vs[1..]);
        assert vs == [vs[0]] + vs[1..];
        if PlainFits(fields, vs) && Flatten(vs) <= buf {
          assert buf[..n] == vs[0];
        }
        if TakePlain(fields, buf) == Some(vs) {
          assert Flatten(vs[1..]) <= buf[n..];
          assert buf == buf[..n] + buf[n..];
        }
      } else if PlainFits(fields, vs) {
        TakePlainExact(fields[1..], [], vs[1..]);
      }
    }
  }

  // ---- the length field and the padding length ----

  function FirstOfKind(fields: seq<FieldSpec>, kind: Kind): (i: nat)
    ensures i <= |fields| && (i < |fields| ==> fields[i].kind == kind)
    ensures forall j :: 0 <= j < i ==> fields[j].kind != kind
  {
    if fields == [] || fields[0].kind == kind then 0 else
      var r := FirstOfKind(fields[1..], kind);
      assert forall j :: 1 <= j < 1 + r ==> fields[j] == fields[1..][j - 1];
      1 + r
  }

  /** FieldValue.Uint, which turns a decoding error into 0. */
  function Uint(f: FieldSpec, v: Bytes): nat {
    match IntValue(v, f.encoding, f.endian)
    case Some(n) => n
    case None => 0
  }

  /** Message.Find(pad_length).Uint(), or 0 when the message has no such field. */
  function PadValue(spec: MessageSpec, plain: seq<Bytes>, encrypted: seq<Bytes>): nat
    requires |plain| == |spec.plain| && |encrypted| == |spec.encrypted|
  {
    var i, j := FirstOfKind(spec.plain, PadLen), FirstOfKind(spec.encrypted, PadLen);
    if i < |spec.plain| then Uint(spec.plain[i], plain[i])
    else if j < |spec.encrypted| then Uint(spec.encrypted[j], encrypted[j])
    else 0
  }

  /** A padding length without endianness reads as 0, if the header has none: the padding then counts as payload. */
  lemma UnreadPadding(spec: MessageSpec, plain: seq<Bytes>, encrypted: seq<Bytes>)
    requires |plain| == |spec.plain| && |encrypted| == |spec.encrypted|
    requires FirstOfKind(spec.plain, PadLen) == |spec.plain|
    requires var j := FirstOfKind(spec.encrypted, PadLen); j < |spec.encrypted| ==> spec.encrypted[j].endian == NoEndian
    ensures PadValue(spec, plain, encrypted) == 0
  {
  }

  /** The length a header declares for the whole frame, None when its length field does not decode;
      a message without a length field declares whatever length it has. */
  function DeclaredTotal(spec: MessageSpec, plain: seq<Bytes>, actual: nat): Option<nat>
    requires |plain| == |spec.plain|
  {
    if !(0 <= spec.lengthIndex < |spec.plain|) then Some(actual) else
      var f := spec.plain[spec.lengthIndex];
      match IntValue(plain[spec.lengthIndex], f.encoding, f.endian)
      case None => None
      case Some(n) =>
        match f.subject
        case Ciphertext => Some(PlainSize(spec.plain) + n)
        case Record => Some(n)
        case NoSubject => None
  }

  // ---- frames ----

  /** frame carries message m with padding pad, sealed under nonce. */
  ghost predicate FrameOf(spec: MessageSpec, aead: Aead, nonce: Bytes, m: Message, pad: Bytes, frame: Bytes) {
    && PlainFits(spec.plain, m.plain)
    && Fits(spec.encrypted, m.encrypted)
    && |pad| == PadValue(spec, m.plain, m.encrypted)
    && (!spec.hasPayload ==> m.payload == [])
    && frame == Flatten(m.plain) + aead.seal(nonce, Flatten(m.plain), Plaintext(spec, m, pad))
    && DeclaredTotal(spec, m.plain, |frame|) == Some(|frame|)
  }

  ghost function Plaintext(spec: MessageSpec, m: Message, pad: Bytes): Bytes
    requires Fits(spec.encrypted, m.encrypted)
  {
    WireAll(spec.encrypted, m.encrypted) + (m.payload + pad)
  }

  /** decodeAt after the AEAD has opened the ciphertext to pt. */
  function ParsePlaintext(spec: MessageSpec, plain: seq<Bytes>, pt: Bytes): Option<Message>
    requires |plain| == |spec.plain|
  {
    match TakeFields(spec.encrypted, pt)
    case None => None
    case Some((values, tail)) =>
      if |values| != |spec.encrypted| then None else
        var pad := PadValue(spec, plain, values);
        if pad > |tail| then None
        else if !spec.hasPayload && pad != |tail| then None
        else Some(Message(plain, values, tail[..|tail| - pad]))
  }

  /** decodeAt: the message a frame decodes to under one nonce. */
  function Decoded(spec: MessageSpec, aead: Aead, nonce: Bytes, frame: Bytes): Option<Message> {
    match TakePlain(spec.plain, frame)
    case None => None
    case Some(plain) =>
      var off := PlainSize(spec.plain);
      if |plain| != |spec.plain| || off > |frame| || DeclaredTotal(spec, plain, |frame|) != Some(|frame|) then None else
        match aead.open(nonce, frame[..off], frame[off..])
        case None => None
        case Some(pt) => ParsePlaintext(spec, plain, pt)
  }

  lemma DecodedShape(spec: MessageSpec, aead: Aead, nonce: Bytes, frame: Bytes)
    ensures match Decoded(spec, aead, nonce, frame)
      case None => true
      case Some(m) => |m.plain| == |spec.plain| && |m.encrypted| == |spec.encrypted|
  {
  }

  /** Decoding is exact: a frame decodes to m under a nonce if and only if it is a frame of m under that nonce.
      The left-to-right half says the decoder accepts nothing else, the other half is the round trip. */
  lemma DecodeExact(spec: MessageSpec, aead: Aead, nonce: Bytes, m: Message, frame: Bytes)
    requires Correct(aead)
    ensures Decoded(spec, aead, nonce, frame) == Some(m) <==> exists pad :: FrameOf(spec, aead, nonce, m, pad, frame)
  {
    if pad :| FrameOf(spec, aead, nonce, m, pad, frame) {
      DecodeFrame(spec, aead, nonce, m, pad, frame);
    }
    if Decoded(spec, aead, nonce, frame) == Some(m) {
      var pad := FrameOfDecoded(spec, aead, nonce, m, frame);
    }
  }

  lemma DecodeFrame(spec: MessageSpec, aead: Aead, nonce: Bytes, m: Message, pad: Bytes, frame: Bytes)
    requires Correct(aead) && FrameOf(spec, aead, nonce, m, pad, frame)
    ensures Decoded(spec, aead, nonce, frame) == Some(m)
  {
    var header, pt := Flatten(m.plain), Plaintext(spec, m, pad);
    TakePlainExact(spec.plain, frame, m.plain);
    assert frame[..|header|] == header && frame[|header|..] == aead.seal(nonce, header, pt);
    assert aead.open(nonce, header, frame[|header|..]) == Some(pt);
    TakeFieldsExact(spec.encrypted, pt, m.encrypted, m.payload + pad);
    assert (m.payload + pad)[..|m.payload|] == m.payload;
  }

  lemma FrameOfDecoded(spec: MessageSpec, aead: Aead, nonce: Bytes, m: Message, frame: Bytes) returns (pad: Bytes)
    requires Correct(aead) && Decoded(spec, aead, nonce, frame) == Some(m)
    ensures FrameOf(spec, aead, nonce, m, pad, frame)
  {
    hide TakePlain, TakeFields, PlainFits, Fits, WireAll, PadValue, DeclaredTotal;
    var off := PlainSize(spec.plain);
    TakePlainExact(spec.plain, frame, m.plain);
    assert frame == frame[..off] + frame[off..];
    assert Flatten(m.plain) == frame[..off];
    var pt := aead.open(nonce, frame[..off], frame[off..]).value;
    assert frame[off..] == aead.seal(nonce, frame[..off], pt);
    var (values, tail) := TakeFields(spec.encrypted, pt).value;
    TakeFieldsExact(spec.encrypted, pt, values, tail);
    pad := tail[|m.payload|..];
    assert tail == m.payload + pad;
  }

  // ---- header parsing, field by field ----

  /** The value of the length field, when there is one and it decodes. */
  function DeclaredLength(spec: MessageSpec, plain: seq<Bytes>): Option<nat>
    requires |plain| == |spec.plain|
  {
    if !(0 <= spec.lengthIndex < |spec.plain|) then None else
      var f := spec.plain[spec.lengthIndex];
      IntValue(plain[spec.lengthIndex], f.encoding, f.endian)
  }

  function Prepend(front: seq<Bytes>, r: Option<seq<Bytes>>): Option<seq<Bytes>> {
    match r case None => None case Some(vs) => Some(front + vs)
  }

  lemma Prepends(fields: seq<FieldSpec>, buf: Bytes)
    ensures TakePlain(fields, buf) == Prepend([], TakePlain(fields, buf))
  {
    match TakePlain(fields, buf)
    case None =>
    case Some(vs) => assert [] + vs == vs;
  }

  lemma PrependStep(front: seq<Bytes>, v: Bytes, r: Option<seq<Bytes>>)
    ensures Prepend(front, Prepend([v], r)) == Prepend(front + [v], r)
  {
    match r
    case None =>
    case Some(vs) => assert front + ([v] + vs) == (front + [v]) + vs;
  }

  lemma HeaderFits(fields: seq<FieldSpec>, frame: Bytes)
    ensures TakePlain(fields, frame).Some? ==>
      |TakePlain(fields, frame).value| == |fields| && PlainSize(fields) <= |frame|
  {
    match TakePlain(fields, frame)
    case None =>
    case Some(plain) => TakePlainExact(fields, frame, plain);
  }
}
