/** What the encoders make of the bytes of a random source, as functions: the result, and the bytes left in the source.
    Every random byte of a frame is the next one of the source. */
module EncodingDraws {
  import opened Bytes
  import opened Genome
  import opened AeadModel
  import opened FrameFormat
  import opened EncodingRules

  /** A result, and what is left of the source. */
  type Drawn<T> = (Result<T>, Bytes)

  function BytesFrom(src: Bytes, n: nat): Drawn<Bytes> {
    if n <= |src| then (Ok(src[..n]), src[n..]) else (Err(ShortRead), [])
  }

  /** randInt: eight bytes, big-endian, reduced. */
  function IntFrom(src: Bytes, n: nat): (r: Drawn<nat>)
    ensures r.0.Ok? && n > 0 ==> r.0.value < n
    ensures r.0.Ok? || r.0.error == ShortRead
  {
    if n == 0 then (Ok(0), src)
    else if |src| < 8 then (Err(ShortRead), [])
    else (Ok(BigValue(src[..8]) % n), src[8..])
  }

  function RangeFrom(src: Bytes, lo: nat, hi: nat): (r: Drawn<nat>)
    ensures r.0.Ok? || r.0.error == ShortRead
    ensures r.0.Ok? ==> lo <= r.0.value && (r.0.value <= hi || r.0.value == lo)
  {
    if hi <= lo then (Ok(lo), src) else
      match IntFrom(src, hi - lo + 1)
      case (Ok(x), rest) => (Ok(lo + x), rest)
      case (Err(e), rest) => (Err(e), rest)
  }

  /** choosePadding */
  function PaddingFrom(src: Bytes, p: PaddingPolicy): (r: Drawn<nat>)
    requires p.mode in {Uniform, Burst} ==> 0 <= p.min <= p.max
  {
    match p.mode
    case NoPadding => (Ok(0), src)
    case Uniform => RangeFrom(src, p.min, p.max)
    case Burst =>
      (match IntFrom(src, 100)
       case (Ok(x), rest) => if x < 20 then RangeFrom(rest, p.min, p.max) else (Ok(0), rest)
       case (Err(e), rest) => (Err(e), rest))
    case OtherMode => (Err(Unsupported), src)
  }

  // ---- encrypted fields ----

  function KeyFrom(src: Bytes, f: FieldSpec, key: Option<Bytes>): Drawn<Bytes> {
    var (raw, rest) := if key.Some? then (Ok(key.value), src) else BytesFrom(src, 32);
    match raw
    case Err(e) => (Err(e), rest)
    case Ok(k) =>
      if f.encoding == Raw32 && |k| == 32 then (Ok(k), rest)
      else if f.encoding == X963 && |k| == 32 then (Ok([4] + k), rest)
      else if f.encoding == X963 && |k| == 33 then (Ok(k), rest)
      else (Err(Unsupported), rest)
  }

  /** A length drawn from the range of the field, and so many bytes behind it. */
  function PrefixedFrom(src: Bytes, f: FieldSpec): Drawn<Bytes> {
    match RangeFrom(src, f.minSize, f.maxSize)
    case (Err(e), rest) => (Err(e), rest)
    case (Ok(n), rest) =>
      match BytesFrom(rest, n)
      case (Err(e), left) => (Err(e), left)
      case (Ok(b), left) => (Ok((if f.encoding == PrefixedU8 then [n % 256] else BigEndian(n, 2)) + b), left)
  }

  function FieldFrom(src: Bytes, f: FieldSpec, padLen: nat, key: Option<Bytes>): Drawn<Bytes> {
    if f.kind == PadLen then (IntBytes(padLen, f.encoding, f.endian), src)
    else if f.kind == Key then KeyFrom(src, f, key)
    else match f.encoding
      case FixedBytes => BytesFrom(src, f.size)
      case PrefixedU8 | PrefixedU16 => PrefixedFrom(src, f)
      case _ => (Err(Unsupported), src)
  }

  /** The bytes of the fields, one after the other. */
  function FieldsFrom(src: Bytes, fields: seq<FieldSpec>, padLen: nat, key: Option<Bytes>): Drawn<Bytes>
    decreases |fields|
  {
    if fields == [] then (Ok([]), src) else
      match FieldsFrom(src, fields[..|fields| - 1], padLen, key)
      case (Err(e), rest) => (Err(e), rest)
      case (Ok(body), rest) =>
        match FieldFrom(rest, fields[|fields| - 1], padLen, key)
        case (Err(e), left) => (Err(e), left)
        case (Ok(b), left) => (Ok(body + b), left)
  }

  lemma FieldsStart(src: Bytes, fields: seq<FieldSpec>, padLen: nat, key: Option<Bytes>)
    ensures FieldsFrom(src, fields[..0], padLen, key) == (Ok([]), src)
  {
  }

  lemma FieldsStep(src: Bytes, fields: seq<FieldSpec>, i: nat, padLen: nat, key: Option<Bytes>)
    requires i < |fields|
    ensures FieldsFrom(src, fields[..i + 1], padLen, key) ==
      match FieldsFrom(src, fields[..i], padLen, key)
      case (Err(e), rest) => (Err(e), rest)
      case (Ok(body), rest) =>
        match FieldFrom(rest, fields[i], padLen, key)
        case (Err(e), left) => (Err(e), left)
        case (Ok(b), left) => (Ok(body + b), left)
  {
    hide FieldFrom;
    assert fields[..i + 1][..i] == fields[..i];
  }

  /** Once a field fails, so does the section, and nothing more is read. */
  lemma {:induction false} FieldsFail(src: Bytes, fields: seq<FieldSpec>, i: nat, padLen: nat, key: Option<Bytes>)
    requires i <= |fields| && FieldsFrom(src, fields[..i], padLen, key).0.Err?
    ensures FieldsFrom(src, fields, padLen, key) == FieldsFrom(src, fields[..i], padLen, key)
    decreases |fields| - i
  {
    if i == |fields| {
      assert fields[..i] == fields;
    } else {
      FieldsStep(src, fields, i, padLen, key);
      FieldsFail(src, fields, i + 1, padLen, key);
    }
  }

  // ---- header ----

  function PlainFieldFrom(src: Bytes, f: FieldSpec): Drawn<Bytes> {
    match f.kind
    case Version | Type => (if f.constant.Some? then Ok(f.constant.value) else Err(Malformed), src)
    case Nonce => BytesFrom(src, f.size)
    case Reserved =>
      if f.source == Random then BytesFrom(src, f.size)
      else (if f.constant.Some? then Ok(f.constant.value) else Err(Malformed), src)
    case _ => (Err(Unsupported), src)
  }

  /** The first n plain fields, `length` standing in the length field. */
  function HeaderFrom(src: Bytes, spec: MessageSpec, length: nat, n: nat): Drawn<Bytes>
    requires n <= |spec.plain|
  {
    if n == 0 then (Ok([]), src) else
      match HeaderFrom(src, spec, length, n - 1)
      case (Err(e), rest) => (Err(e), rest)
      case (Ok(out), rest) =>
        var f := spec.plain[n - 1];
        var (b, left) := if n - 1 == spec.lengthIndex then (IntBytes(length, f.encoding, f.endian), rest)
                         else PlainFieldFrom(rest, f);
        match b
        case Err(e) => (Err(e), left)
        case Ok(v) => if FixedSize(f) == Ok(|v|) then (Ok(out + v), left) else (Err(Malformed), left)
  }

  lemma HeaderStart(src: Bytes, spec: MessageSpec, length: nat)
    ensures HeaderFrom(src, spec, length, 0) == (Ok([]), src)
  {
  }

  lemma HeaderStep(src: Bytes, spec: MessageSpec, length: nat, i: nat)
    requires i < |spec.plain|
    ensures HeaderFrom(src, spec, length, i + 1) ==
      match HeaderFrom(src, spec, length, i)
      case (Err(e), rest) => (Err(e), rest)
      case (Ok(out), rest) =>
        var f := spec.plain[i];
        var (b, left) := if i == spec.lengthIndex then (IntBytes(length, f.encoding, f.endian), rest)
                         else PlainFieldFrom(rest, f);
        match b
        case Err(e) => (Err(e), left)
        case Ok(v) => if FixedSize(f) == Ok(|v|) then (Ok(out + v), left) else (Err(Malformed), left)
  {
  }

  lemma {:induction false} HeaderFails(src: Bytes, spec: MessageSpec, length: nat, i: nat)
    requires i <= |spec.plain| && HeaderFrom(src, spec, length, i).0.Err?
    ensures HeaderFrom(src, spec, length, |spec.plain|) == HeaderFrom(src, spec, length, i)
    decreases |spec.plain| - i
  {
    if i < |spec.plain| { HeaderFails(src, spec, length, i + 1); }
  }

  // ---- frames ----

  /** Payload, padding, header and seal around a finished encrypted section. */
  ghost function SealedFrom(src: Bytes, spec: MessageSpec, aead: Aead, nonce: Bytes, body: Bytes, payload: Bytes,
                            padLen: nat): Drawn<Bytes>
    requires 0 <= spec.lengthIndex < |spec.plain|
  {
    match BytesFrom(src, padLen)
    case (Err(e), rest) => (Err(e), rest)
    case (Ok(pad), rest) =>
      var n := |body| + |payload| + padLen + TAG_SIZE;
      match HeaderFrom(rest, spec, LengthSubject(spec, PlainSize(spec.plain) + n, n), |spec.plain|)
      case (Err(e), left) => (Err(e), left)
      case (Ok(header), left) =>
        var sealed := aead.seal(nonce, header, body + payload + pad);
        (if |sealed| == n then Ok(header + sealed) else Err(Rejected), left)
  }

  /** A frame with a given padding length. */
  ghost function PaddedFrom(src: Bytes, spec: MessageSpec, aead: Aead, nonce: Bytes, payload: Bytes, key: Option<Bytes>,
                            padLen: nat): Drawn<Bytes>
    requires 0 <= spec.lengthIndex < |spec.plain|
  {
    match FieldsFrom(src, spec.encrypted, padLen, key)
    case (Err(e), rest) => (Err(e), rest)
    case (Ok(body), rest) => SealedFrom(rest, spec, aead, nonce, body, payload, padLen)
  }

  /** Encode: the padding length is drawn first. */
  ghost function FrameFrom(src: Bytes, spec: MessageSpec, aead: Aead, nonce: Bytes, payload: Bytes, key: Option<Bytes>)
    : Drawn<Bytes>
    requires Validated(spec)
  {
    if !spec.hasPayload && payload != [] then (Err(NoPayload), src) else
      match PaddingFrom(src, spec.padding)
      case (Err(e), rest) => (Err(e), rest)
      case (Ok(padLen), rest) => PaddedFrom(rest, spec, aead, nonce, payload, key, padLen)
  }

  /** A packet whose padding length has been raised: everything is drawn as for the padding length first drawn. */
  ghost function PacketFrom(src: Bytes, spec: MessageSpec, aead: Aead, nonce: Bytes, payload: Bytes, key: Option<Bytes>,
                            padLen: nat): Drawn<Bytes>
    requires Validated(spec)
  {
    match PaddingFrom(src, spec.padding)
    case (Err(e), rest) => (Err(e), rest)
    case (Ok(_), rest) => PaddedFrom(rest, spec, aead, nonce, payload, key, padLen)
  }

  // ---- patching the padding length ----

  /** Where no field is a pad_length field, the padding length does not matter. */
  lemma {:induction false} NoPadField(src: Bytes, fields: seq<FieldSpec>, a: nat, b: nat, key: Option<Bytes>)
    requires forall i :: 0 <= i < |fields| ==> fields[i].kind != PadLen
    ensures FieldsFrom(src, fields, a, key) == FieldsFrom(src, fields, b, key)
    decreases |fields|
  {
    if fields != [] { NoPadField(src, fields[..|fields| - 1], a, b, key); }
  }

  /** The bytes before the pad_length field. */
  function BeforePad(src: Bytes, fields: seq<FieldSpec>, k: nat, padLen: nat, key: Option<Bytes>): nat
    requires k < |fields|
  {
    match FieldsFrom(src, fields[..k], padLen, key).0
    case Ok(body) => |body|
    case Err(_) => 0
  }

  /** Shaping a section. */
  lemma RepaddedSection(spec: MessageSpec, src: Bytes, a: nat, b: nat, key: Option<Bytes>)
    requires Validated(spec) && FieldsFrom(src, spec.encrypted, a, key).0.Ok?
    requires var k := FirstOfKind(spec.encrypted, PadLen);
      k < |spec.encrypted| && IntBytes(b, spec.encrypted[k].encoding, spec.encrypted[k].endian).Ok?
    ensures var (body, rest) := FieldsFrom(src, spec.encrypted, a, key);
      var k := FirstOfKind(spec.encrypted, PadLen);
      var f, off := spec.encrypted[k], BeforePad(src, spec.encrypted, k, a, key);
      var enc := IntBytes(b, f.encoding, f.endian).value;
      && off + |enc| <= |body.value|
      && FieldsFrom(src, spec.encrypted, b, key) == (Ok(body.value[..off] + enc + body.value[off + |enc|..]), rest)
  {
    hide FieldsFrom, BeforePad, EncryptedAdmitted, PlainAdmitted, IntBytes;
    var k := FirstOfKind(spec.encrypted, PadLen);
    var f := spec.encrypted[k];
    var i :| 0 <= i < |spec.encrypted| && OnlyPadLen(spec.encrypted, i);
    assert i == k;
    Repadded(src, spec.encrypted, k, a, b, key);
    IntRoundTrip(a, f.encoding, f.endian);
    IntRoundTrip(b, f.encoding, f.endian);
  }

  lemma Spliced(pre: Bytes, last: Bytes, off: nat, end: nat, enc: Bytes)
    requires off <= end <= |pre|
    ensures (pre + last)[..off] + enc + (pre + last)[end..] == pre[..off] + enc + pre[end..] + last
  {
  }

  /** Overwriting the pad_length bytes of a section with those of another length, of the same width, gives the section
      that the same source makes for that length. */
  lemma {:induction false} Repadded(src: Bytes, fields: seq<FieldSpec>, k: nat, a: nat, b: nat, key: Option<Bytes>)
    requires OnlyPadLen(fields, k) && FieldsFrom(src, fields, a, key).0.Ok?
    requires IntBytes(b, fields[k].encoding, fields[k].endian).Ok?
    ensures var (body, rest) := FieldsFrom(src, fields, a, key);
      var f, off := fields[k], BeforePad(src, fields, k, a, key);
      && IntBytes(a, f.encoding, f.endian).Ok?
      && var was, enc := IntBytes(a, f.encoding, f.endian).value, IntBytes(b, f.encoding, f.endian).value;
      && off + |was| <= |body.value|
      && FieldsFrom(src, fields, b, key) == (Ok(body.value[..off] + enc + body.value[off + |was|..]), rest)
    decreases |fields|
  {
    hide IntBytes, KeyFrom, PrefixedFrom;
    var n := |fields| - 1;
    var front := fields[..n];
    var pre := FieldsFrom(src, front, a, key).0.value;
    var enc := IntBytes(b, fields[k].encoding, fields[k].endian).value;
    if k == n {
      NoPadField(src, front, a, b, key);
      var body := FieldsFrom(src, fields, a, key).0.value;
      assert body[..|pre|] + enc + body[|body|..] == pre + enc;
    } else {
      assert front[..k] == fields[..k];
      assert OnlyPadLen(front, k);
      Repadded(src, front, k, a, b, key);
      var last := FieldFrom(FieldsFrom(src, front, a, key).1, fields[n], a, key).0.value;
      var off := BeforePad(src, fields, k, a, key);
      var end := off + |IntBytes(a, fields[k].encoding, fields[k].endian).value|;
      Spliced(pre, last, off, end, enc);
    }
  }
}
