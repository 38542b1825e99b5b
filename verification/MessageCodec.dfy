/** The codec object: one layout, one direction, one key. Stream mode numbers frames in order; packet mode accepts
    them out of order through a window of 8192 sequence numbers. */
module MessageCodecs {
  import opened Bytes
  import opened Words
  import opened Genome
  import opened AeadModel
  import opened FrameFormat
  import opened ReplayWindow
  import opened Sequence
  import opened EncodingRules
  import opened EncodingDraws
  import opened Framing

  class MessageCodec {
    const spec: MessageSpec
    const aead: Aead
    const packetMode: bool
    // stream mode
    var seqNo: nat
    const seen: SeenWindow
    // packet mode
    var packetSend: nat
    var packetBase: nat
    const packetSeen: array<Word>
    var shapeBuckets: seq<nat>

    ghost predicate Valid()
      reads this, seen, packetSeen
    {
      && Validated(spec)
      && packetSeen.Length == WINDOW_WORDS
      && packetBase !in PacketState().seen
      && seen.base !in seen.Abstract().seen
    }

    ghost function PacketState(): Window
      reads this, packetSeen
    {
      Window(packetBase, Marked(packetSeen[..], packetBase))
    }

    /** A codec over a layout that passed the static check, with empty windows. */
    constructor (spec: MessageSpec, aead: Aead, packetMode: bool)
      requires Validated(spec)
      ensures Valid() && fresh(seen) && fresh(packetSeen)
      ensures this.spec == spec && this.aead == aead && this.packetMode == packetMode
      ensures seqNo == 0 && packetSend == 0 && shapeBuckets == []
      ensures PacketState() == seen.Abstract() == Window(0, {})
    {
      this.spec, this.aead, this.packetMode := spec, aead, packetMode;
      seqNo, packetSend, packetBase, shapeBuckets := 0, 0, 0, [];
      seen := new SeenWindow();
      packetSeen := new Word[WINDOW_WORDS](_ => 0);
      new;
      MarkedZero(packetSeen[..], 0);
    }

    // ---- decoding ----

    /** decodeAt: parse and authenticate one complete frame under one nonce. */
    method DecodeAt(frame: Bytes, nonce: Bytes) returns (r: Result<Message>)
      ensures match Decoded(spec, aead, nonce, frame) case Some(m) => r == Ok(m) case None => r.Err?
    {
      HeaderFits(spec.plain, frame);
      if |frame| < PlainSize(spec.plain) {
        return Err(Malformed);
      }
      var plain, declared :- SplitHeader(spec, frame);
      var off := PlainSize(spec.plain);
      var ciphertext := frame[off..];
      if declared.Some? {
        match spec.plain[spec.lengthIndex].subject {
          case Ciphertext => if declared.value != |ciphertext| { return Err(Malformed); }
          case Record => if declared.value != |frame| { return Err(Malformed); }
          case NoSubject => return Err(Unsupported);
        }
      }
      var pt := aead.open(nonce, frame[..off], ciphertext);
      if pt.None? {
        return Err(Unauthentic);
      }
      r := ParseOpened(plain, pt.value);
    }

    /** The second half of decodeAt: encrypted fields, then payload and padding. */
    method ParseOpened(plain: seq<Bytes>, pt: Bytes) returns (r: Result<Message>)
      requires |plain| == |spec.plain|
      ensures match ParsePlaintext(spec, plain, pt) case Some(m) => r == Ok(m) case None => r.Err?
    {
      hide FieldFits, Wire, PadValue, TakeField, BigEndian, BigValue;
      var values: seq<Bytes> := [];
      var eo: nat := 0;
      assert spec.encrypted[0..] == spec.encrypted && pt[0..] == pt;
      assert forall vs: seq<Bytes> :: values + vs == vs;
      for i := 0 to |spec.encrypted|
        invariant |values| == i && eo <= |pt|
        invariant TakeFields(spec.encrypted, pt) == match TakeFields(spec.encrypted[i..], pt[eo..])
                                                      case None => None
                                                      case Some((vs, rest)) => Some((values + vs, rest))
      {
        var f := spec.encrypted[i];
        assert spec.encrypted[i..][0] == f && spec.encrypted[i..][1..] == spec.encrypted[i + 1..];
        var field := TakeField(f, pt[eo..]);
        if field.None? {
          return Err(Malformed);
        }
        var (v, n) := field.value;
        TakeFieldFits(f, pt[eo..]);
        assert pt[eo..][n..] == pt[eo + n..];
        assert forall vs: seq<Bytes> :: values + ([v] + vs) == (values + [v]) + vs;
        values := values + [v];
        eo := eo + n;
      }
      assert spec.encrypted[|spec.encrypted|..] == [];
      assert values + [] == values;
      var padLen := PadValue(spec, plain, values);
      if eo + padLen > |pt| {
        return Err(Malformed);
      }
      var payloadLen := |pt| - eo - padLen;
      if !spec.hasPayload && payloadLen != 0 {
        return Err(NoPayload);
      }
      assert pt[eo..][..payloadLen] == pt[eo..eo + payloadLen];
      return Ok(Message(plain, values, pt[eo..eo + payloadLen]));
    }

    // ---- encoding ----

    /** randInt: 8 random bytes, reduced. */
    method RandInt(rnd: Reader, n: nat) returns (r: Result<nat>)
      modifies rnd
      ensures r.Ok? ==> (if n == 0 then r.value == 0 else r.value < n)
      ensures r.Err? ==> r.error == ShortRead
      ensures (r, rnd.data) == IntFrom(old(rnd.data), n)
    {
      if n == 0 {
        return Ok(0);
      }
      var b :- rnd.ReadFull(8);
      return Ok(BigValue(b) % n);
    }

    method RandIntRange(rnd: Reader, lo: nat, hi: nat) returns (r: Result<nat>)
      modifies rnd
      ensures r.Ok? ==> lo <= r.value && (r.value <= hi || r.value == lo)
      ensures r.Err? ==> r.error == ShortRead
      ensures (r, rnd.data) == RangeFrom(old(rnd.data), lo, hi)
    {
      if hi <= lo {
        return Ok(lo);
      }
      var x :- RandInt(rnd, hi - lo + 1);
      return Ok(lo + x);
    }

    /** choosePadding */
    method ChoosePadding(rnd: Reader) returns (r: Result<nat>)
      requires Validated(spec)
      modifies rnd
      ensures r.Ok? ==> PaddingDraw(spec.padding, r.value) && r.value <= MaxPadding(spec.padding)
      ensures r.Err? ==> r.error == ShortRead
      ensures (r, rnd.data) == PaddingFrom(old(rnd.data), spec.padding)
    {
      match spec.padding.mode {
        case NoPadding =>
          return Ok(0);
        case Uniform =>
          r := RandIntRange(rnd, spec.padding.min, spec.padding.max);
        case Burst =>
          var x :- RandInt(rnd, 100);
          if x < 20 {
            r := RandIntRange(rnd, spec.padding.min, spec.padding.max);
          } else {
            return Ok(0);
          }
      }
    }

    /** The key_material case of encodeEncryptedField: the injected key, or random bytes. */
    method EncodeKey(f: FieldSpec, key: Option<Bytes>, rnd: Reader) returns (r: Result<Bytes>)
      modifies rnd
      ensures r.Ok? ==> f.encoding in {Raw32, X963} && |r.value| == (if f.encoding == Raw32 then 32 else 33)
      ensures r.Ok? && key.Some? ==> r.value == KeyForm(f, key.value)
      ensures r.Err? && r.error != ShortRead ==>
        !(f.encoding in {Raw32, X963} && (key.Some? ==> |key.value| == 32 || (f.encoding == X963 && |key.value| == 33)))
      ensures (r, rnd.data) == KeyFrom(old(rnd.data), f, key)
    {
      var raw: Bytes;
      if key.Some? {
        raw := key.value;
      } else {
        raw :- rnd.ReadFull(32);
      }
      if f.encoding == Raw32 {
        if |raw| != 32 { return Err(Unsupported); }
        return Ok(raw);
      } else if f.encoding == X963 {
        if |raw| == 32 { return Ok([4] + raw); }
        if |raw| == 33 { return Ok(raw); }
      }
      return Err(Unsupported);
    }

    /** The prefixed case of encodeEncryptedField: random content of a random length. */
    method EncodePrefixed(f: FieldSpec, rnd: Reader) returns (r: Result<Bytes>, ghost v: Bytes)
      requires f.encoding in {PrefixedU8, PrefixedU16}
      modifies rnd
      ensures r.Ok? ==> f.minSize <= |v| && (|v| <= f.maxSize || |v| == f.minSize)
      ensures r.Ok? ==> r.value == (if f.encoding == PrefixedU8 then [|v| % 256] else BigEndian(|v|, 2)) + v
      ensures r.Err? ==> r.error == ShortRead
      ensures (r, rnd.data) == PrefixedFrom(old(rnd.data), f)
    {
      v := [];
      var n: nat := f.minSize;
      if f.maxSize > f.minSize {
        var x := RandInt(rnd, f.maxSize - f.minSize + 1);
        if x.Err? { return Err(x.error), v; }
        n := f.minSize + x.value;
      }
      var b := rnd.ReadFull(n);
      if b.Err? { return b, v; }
      v := b.value;
      if f.encoding == PrefixedU8 {
        r := Ok([n % 256] + b.value);
      } else {
        r := Ok(BigEndian(n, 2) + b.value);
      }
    }

    /** The next n bytes of the source. */
    method DrawBytes(n: nat, rnd: Reader) returns (r: Result<Bytes>)
      modifies rnd
      ensures (r, rnd.data) == BytesFrom(old(rnd.data), n)
      ensures if r.Ok? then |r.value| == n else r.error == ShortRead
    {
      if n == 0 {
        return Ok([]);
      }
      r := rnd.ReadFull(n);
    }

    /** encodeEncryptedField. v is the value the decoder will report for the field. */
    method EncodeField(f: FieldSpec, padLen: nat, key: Option<Bytes>, rnd: Reader)
      returns (r: Result<Bytes>, ghost v: Bytes)
      modifies rnd
      ensures r.Ok? ==> Written(f, key, r.value)
      ensures r.Ok? && FieldWellFormed(f) ==> EncodedAs(f, padLen, key, v, r.value)
      ensures r.Err? && r.error != ShortRead ==> !FieldEncodes(f, padLen, key)
      ensures (r, rnd.data) == FieldFrom(old(rnd.data), f, padLen, key)
    {
      hide BigEndian, LittleEndian, Pow256, KeyFrom, PrefixedFrom, BytesFrom;
      v := [];
      if f.kind == PadLen {
        r := IntBytes(padLen, f.encoding, f.endian);
        if r.Ok? {
          IntRoundTrip(padLen, f.encoding, f.endian);
          v := r.value;
        }
      } else if f.kind == Key {
        r := EncodeKey(f, key, rnd);
        v := if r.Ok? then r.value else [];
      } else if f.encoding == FixedBytes {
        r := DrawBytes(f.size, rnd);
        v := if r.Ok? then r.value else [];
      } else if f.encoding == PrefixedU8 || f.encoding == PrefixedU16 {
        r, v := EncodePrefixed(f, rnd);
      } else {
        r := Err(Unsupported);
      }
    }

    /** encodeEncryptedBody: the encrypted section, and where the pad_length bytes lie in it. */
    method EncodeBody(padLen: nat, key: Option<Bytes>, rnd: Reader)
      returns (r: Result<Bytes>, padOff: int, padWidth: nat, ghost values: seq<Bytes>, ghost parts: seq<Bytes>)
      requires Validated(spec)
      modifies rnd
      ensures r.Ok? ==> |parts| == |values| == |spec.encrypted| && r.value == Flatten(parts)
      ensures r.Ok? ==> PadAt(parts, FirstOfKind(spec.encrypted, PadLen), padOff, padWidth)
      ensures r.Ok? ==> AllWritten(spec.encrypted, key, parts)
      ensures r.Ok? && WellFormed(spec) ==>
        |values| == |parts| && AllEncoded(spec.encrypted, padLen, key, values, parts)
      ensures r.Err? && r.error != ShortRead ==>
        exists i :: 0 <= i < |spec.encrypted| && !FieldEncodes(spec.encrypted[i], padLen, key)
      ensures (r, rnd.data) == FieldsFrom(old(rnd.data), spec.encrypted, padLen, key)
      ensures r.Ok? ==> var k := FirstOfKind(spec.encrypted, PadLen);
        k < |spec.encrypted| ==> padOff == BeforePad(old(rnd.data), spec.encrypted, k, padLen, key)
    {
      hide EncodedAs, FieldEncodes, FieldWellFormed, AllEncoded, AllWritten, Written, PadAt, Validated;
      hide FieldFrom, FieldsFrom;
      var body: Bytes := [];
      padOff, padWidth, values, parts := -1, 0, [], [];
      ghost var k := FirstOfKind(spec.encrypted, PadLen);
      EmptyBody(padLen, key, k);
      FieldsStart(rnd.data, spec.encrypted, padLen, key);
      for i := 0 to |spec.encrypted|
        invariant |parts| == |values| == i && body == Flatten(parts) && PadAt(parts, k, padOff, padWidth)
        invariant WellFormed(spec) ==> AllEncoded(spec.encrypted[..i], padLen, key, values, parts)
        invariant AllWritten(spec.encrypted[..i], key, parts)
        invariant FieldsFrom(old(rnd.data), spec.encrypted[..i], padLen, key) == (Ok(body), rnd.data)
        invariant k < i ==> padOff == BeforePad(old(rnd.data), spec.encrypted, k, padLen, key)
      {
        var f := spec.encrypted[i];
        assert spec.encrypted[..i + 1] == spec.encrypted[..i] + [f];
        if f.kind == PadLen {
          OnePadLen(spec, i);
          padOff := |body|;
        }
        var b: Result<Bytes>;
        ghost var v;
        b, v := EncodeField(f, padLen, key, rnd);
        FieldsStep(old(rnd.data), spec.encrypted, i, padLen, key);
        if b.Err? {
          FieldsFail(old(rnd.data), spec.encrypted, i + 1, padLen, key);
          return b, padOff, padWidth, values, parts;
        }
        PadAtAppend(parts, b.value, k, padOff, padWidth);
        if f.kind == PadLen {
          padWidth := |b.value|;
        }
        if WellFormed(spec) {
          AllEncodedAppend(spec.encrypted[..i], padLen, key, values, parts, f, v, b.value);
        }
        AllWrittenAppend(spec.encrypted[..i], key, parts, f, b.value);
        FlattenAppend(parts, b.value);
        values, parts, body := values + [v], parts + [b.value], body + b.value;
      }
      assert spec.encrypted[..|spec.encrypted|] == spec.encrypted;
      return Ok(body), padOff, padWidth, values, parts;
    }

    /** The header field f, if it is not the length field. */
    method EncodePlainField(f: FieldSpec, rnd: Reader) returns (r: Result<Bytes>)
      modifies rnd
      ensures (r, rnd.data) == PlainFieldFrom(old(rnd.data), f)
      ensures r.Ok? && FixedSize(f) == Ok(|r.value|) ==> CarriesConstant(f, r.value)
      ensures r.Ok? && FixedSize(f) != Ok(|r.value|) ==> !PlainWritable(f)
      ensures r.Err? && r.error != ShortRead ==> !PlainWritable(f)
    {
      if f.kind == Version || f.kind == Type || (f.kind == Reserved && f.source != Random) {
        return if f.constant.None? then Err(Malformed) else Ok(f.constant.value);
      }
      if f.kind == Nonce || f.kind == Reserved {
        r := rnd.ReadFull(f.size);
      } else {
        r := Err(Unsupported);
      }
    }

    /** encodePlainFields: the header, with the length field computed from the final sizes. */
    method EncodePlain(frameLen: nat, ciphertextLen: nat, rnd: Reader)
      returns (r: Result<Bytes>, ghost values: seq<Bytes>)
      requires Validated(spec)
      modifies rnd
      ensures r.Ok? ==>
        && PlainFits(spec.plain, values) && r.value == Flatten(values) && CarriesConstants(spec, values)
        && DeclaredLength(spec, values) == Some(LengthSubject(spec, frameLen, ciphertextLen))
      ensures r.Err? && r.error != ShortRead ==> !HeaderEncodes(spec, LengthSubject(spec, frameLen, ciphertextLen))
      ensures (r, rnd.data) ==
        HeaderFrom(old(rnd.data), spec, LengthSubject(spec, frameLen, ciphertextLen), |spec.plain|)
    {
      hide PlainFieldFrom, HeaderFrom, CarriesConstant, PlainWritable, IntValue, Flatten;
      assert Flatten([]) == [] by { FlattenNone(); }
      var out: Bytes := [];
      values := [];
      HeaderStart(rnd.data, spec, LengthSubject(spec, frameLen, ciphertextLen));
      for i := 0 to |spec.plain|
        invariant |values| == i && out == Flatten(values)
        invariant forall k :: 0 <= k < i ==> FixedSize(spec.plain[k]) == Ok(|values[k]|)
        invariant forall k :: 0 <= k < i && k != spec.lengthIndex ==> CarriesConstant(spec.plain[k], values[k])
        invariant spec.lengthIndex < i ==>
          var f := spec.plain[spec.lengthIndex];
          IntValue(values[spec.lengthIndex], f.encoding, f.endian) == Some(LengthSubject(spec, frameLen, ciphertextLen))
        invariant
          HeaderFrom(old(rnd.data), spec, LengthSubject(spec, frameLen, ciphertextLen), i) == (Ok(out), rnd.data)
      {
        var f := spec.plain[i];
        var v: Result<Bytes>;
        if i == spec.lengthIndex {
          v := IntBytes(LengthSubject(spec, frameLen, ciphertextLen), f.encoding, f.endian);
          if v.Ok? {
            IntRoundTrip(LengthSubject(spec, frameLen, ciphertextLen), f.encoding, f.endian);
          }
        } else {
          v := EncodePlainField(f, rnd);
        }
        HeaderStep(old(rnd.data), spec, LengthSubject(spec, frameLen, ciphertextLen), i);
        if v.Err? {
          HeaderFails(old(rnd.data), spec, LengthSubject(spec, frameLen, ciphertextLen), i + 1);
          return v, values;
        }
        if FixedSize(f) != Ok(|v.value|) {
          HeaderFails(old(rnd.data), spec, LengthSubject(spec, frameLen, ciphertextLen), i + 1);
          return Err(Malformed), values;
        }
        FlattenAppend(values, v.value);
        values, out := values + [v.value], out + v.value;
      }
      return Ok(out), values;
    }

    /** The common tail of Encode and EncodePacket: payload, padding, header, seal. */
    method SealFrame(body: Bytes, payload: Bytes, padLen: nat, nonce: Bytes, rnd: Reader)
      returns (r: Result<Bytes>, ghost plain: seq<Bytes>, ghost pad: Bytes)
      requires Validated(spec)
      modifies rnd
      ensures r.Ok? && Correct(aead) ==>
        && |pad| == padLen && PlainFits(spec.plain, plain) && CarriesConstants(spec, plain)
        && r.value == Flatten(plain) + aead.seal(nonce, Flatten(plain), body + (payload + pad))
        && DeclaredTotal(spec, plain, |r.value|) == Some(|r.value|)
        && |r.value| == PlainSize(spec.plain) + |body| + |payload| + padLen + TAG_SIZE
      ensures r.Err? && r.error != ShortRead && Correct(aead) ==>
        var n := |body| + |payload| + padLen + TAG_SIZE;
        !HeaderEncodes(spec, LengthSubject(spec, PlainSize(spec.plain) + n, n))
      ensures (r, rnd.data) == SealedFrom(old(rnd.data), spec, aead, nonce, body, payload, padLen)
    {
      hide HeaderEncodes, HeaderFrom, BytesFrom, CarriesConstants, PlainFits, IntValue;
      plain, pad := [], [];
      var fill := DrawBytes(padLen, rnd);
      if fill.Err? { return fill, plain, pad; }
      pad := fill.value;
      var pt := body + payload + fill.value;
      assert pt == body + (payload + pad) && pt == body + payload + pad;
      var ciphertextLen := |pt| + TAG_SIZE;
      var frameLen := PlainSize(spec.plain) + ciphertextLen;
      var header: Result<Bytes>;
      header, plain := EncodePlain(frameLen, ciphertextLen, rnd);
      if header.Err? {
        return header, plain, pad;
      }
      var ciphertext := aead.seal(nonce, header.value, pt);
      if |ciphertext| != ciphertextLen {
        return Err(Rejected), plain, pad;
      }
      TakePlainExact(spec.plain, header.value, plain);
      return Ok(header.value + ciphertext), plain, pad;
    }

    /** Encode: one frame, its transport segments, and the message the receiver of a well-formed layout will decode
        from it. Whatever the layout, `parts` are the encrypted fields as written. */
    method Encode(payload: Bytes, key: Option<Bytes>, rnd: Reader)
      returns (r: Result<Bytes>, segments: seq<Bytes>, ghost m: Message, ghost pad: Bytes, ghost parts: seq<Bytes>,
               ghost drawn: nat)
      requires Valid()
      modifies this`seqNo, rnd
      ensures Valid()
      ensures seqNo == if r.Ok? then old(seqNo) + 1 else old(seqNo)
      ensures r.Ok? && Correct(aead) ==>
        && PlainFits(spec.plain, m.plain) && CarriesConstants(spec, m.plain) && AllWritten(spec.encrypted, key, parts)
        && PaddingDraw(spec.padding, |pad|) && DeclaredTotal(spec, m.plain, |r.value|) == Some(|r.value|)
        && r.value == Flatten(m.plain)
           + aead.seal(NonceAt(spec.index, old(seqNo)), Flatten(m.plain), Flatten(parts) + (payload + pad))
      ensures r.Ok? && Correct(aead) && WellFormed(spec) ==>
        && FrameOf(spec, aead, NonceAt(spec.index, old(seqNo)), m, pad, r.value)
        && m.payload == payload && CarriesConstants(spec, m.plain)
        && Carries(spec, m.encrypted, |pad|, key) && PaddingDraw(spec.padding, |pad|)
        && Flatten(segments) == r.value
      ensures r.Err? && r.error != ShortRead && Correct(aead) ==> !(AlwaysEncodes(spec, |payload|) && KeyFits(key))
      ensures r.Err? && r.error != ShortRead && Correct(aead) ==> Blocked(spec, |payload|, key, drawn, parts)
      ensures (r, rnd.data) == FrameFrom(old(rnd.data), spec, aead, NonceAt(spec.index, old(seqNo)), payload, key)
    {
      hide FrameOf, AlwaysEncodes, AllWritten, PlainFits, DeclaredTotal, Carries, CarriesConstants, Validated;
      hide WellFormed, NonceAt, PaddingDraw, KeyFits, Correct, Marked, FrameFrom, Blocked, Flatten;
      segments := [];
      r, m, pad, parts, drawn := EncodeFrame(payload, key, NonceAt(spec.index, seqNo), rnd);
      if r.Ok? {
        seqNo := seqNo + 1;
        if |r.value| >= PlainSize(spec.plain) {
          segments := SplitSegments(spec, r.value);
        }
      }
    }

    /** The frame of Encode under the current nonce. */
    method EncodeFrame(payload: Bytes, key: Option<Bytes>, nonce: Bytes, rnd: Reader)
      returns (r: Result<Bytes>, ghost m: Message, ghost pad: Bytes, ghost parts: seq<Bytes>, ghost drawn: nat)
      requires Validated(spec)
      modifies rnd
      ensures r.Ok? && Correct(aead) ==>
        && PlainFits(spec.plain, m.plain) && CarriesConstants(spec, m.plain) && AllWritten(spec.encrypted, key, parts)
        && PaddingDraw(spec.padding, |pad|) && DeclaredTotal(spec, m.plain, |r.value|) == Some(|r.value|)
        && r.value == Flatten(m.plain) + aead.seal(nonce, Flatten(m.plain), Flatten(parts) + (payload + pad))
        && |r.value| >= PlainSize(spec.plain)
      ensures r.Ok? && Correct(aead) && WellFormed(spec) ==>
        && FrameOf(spec, aead, nonce, m, pad, r.value) && m.payload == payload && Carries(spec, m.encrypted, |pad|, key)
      ensures r.Err? && r.error != ShortRead && Correct(aead) ==> !(AlwaysEncodes(spec, |payload|) && KeyFits(key))
      ensures r.Err? && r.error != ShortRead && Correct(aead) ==> Blocked(spec, |payload|, key, drawn, parts)
      ensures (r, rnd.data) == FrameFrom(old(rnd.data), spec, aead, nonce, payload, key)
    {
      hide FrameOf, AlwaysEncodes, HeaderEncodes, FieldEncodes, AllEncoded, PlainFits, DeclaredTotal, LengthSubject;
      hide Carries, CarriesConstants, Validated, WellFormed, NonceAt, PadAt, PaddingDraw, MaxPadding, KeyFits, Flatten;
      hide Correct, Marked, PlainSize, AllWritten, FieldsFrom, PaddingFrom, SealedFrom;
      m, pad, parts, drawn := Message([], [], []), [], [], 0;
      PayloadAlwaysEncodes(spec, |payload|);
      if !spec.hasPayload && payload != [] {
        return Err(NoPayload), m, pad, parts, drawn;
      }
      var padLen := ChoosePadding(rnd);
      if padLen.Err? {
        return Err(padLen.error), m, pad, parts, drawn;
      }
      drawn := padLen.value;
      var body, _, _, values, ps := EncodeBody(padLen.value, key, rnd);
      parts := ps;
      if body.Err? {
        BodyAlwaysEncodes(spec, |payload|, padLen.value, key);
        return body, m, pad, parts, drawn;
      }
      ghost var plain;
      r, plain, pad := SealFrame(body.value, payload, padLen.value, nonce, rnd);
      if r.Err? {
        HeaderAlwaysEncodes(spec, |payload|, padLen.value, key, values, parts);
        return;
      }
      m := Message(plain, values, payload);
      if Correct(aead) && WellFormed(spec) {
        SealedFrame(spec, aead, nonce, m, pad, key, parts, r.value);
      }
    }

    /** The shaping step of EncodePacket: raise the padding length to reach the next rung, and patch the
        pad_length bytes inside the finished encrypted section. */
    method Shape(body: Bytes, payloadLen: nat, drawn: nat, padOff: int, padWidth: nat, key: Option<Bytes>,
                 ghost values: seq<Bytes>, ghost parts: seq<Bytes>, ghost src: Bytes, ghost rest: Bytes)
      returns (r: Result<Bytes>, padLen: nat, ghost values': seq<Bytes>, ghost parts': seq<Bytes>)
      requires Validated(spec) && |parts| == |values| == |spec.encrypted| && body == Flatten(parts)
      requires PadAt(parts, FirstOfKind(spec.encrypted, PadLen), padOff, padWidth)
      requires WellFormed(spec) ==> AllEncoded(spec.encrypted, drawn, key, values, parts)
      requires FieldsFrom(src, spec.encrypted, drawn, key) == (Ok(body), rest)
      requires var k := FirstOfKind(spec.encrypted, PadLen);
        k < |spec.encrypted| ==> padOff == BeforePad(src, spec.encrypted, k, drawn, key)
      ensures |parts'| == |values'| == |parts|
      ensures r.Ok? && WellFormed(spec) ==> FieldsFrom(src, spec.encrypted, padLen, key) == (Ok(r.value), rest)
      ensures r.Ok? && WellFormed(spec) ==>
        && r.value == Flatten(parts') && |r.value| == |body| && AllEncoded(spec.encrypted, padLen, key, values', parts')
        && var natural := PlainSize(spec.plain) + |body| + payloadLen + drawn + TAG_SIZE;
           natural + padLen == ShapedLength(spec, natural, drawn, shapeBuckets) + drawn
      ensures r.Ok? ==> |r.value| == |body|
      ensures padLen != drawn ==> spec.padding.mode != NoPadding
      ensures WellFormed(spec) ==> r.Ok?
    {
      hide FieldFits, LengthSubject, EncodedAs, AllEncoded, Flatten, FieldsFrom, BeforePad, PadFieldMax;
      r, padLen, values', parts' := Ok(body), drawn, values, parts;
      var idx := FirstOfKind(spec.encrypted, PadLen);
      assert idx < |spec.encrypted| ==> spec.padding.mode != NoPadding;
      hide Validated, WellFormed;
      PadWidthPositive(spec, drawn, key, values, parts);
      if idx < |spec.encrypted| && padWidth > 0 && padOff >= 0 && |shapeBuckets| > 0 {
        var maxPad := PadFieldMax(spec);
        var frameLen := PlainSize(spec.plain) + |body| + payloadLen + drawn + TAG_SIZE;
        var target := NextShapeSize(frameLen, shapeBuckets);
        if target > frameLen && drawn + (target - frameLen) <= maxPad {
          padLen := drawn + (target - frameLen);
          r, values', parts' := Patch(body, drawn, padLen, padOff, padWidth, key, values, parts, src, rest);
        }
      }
    }

    /** Overwrite the pad_length bytes of a section with those of another length. */
    method Patch(body: Bytes, ghost drawn: nat, padLen: nat, padOff: nat, padWidth: nat, ghost key: Option<Bytes>,
                 ghost values: seq<Bytes>, ghost parts: seq<Bytes>, ghost src: Bytes, ghost rest: Bytes)
      returns (r: Result<Bytes>, ghost values': seq<Bytes>, ghost parts': seq<Bytes>)
      requires Validated(spec) && |parts| == |values| == |spec.encrypted| && body == Flatten(parts)
      requires FirstOfKind(spec.encrypted, PadLen) < |spec.encrypted| && padLen <= PadFieldMax(spec)
      requires PadAt(parts, FirstOfKind(spec.encrypted, PadLen), padOff, padWidth)
      requires WellFormed(spec) ==> AllEncoded(spec.encrypted, drawn, key, values, parts)
      requires FieldsFrom(src, spec.encrypted, drawn, key) == (Ok(body), rest)
      requires padOff == BeforePad(src, spec.encrypted, FirstOfKind(spec.encrypted, PadLen), drawn, key)
      ensures |parts'| == |values'| == |parts|
      ensures r.Ok? && WellFormed(spec) ==> FieldsFrom(src, spec.encrypted, padLen, key) == (Ok(r.value), rest)
      ensures r.Ok? && WellFormed(spec) ==>
        r.value == Flatten(parts') && AllEncoded(spec.encrypted, padLen, key, values', parts')
      ensures r.Ok? ==> |r.value| == |body|
      ensures WellFormed(spec) ==> r.Ok?
    {
      hide FieldFits, AllEncoded, Flatten, IntBytes, FieldsFrom, BeforePad, PadFieldMax, Validated, WellFormed;
      values', parts' := values, parts;
      var idx := FirstOfKind(spec.encrypted, PadLen);
      var pf := spec.encrypted[idx];
      var enc := IntBytes(padLen, pf.encoding, pf.endian);
      Repad(spec, drawn, padLen, key, values, parts);
      if enc.Err? {
        return enc, values', parts';
      }
      if |enc.value| != padWidth {
        return Err(Rejected), values', parts';
      }
      FlattenUpdate(parts, idx, enc.value);
      RepaddedSection(spec, src, drawn, padLen, key);
      r := Ok(body[..padOff] + enc.value + body[padOff + padWidth..]);
      values', parts' := values[idx := enc.value], parts[idx := enc.value];
    }

    /** The encrypted section of a packet after shaping; `natural` is the length the frame would have without
        shaping and `drawn` its padding draw. */
    method PacketBody(payloadLen: nat, key: Option<Bytes>, rnd: Reader)
      returns (r: Result<Bytes>, padLen: nat, ghost values: seq<Bytes>, ghost parts: seq<Bytes>,
               ghost natural: nat, ghost drawn: nat)
      requires Validated(spec)
      modifies rnd
      ensures |parts| == |values|
      ensures r.Ok? ==> PaddingDraw(spec.padding, drawn) && drawn <= MaxPadding(spec.padding)
      ensures r.Ok? ==> spec.padding.mode == NoPadding ==> padLen == 0
      ensures r.Ok? && WellFormed(spec) ==>
        && r.value == Flatten(parts) && AllEncoded(spec.encrypted, padLen, key, values, parts)
        && natural == PlainSize(spec.plain) + |r.value| + payloadLen + drawn + TAG_SIZE
        && natural + padLen == ShapedLength(spec, natural, drawn, shapeBuckets) + drawn
      ensures r.Ok? && WellFormed(spec) ==>
        match PaddingFrom(old(rnd.data), spec.padding)
        case (Err(_), _) => false
        case (Ok(n), rest) => n == drawn && FieldsFrom(rest, spec.encrypted, padLen, key) == (r, rnd.data)
      ensures r.Err? && r.error != ShortRead ==> !(AlwaysEncodes(spec, payloadLen) && KeyFits(key))
    {
      hide FieldEncodes, AllEncoded, PlainFits, Validated, WellFormed, AlwaysEncodes, FieldFits, ShapedLength;
      hide FieldsFrom, PaddingFrom;
      values, parts, natural, drawn := [], [], 0, 0;
      var choice := ChoosePadding(rnd);
      if choice.Err? {
        return Err(choice.error), 0, values, parts, natural, drawn;
      }
      drawn := choice.value;
      ghost var src := rnd.data;
      PayloadAlwaysEncodes(spec, payloadLen);
      var body, padOff, padWidth, vs, ps := EncodeBody(choice.value, key, rnd);
      if body.Err? {
        BodyAlwaysEncodes(spec, payloadLen, choice.value, key);
        return body, 0, values, parts, natural, drawn;
      }
      natural := PlainSize(spec.plain) + |body.value| + payloadLen + drawn + TAG_SIZE;
      r, padLen, values, parts :=
        Shape(body.value, payloadLen, choice.value, padOff, padWidth, key, vs, ps, src, rnd.data);
    }

    /** EncodePacket: one datagram, padded up to the next rung of the ladder when the padding field can say so. */
    method EncodePacket(payload: Bytes, key: Option<Bytes>, rnd: Reader)
      returns (r: Result<Bytes>, ghost m: Message, ghost pad: Bytes, ghost natural: nat, ghost drawn: nat)
      requires Valid()
      modifies this`packetSend, rnd
      ensures Valid()
      ensures packetSend == if r.Ok? then old(packetSend) + 1 else old(packetSend)
      ensures !packetMode ==> r.Err?
      ensures r.Ok? && Correct(aead) && WellFormed(spec) ==>
        && FrameOf(spec, aead, NonceAt(spec.index, old(packetSend)), m, pad, r.value)
        && m.payload == payload && CarriesConstants(spec, m.plain) && Carries(spec, m.encrypted, |pad|, key)
        && PaddingDraw(spec.padding, drawn) && natural + |pad| == |r.value| + drawn
        && |r.value| == ShapedLength(spec, natural, drawn, shapeBuckets)
        && Shaped(spec, natural, drawn, shapeBuckets, |r.value|)
        && (r, rnd.data)
           == PacketFrom(old(rnd.data), spec, aead, NonceAt(spec.index, old(packetSend)), payload, key, |pad|)
      ensures r.Err? && r.error != ShortRead && Correct(aead) && packetMode ==>
        !(AlwaysEncodes(spec, |payload|) && KeyFits(key) && LadderFits(spec, shapeBuckets))
    {
      hide FrameOf, AlwaysEncodes, HeaderEncodes, FieldEncodes, AllEncoded, PlainFits, DeclaredTotal, LengthSubject;
      hide Carries, CarriesConstants, Validated, WellFormed, NonceAt, LadderFits, FieldFits, ShapedLength, PaddingDraw;
      hide Shaped, SealedFrom, FieldsFrom, PaddingFrom;
      m, pad, natural, drawn := Message([], [], []), [], 0, 0;
      if !packetMode {
        return Err(Rejected), m, pad, natural, drawn;
      }
      PayloadAlwaysEncodes(spec, |payload|);
      if !spec.hasPayload && payload != [] {
        return Err(NoPayload), m, pad, natural, drawn;
      }
      var body: Result<Bytes>, padLen: nat;
      ghost var values, parts;
      body, padLen, values, parts, natural, drawn := PacketBody(|payload|, key, rnd);
      if body.Err? {
        return body, m, pad, natural, drawn;
      }
      var frame: Result<Bytes>;
      ghost var plain;
      frame, plain, pad := SealFrame(body.value, payload, padLen, NonceAt(spec.index, packetSend), rnd);
      if frame.Err? {
        HeaderAlwaysEncodesShaped(spec, |payload|, natural, drawn, padLen, key, values, parts, shapeBuckets);
        return frame, m, pad, natural, drawn;
      }
      m := Message(plain, values, payload);
      if Correct(aead) && WellFormed(spec) {
        ShapedFrame(spec, aead, NonceAt(spec.index, packetSend), m, pad, key, parts, natural, drawn, shapeBuckets,
          frame.value);
      }
      packetSend := packetSend + 1;
      return frame, m, pad, natural, drawn;
    }

    // ---- stream mode ----

    /** Frame decodes at sequence number s and at no earlier one from `from` on. */
    ghost predicate FirstDecodes(frame: Bytes, from: nat, s: nat) {
      && from <= s && Decoded(spec, aead, NonceAt(spec.index, s), frame).Some?
      && forall t :: from <= t < s ==> Decoded(spec, aead, NonceAt(spec.index, t), frame).None?
    }

    /** Decode: probe the next 64 nonces. The window base and the stream position stay equal, so the jump branch of
        observe is never taken: an accepted frame is a plain Accept, as it is for a packet window. */
    method Decode(frame: Bytes) returns (r: Result<Message>, ghost at: nat)
      requires Valid() && seen.base == seqNo
      modifies this`seqNo, seen
      ensures Valid() && seen.base == seqNo
      ensures r.Ok? ==>
        && FirstDecodes(frame, old(seqNo), at) && at < old(seqNo) + STREAM_WINDOW && at !in old(seen.Abstract()).seen
        && Decoded(spec, aead, NonceAt(spec.index, at), frame) == Some(r.value)
        && seen.Abstract() == Accept(old(seen.Abstract()), at)
      ensures r.Err? ==>
        && seen.Abstract() == old(seen.Abstract())
        && forall s :: old(seqNo) <= s < old(seqNo) + STREAM_WINDOW && FirstDecodes(frame, old(seqNo), s) ==>
             s in seen.Abstract().seen
    {
      hide Decoded, NonceAt;
      ghost var w := seen.Abstract();
      at := seqNo;
      for probe := seqNo to seqNo + STREAM_WINDOW
        invariant seqNo == old(seqNo) && seen.Abstract() == w
        invariant forall t :: seqNo <= t < probe ==> Decoded(spec, aead, NonceAt(spec.index, t), frame).None?
      {
        var msg := DecodeAt(frame, NonceAt(spec.index, probe));
        if msg.Err? {
          continue;
        }
        at := probe;
        var first := seen.Observe(probe);
        if !first {
          return Err(Replayed), at;
        }
        SlideStream();
        return msg, at;
      }
      return Err(Unauthentic), at;
    }

    method SlideStream()
      requires seen.base == seqNo
      modifies this`seqNo, seen
      ensures seen.base == seqNo && seen.Abstract() == Slide(old(seen.Abstract()))
      ensures seen.base !in seen.Abstract().seen
    {
      ghost var w := seen.Abstract();
      MarkedBase([seen.bits], seen.base);
      while Bit(seen.bits, 0) && seen.base <= seqNo
        invariant seen.base == seqNo
        invariant Bit(seen.bits, 0) <==> seen.base in seen.Abstract().seen
        invariant Slide(seen.Abstract()) == Slide(w)
        decreases |seen.Abstract().seen|
      {
        seen.Shift();
        seqNo := seqNo + 1;
        MarkedBase([seen.bits], seen.base);
      }
    }

    // ---- packet mode ----

    /** packetSeen >> 1, word by word */
    method ShiftPacketWindow()
      requires packetSeen.Length == WINDOW_WORDS
      modifies packetSeen
      ensures ShiftedByOne(old(packetSeen[..]), packetSeen[..])
    {
      ghost var before := packetSeen[..];
      for i := 0 to WINDOW_WORDS - 1
        invariant forall k :: 0 <= k < i ==> packetSeen[k] == ShiftIn(before[k], before[k + 1])
        invariant forall k :: i <= k < WINDOW_WORDS ==> packetSeen[k] == before[k]
      {
        packetSeen[i] := ShiftRight(packetSeen[i]);
        if Bit(packetSeen[i + 1], 0) {
          packetSeen[i] := SetBit(packetSeen[i], 63);
        }
      }
      BitZero(0);
      packetSeen[WINDOW_WORDS - 1] := ShiftRight(packetSeen[WINDOW_WORDS - 1]);
    }

    /** s is inside the window, not accepted before, and frame decodes under its nonce. */
    ghost predicate Opens(w: Window, frame: Bytes, s: nat) {
      && w.base <= s < w.base + PACKET_WINDOW && s !in w.seen
      && Decoded(spec, aead, NonceAt(spec.index, s), frame).Some?
    }

    /** frame is what a codec with this layout and key seals for m under number s, all numbers being in range. */
    ghost predicate Authentic(s: nat, m: Message, pad: Bytes, frame: Bytes) {
      && Correct(aead) && NonceBound(aead) && spec.index < 0x1_0000_0000
      && s + PACKET_WINDOW < 0x1_0000_0000_0000_0000
      && FrameOf(spec, aead, NonceAt(spec.index, s), m, pad, frame)
    }

    /** An authentic frame opens at its own number only. */
    lemma AuthenticOpens(w: Window, s: nat, m: Message, pad: Bytes, frame: Bytes, t: nat)
      requires Authentic(s, m, pad, frame) && w.base <= s < w.base + PACKET_WINDOW && s !in w.seen
      ensures Opens(w, frame, t) <==> t == s
      ensures Decoded(spec, aead, NonceAt(spec.index, s), frame) == Some(m)
    {
      SealedOpensOnlyAt(spec, aead, s, s, m, pad, frame);
      if w.base <= t < w.base + PACKET_WINDOW {
        SealedOpensOnlyAt(spec, aead, s, t, m, pad, frame);
      }
    }

    /** DecodePacket accepts a frame exactly when some open sequence number of the window decodes it; it then accepts
        the least such number, and the new window is the old one with that number accepted and slid up. */
    method DecodePacket(frame: Bytes) returns (r: Result<Message>, ghost at: nat)
      requires Valid()
      modifies this`packetBase, packetSeen
      ensures Valid()
      ensures !packetMode ==> r.Err?
      ensures r.Ok? ==>
        && Opens(old(PacketState()), frame, at)
        && (forall s: nat :: s < at ==> !Opens(old(PacketState()), frame, s))
        && Decoded(spec, aead, NonceAt(spec.index, at), frame) == Some(r.value)
        && PacketState() == Accept(old(PacketState()), at)
      ensures r.Err? ==> PacketState() == old(PacketState())
      ensures r.Err? && packetMode ==> forall s: nat :: !Opens(old(PacketState()), frame, s)
    {
      hide Decoded, NonceAt, Slide, Validated, SeenWindow.Abstract;
      at := packetBase;
      if !packetMode {
        return Err(Rejected), at;
      }
      ghost var w := PacketState();
      for s := packetBase to packetBase + PACKET_WINDOW
        invariant packetBase == old(packetBase) && PacketState() == w && packetSeen.Length == WINDOW_WORDS
        invariant forall t: nat :: t < s ==> !Opens(w, frame, t)
      {
        var off := s - packetBase;
        assert MarkedAt(packetSeen[..], packetBase, s) <==> Bit(packetSeen[off / 64], off % 64);
        if Bit(packetSeen[off / 64], off % 64) {
          continue;
        }
        var msg := DecodeAt(frame, NonceAt(spec.index, s));
        if msg.Err? {
          continue;
        }
        at := s;
        Mark(off);
        SlideUp();
        return msg, at;
      }
      return Err(Unauthentic), at;
    }

    method Mark(off: nat)
      requires packetSeen.Length == WINDOW_WORDS && off < PACKET_WINDOW
      modifies packetSeen
      ensures PacketState() == Window(packetBase, old(PacketState()).seen + {packetBase + off})
    {
      ghost var before := packetSeen[..];
      MarkedSet(before, packetBase, off);
      packetSeen[off / 64] := SetBit(packetSeen[off / 64], off % 64);
      assert packetSeen[..] == before[off / 64 := SetBit(before[off / 64], off % 64)];
    }

    method SlideUp()
      requires packetSeen.Length == WINDOW_WORDS
      modifies this`packetBase, packetSeen
      ensures PacketState() == Slide(old(PacketState()))
      ensures packetBase !in PacketState().seen
    {
      ghost var w := PacketState();
      MarkedBase(packetSeen[..], packetBase);
      while Bit(packetSeen[0], 0)
        invariant Bit(packetSeen[0], 0) <==> packetBase in PacketState().seen
        invariant Slide(PacketState()) == Slide(w)
        decreases |PacketState().seen|
      {
        MoveUp();
        MarkedBase(packetSeen[..], packetBase);
      }
    }

    method MoveUp()
      requires packetSeen.Length == WINDOW_WORDS
      modifies this`packetBase, packetSeen
      ensures PacketState() == Window(old(packetBase) + 1, old(PacketState()).seen - {old(packetBase)})
    {
      ghost var before := packetSeen[..];
      ShiftPacketWindow();
      MarkedShift(before, packetSeen[..], packetBase);
      packetBase := packetBase + 1;
    }

    /** AdvanceBaseTo: refuse a target beyond the window, ignore one at or below the base, and otherwise forget
        everything and restart at the target. */
    method AdvanceBaseTo(target: nat) returns (ok: bool)
      requires Valid()
      modifies this`packetBase, packetSeen
      ensures Valid()
      ensures ok <==> packetMode && target <= old(packetBase) + PACKET_WINDOW
      ensures PacketState() == if packetMode then Advance(old(PacketState()), target, PACKET_WINDOW)
        else old(PacketState())
    {
      if !packetMode {
        return false;
      }
      if target <= packetBase {
        return true;
      }
      if target > packetBase + PACKET_WINDOW {
        return false;
      }
      packetBase := target;
      forall i | 0 <= i < packetSeen.Length {
        packetSeen[i] := 0;
      }
      MarkedZero(packetSeen[..], packetBase);
      return true;
    }
  }

  /** A sealed frame opens under its own sequence number and under no other. */
  lemma SealedOpensOnlyAt(spec: MessageSpec, aead: Aead, s: nat, t: nat, m: Message, pad: Bytes, frame: Bytes)
    requires Correct(aead) && NonceBound(aead) && FrameOf(spec, aead, NonceAt(spec.index, s), m, pad, frame)
    requires spec.index < 0x1_0000_0000 && s < 0x1_0000_0000_0000_0000 && t < 0x1_0000_0000_0000_0000
    ensures Decoded(spec, aead, NonceAt(spec.index, t), frame) == if t == s then Some(m) else None
  {
    DecodeFrame(spec, aead, NonceAt(spec.index, s), m, pad, frame);
    NonceInjective(spec.index, s, spec.index, t);
    match Decoded(spec, aead, NonceAt(spec.index, t), frame)
    case None =>
    case Some(_) =>
      var off := PlainSize(spec.plain);
      assert aead.open(NonceAt(spec.index, s), frame[..off], frame[off..]).Some?;
      assert aead.open(NonceAt(spec.index, t), frame[..off], frame[off..]).Some?;
  }
}
