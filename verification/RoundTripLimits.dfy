/** Where the round trip stops: the static check alone does not give it, and exactly which fields break it. */
module RoundTripLimits {
  import opened Bytes
  import opened Genome
  import opened AeadModel
  import opened FrameFormat
  import opened EncodingRules
  import opened Sequence
  import opened MessageCodecs

  /** The value inside the bytes of a field: a prefixed field without its prefix. */
  function Content(f: FieldSpec, b: Bytes): Bytes {
    if f.encoding == PrefixedU8 && |b| >= 1 then b[1..]
    else if f.encoding == PrefixedU16 && |b| >= 2 then b[2..]
    else b
  }

  /** Whatever the encoder writes, the decoder takes the same value and exactly its bytes back, whatever follows. */
  ghost predicate TakesBack(f: FieldSpec) {
    forall b: Bytes, rest: Bytes :: MayEncode(f, b) ==> TakesBackBytes(f, b, rest)
  }

  predicate TakesBackBytes(f: FieldSpec, b: Bytes, rest: Bytes) {
    TakeField(f, b + rest) == Some((Content(f, b), |b|))
  }

  /** The decoder refuses b, or takes another value than was meant. */
  predicate Mistaken(f: FieldSpec, b: Bytes, rest: Bytes) {
    TakeField(f, b + rest).None? || TakeField(f, b + rest).value.0 != Content(f, b)
  }

  /** Among the fields the static check admits and the encoder supports, the well-formed ones are exactly those the
      decoder can take back. */
  lemma TakesBackExactly(f: FieldSpec)
    requires EncryptedAdmitted(f) && (f.kind in {PadLen, Key} || f.encoding in {FixedBytes, PrefixedU8, PrefixedU16})
    ensures TakesBack(f) <==> FieldWellFormed(f)
  {
    if FieldWellFormed(f) {
      forall b: Bytes, rest: Bytes | MayEncode(f, b) ensures TakesBackBytes(f, b, rest) {
        WellFormedTakesBack(f, b, rest);
      }
    } else {
      var b := IllFormedWitness(f);
      assert Mistaken(f, b, []);
      assert MayEncode(f, b) && !TakesBackBytes(f, b, []);
    }
  }

  lemma WellFormedTakesBack(f: FieldSpec, b: Bytes, rest: Bytes)
    requires EncryptedAdmitted(f) && FieldWellFormed(f) && MayEncode(f, b)
    ensures TakesBackBytes(f, b, rest)
  {
    if f.encoding == PrefixedU16 {
      Pow256Values();
      IntegerRoundTrip(|b| - 2, 2);
      assert (b + rest)[..2] == b[..2] && (b + rest)[2..|b|] == b[2..];
    } else if f.encoding == PrefixedU8 {
      assert (b + rest)[0] == b[0] && (b + rest)[1..|b|] == b[1..];
    } else {
      assert (b + rest)[..|b|] == b;
    }
  }

  lemma IllFormedWitness(f: FieldSpec) returns (b: Bytes)
    requires Supported(f) && !FieldWellFormed(f)
    ensures MayEncode(f, b) && forall rest: Bytes :: Mistaken(f, b, rest)
  {
    if f.kind == Key {
      b := seq(if f.encoding == Raw32 then 32 else 33, _ => 0);
    } else if f.encoding == FixedBytes {
      b := [];
    } else if f.encoding == PrefixedU8 {
      var n := if f.minSize >= f.maxSize then f.minSize else f.maxSize;
      b := [n % 256] + seq(n, _ => 0);
      assert forall rest: Bytes :: (b + rest)[0] == b[0];
    } else {
      b := LongPrefixWitness(f);
    }
  }

  lemma LongPrefixWitness(f: FieldSpec) returns (b: Bytes)
    requires f.kind !in {PadLen, Key} && f.encoding == PrefixedU16 && (f.minSize >= 0x1_0000 || f.maxSize >= 0x1_0000)
    ensures MayEncode(f, b) && forall rest: Bytes :: Mistaken(f, b, rest)
  {
    var n := if f.minSize >= f.maxSize then f.minSize else f.maxSize;
    var prefix := BigEndian(n, 2);
    b := prefix + seq(n, _ => 0);
    assert b[..2] == prefix && forall rest: Bytes :: (b + rest)[..2] == prefix;
    Pow256Values();
    BigUnique(prefix);
  }

  // ---- whole layouts ----

  /** The static check admits the field and the encoder has its encoding. */
  predicate Supported(f: FieldSpec) {
    EncryptedAdmitted(f) && (f.kind in {PadLen, Key} || f.encoding in {FixedBytes, PrefixedU8, PrefixedU16})
  }

  function Contents(fields: seq<FieldSpec>, parts: seq<Bytes>): seq<Bytes>
    requires |fields| == |parts|
  {
    if fields == [] then [] else [Content(fields[0], parts[0])] + Contents(fields[1..], parts[1..])
  }

  /** The decoder takes back every value of the section `parts` that the encoder has written, and what follows it. */
  ghost predicate SectionTakenBack(fields: seq<FieldSpec>, parts: seq<Bytes>, rest: Bytes) {
    |fields| == |parts| && TakeFields(fields, Flatten(parts) + rest) == Some((Contents(fields, parts), rest))
  }

  lemma {:induction false} WellFormedSection(fields: seq<FieldSpec>, parts: seq<Bytes>, rest: Bytes)
    requires forall f :: f in fields ==> Supported(f) && FieldWellFormed(f)
    requires AllWritten(fields, None, parts)
    ensures SectionTakenBack(fields, parts, rest)
  {
    hide TakeField, Content, FieldWellFormed, EncryptedAdmitted, MayEncode;
    if fields == [] {
      assert Flatten(parts) + rest == rest;
    } else {
      var f, b, more := fields[0], parts[0], Flatten(parts[1..]) + rest;
      assert Written(f, None, b) && forall i :: 0 <= i < |parts| - 1 ==> Written(fields[1..][i], None, parts[1..][i]);
      assert f in fields;
      WellFormedTakesBack(f, b, more);
      WellFormedSection(fields[1..], parts[1..], rest);
      assert Flatten(parts) + rest == b + more && (b + more)[|b|..] == more;
    }
  }

  /** Some bytes the encoder may write. */
  lemma SomePart(f: FieldSpec) returns (b: Bytes)
    requires Supported(f)
    ensures Written(f, None, b)
  {
    if f.kind == PadLen {
      b := seq(IntWidth(f.encoding), _ => 0);
    } else if f.kind == Key {
      b := seq(if f.encoding == Raw32 then 32 else 33, _ => 0);
    } else if f.encoding == FixedBytes {
      b := seq(f.size, _ => 0);
    } else if f.encoding == PrefixedU8 {
      b := [f.minSize % 256] + seq(f.minSize, _ => 0);
    } else {
      b := BigEndian(f.minSize, 2) + seq(f.minSize, _ => 0);
    }
  }

  lemma {:induction false} SomeParts(fields: seq<FieldSpec>) returns (parts: seq<Bytes>)
    requires forall f :: f in fields ==> Supported(f)
    ensures AllWritten(fields, None, parts)
  {
    hide Supported, Written;
    parts := [];
    if fields != [] {
      var b := SomePart(fields[0]);
      var more := SomeParts(fields[1..]);
      parts := [b] + more;
    }
  }

  /** With an ill-formed field the encoder may write a section that the decoder does not take back, whatever follows. */
  lemma {:induction false} IllFormedSection(fields: seq<FieldSpec>) returns (parts: seq<Bytes>)
    requires forall f :: f in fields ==> Supported(f)
    requires exists f :: f in fields && !FieldWellFormed(f)
    ensures AllWritten(fields, None, parts) && forall rest: Bytes :: !SectionTakenBack(fields, parts, rest)
  {
    hide TakeField, Content, FieldWellFormed, EncryptedAdmitted, MayEncode, IntWidth;
    var f := fields[0];
    var b: Bytes, more: seq<Bytes>;
    if FieldWellFormed(f) {
      b := SomePart(f);
      more := IllFormedSection(fields[1..]);
    } else {
      b := IllFormedWitness(f);
      more := SomeParts(fields[1..]);
    }
    parts := [b] + more;
    assert parts[1..] == more;
    forall rest: Bytes ensures !SectionTakenBack(fields, parts, rest) {
      var tail := Flatten(more) + rest;
      assert FieldWellFormed(f) || Mistaken(f, b, tail);
      if FieldWellFormed(f) {
        WellFormedTakesBack(f, b, tail);
      }
      if SectionTakenBack(fields, parts, rest) {
        FirstTaken(fields, parts, rest);
      }
    }
  }

  /** A section that is taken back is taken back field by field. */
  lemma FirstTaken(fields: seq<FieldSpec>, parts: seq<Bytes>, rest: Bytes)
    requires fields != [] && |fields| == |parts| && SectionTakenBack(fields, parts, rest)
    ensures var tail := Flatten(parts[1..]) + rest;
      TakeField(fields[0], parts[0] + tail).Some?
        && TakeField(fields[0], parts[0] + tail).value.0 == Content(fields[0], parts[0])
    ensures TakesBackBytes(fields[0], parts[0], Flatten(parts[1..]) + rest) ==>
      SectionTakenBack(fields[1..], parts[1..], rest)
  {
    hide TakeField, Content;
    var f, b, tail := fields[0], parts[0], Flatten(parts[1..]) + rest;
    assert Flatten(parts) + rest == b + tail && (b + tail)[|b|..] == tail;
    var (v, n) := TakeField(f, b + tail).value;
    var (vs, left) := TakeFields(fields[1..], (b + tail)[n..]).value;
    assert [v] + vs == Contents(fields, parts) && ([v] + vs)[0] == v && ([v] + vs)[1..] == vs;
  }

  /** Among the validated layouts whose fields the encoder supports, exactly the well-formed ones give back every
      encrypted section the encoder may write, whatever payload follows it. */
  lemma LayoutTakesBackExactly(spec: MessageSpec)
    requires Validated(spec) && forall f :: f in spec.encrypted ==> Supported(f)
    ensures WellFormed(spec) <==>
      forall parts: seq<Bytes>, rest: Bytes ::
        AllWritten(spec.encrypted, None, parts) ==> SectionTakenBack(spec.encrypted, parts, rest)
  {
    hide Validated, Supported, FieldWellFormed, SectionTakenBack, AllWritten;
    if WellFormed(spec) {
      forall parts: seq<Bytes>, rest: Bytes | AllWritten(spec.encrypted, None, parts)
        ensures SectionTakenBack(spec.encrypted, parts, rest)
      {
        WellFormedSection(spec.encrypted, parts, rest);
      }
    } else {
      var i :| 0 <= i < |spec.encrypted| && !FieldWellFormed(spec.encrypted[i]);
      var parts := IllFormedSection(spec.encrypted);
      assert !SectionTakenBack(spec.encrypted, parts, []);
    }
  }

  /** A layout the static check accepts: a u16 length, and a raw key field that declares 16 bytes instead of 32. */
  const SHORT_KEY: MessageSpec := MessageSpec(0, Client, KeyOnly,
    [FieldSpec(Length, Plain, U16, Big, 0, 0, 0, None, Constant, Ciphertext)],
    [FieldSpec(Key, Encrypted, Raw32, NoEndian, 16, 0, 0, None, Injected, NoSubject)],
    0, false, true, PaddingPolicy(NoPadding, 0, 0), Aes128)

  lemma ShortKeyIsValidated()
    ensures Validated(SHORT_KEY) && !WellFormed(SHORT_KEY) && PlainSize(SHORT_KEY.plain) == 2
  {
    assert !FieldWellFormed(SHORT_KEY.encrypted[0]);
    assert PlainSize(SHORT_KEY.plain) == 2 + PlainSize([]);
  }

  lemma ShortKeyHeader(n: nat)
    requires n < 0x1_0000
    ensures var header := BigEndian(n, 2);
      && PlainFits(SHORT_KEY.plain, [header]) && Flatten([header]) == header
      && DeclaredTotal(SHORT_KEY, [header], 2 + n) == Some(2 + n)
  {
    ShortKeyIsValidated();
    Pow256Values();
    IntegerRoundTrip(n, 2);
    var header := BigEndian(n, 2);
    assert header[..2] == header;
    assert Flatten([header]) == header + Flatten([]) == header;
  }

  lemma ShortKeyPlaintext(m: Message, key: Bytes, payload: Bytes)
    requires |key| == 32 && m.encrypted == [key[..16]] && m.payload == key[16..] + payload && |m.plain| == 1
    ensures Fits(SHORT_KEY.encrypted, m.encrypted) && Plaintext(SHORT_KEY, m, []) == key + payload
    ensures PadValue(SHORT_KEY, m.plain, m.encrypted) == 0
  {
    assert FieldFits(SHORT_KEY.encrypted[0], key[..16]);
    assert SHORT_KEY.encrypted[1..] == [] && m.encrypted[1..] == [];
    assert WireAll(SHORT_KEY.encrypted, m.encrypted) == key[..16] + WireAll([], []) == key[..16];
    assert key[..16] + (key[16..] + payload + []) == key + payload;
  }

  /** The frame of key and payload under that layout. */
  function ShortKeyFrame(aead: Aead, nonce: Bytes, key: Bytes, payload: Bytes): Bytes {
    var header := BigEndian(32 + |payload| + TAG_SIZE, 2);
    header + aead.seal(nonce, header, key + payload)
  }

  /** The receiver gets half of the key as its payload. */
  lemma ShortKeyDecodes(aead: Aead, nonce: Bytes, key: Bytes, payload: Bytes)
    requires Correct(aead) && |key| == 32 && |payload| <= 1400
    ensures var header := BigEndian(32 + |payload| + TAG_SIZE, 2);
      Decoded(SHORT_KEY, aead, nonce, ShortKeyFrame(aead, nonce, key, payload))
      == Some(Message([header], [key[..16]], key[16..] + payload))
  {
    hide Decoded, PlainFits, Fits, PadValue, DeclaredTotal, Plaintext, WireAll, Validated, WellFormed;
    var n := 32 + |payload| + TAG_SIZE;
    var header := BigEndian(n, 2);
    var frame := header + aead.seal(nonce, header, key + payload);
    var m := Message([header], [key[..16]], key[16..] + payload);
    ShortKeyIsValidated();
    ShortKeyHeader(n);
    ShortKeyPlaintext(m, key, payload);
    DecodeFrame(SHORT_KEY, aead, nonce, m, [], frame);
  }

  /** What Encode writes under that layout is that frame. */
  lemma ShortKeyWritten(aead: Aead, nonce: Bytes, key: Bytes, payload: Bytes, plain: seq<Bytes>, parts: seq<Bytes>,
                        frame: Bytes)
    requires Correct(aead) && |key| == 32 && |payload| <= 1400
    requires PlainFits(SHORT_KEY.plain, plain) && AllWritten(SHORT_KEY.encrypted, Some(key), parts)
    requires frame == Flatten(plain) + aead.seal(nonce, Flatten(plain), Flatten(parts) + (payload + []))
    requires DeclaredTotal(SHORT_KEY, plain, |frame|) == Some(|frame|)
    ensures frame == ShortKeyFrame(aead, nonce, key, payload)
  {
    ShortKeyIsValidated();
    assert Written(SHORT_KEY.encrypted[0], Some(key), parts[0]);
    assert parts == [key] && Flatten(parts) == key + Flatten([]) == key;
    assert FixedSize(SHORT_KEY.plain[0]) == Ok(|plain[0]|);
    assert plain == [plain[0]] && Flatten(plain) == plain[0] + Flatten([]) == plain[0];
    assert Flatten(parts) + (payload + []) == key + payload;
    var n := 32 + |payload| + TAG_SIZE;
    assert BigValue(plain[0]) == n;
    BigUnique(plain[0]);
  }

  /** Nothing but a dry random source keeps Encode from writing it. */
  lemma ShortKeyNotBlocked(key: Bytes, payload: nat, padLen: nat, parts: seq<Bytes>)
    requires |key| == 32 && payload <= 1400
    ensures !Blocked(SHORT_KEY, payload, Some(key), padLen, parts)
  {
    if AllWritten(SHORT_KEY.encrypted, Some(key), parts) {
      assert Written(SHORT_KEY.encrypted[0], Some(key), parts[0]);
      assert parts == [key] && Flatten(parts) == key + Flatten([]) == key;
    }
    Pow256Values();
  }

  /** Validation is not enough: the layout passes the static check, the codec encodes a frame under it whenever its
      random source is not dry, and the receiver gets half of the key as its payload. */
  method ValidationIsNotEnough(aead: Aead, key: Bytes, payload: Bytes, rnd: Reader) returns (r: Result<Bytes>)
    requires Correct(aead) && |key| == 32 && |payload| <= 1400
    modifies rnd
    ensures Validated(SHORT_KEY) && !WellFormed(SHORT_KEY)
    ensures r.Err? ==> r.error == ShortRead
    ensures r.Ok? ==> var header := BigEndian(32 + |payload| + TAG_SIZE, 2);
      Decoded(SHORT_KEY, aead, NonceAt(0, 0), r.value) == Some(Message([header], [key[..16]], key[16..] + payload))
  {
    hide Decoded, FrameOf, Validated, WellFormed, AlwaysEncodes, Blocked, AllWritten, PlainFits, NonceAt, DeclaredTotal;
    hide CarriesConstants, Carries;
    ShortKeyIsValidated();
    var codec := new MessageCodec(SHORT_KEY, aead, false);
    var segments;
    ghost var m, pad, parts, drawn;
    r, segments, m, pad, parts, drawn := codec.Encode(payload, Some(key), rnd);
    ShortKeyNotBlocked(key, |payload|, drawn, parts);
    if r.Ok? {
      assert pad == [];
      ShortKeyWritten(aead, NonceAt(0, 0), key, payload, m.plain, parts, r.value);
      ShortKeyDecodes(aead, NonceAt(0, 0), key, payload);
    }
  }
}
