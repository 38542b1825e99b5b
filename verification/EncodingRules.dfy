/** What an encoder must put into a frame, when it can, and how shaping picks the length of a packet. */
module EncodingRules {
  import opened Bytes
  import opened Genome
  import opened AeadModel
  import opened FrameFormat

  /** A key as it is written in a key_material field. */
  function KeyForm(f: FieldSpec, key: Bytes): Bytes {
    if f.encoding == X963 && |key| == 32 then [4] + key else key
  }

  /** b is something encodeEncryptedField may write for field f. */
  predicate MayEncode(f: FieldSpec, b: Bytes) {
    match f.kind
    case PadLen => IntWidth(f.encoding) != 0 && |b| == IntWidth(f.encoding)
    case Key => (f.encoding == Raw32 && |b| == 32) || (f.encoding == X963 && |b| == 33)
    case _ =>
      || (f.encoding == FixedBytes && |b| == f.size)
      || (f.encoding == PrefixedU8 && |b| >= 1 && SizeDrawn(f, |b| - 1) && b[0] == (|b| - 1) % 256)
      || (f.encoding == PrefixedU16 && |b| >= 2 && SizeDrawn(f, |b| - 2) && b[..2] == BigEndian(|b| - 2, 2))
  }

  predicate SizeDrawn(f: FieldSpec, n: int) {
    f.minSize <= n && (n <= f.maxSize || n == f.minSize)
  }

  /** maxEncodedFieldSize is exact: no encoding of the field is longer, and some encoding is as long. */
  lemma MaxFieldSizeExact(f: FieldSpec) returns (b: Bytes)
    requires FieldWellFormed(f) && RangeOrdered(f) && EncryptedAdmitted(f)
    ensures forall c: Bytes :: MayEncode(f, c) ==> |c| <= MaxFieldSize(f)
    ensures MayEncode(f, b) && |b| == MaxFieldSize(f)
  {
    if f.encoding == PrefixedU8 {
      b := [f.maxSize % 256] + seq(f.maxSize, _ => 0);
    } else if f.encoding == PrefixedU16 {
      var prefix := BigEndian(f.maxSize, 2);
      b := prefix + seq(f.maxSize, _ => 0);
      assert b[..2] == prefix;
    } else {
      b := seq(MaxFieldSize(f), _ => 0);
    }
  }

  /** What encodeEncryptedField writes, given the injected key. */
  predicate Written(f: FieldSpec, key: Option<Bytes>, b: Bytes) {
    MayEncode(f, b) && (f.kind == Key && key.Some? ==> b == KeyForm(f, key.value))
  }

  ghost predicate AllWritten(fields: seq<FieldSpec>, key: Option<Bytes>, parts: seq<Bytes>) {
    |fields| == |parts| && forall i :: 0 <= i < |fields| ==> Written(fields[i], key, parts[i])
  }

  lemma AllWrittenAppend(fields: seq<FieldSpec>, key: Option<Bytes>, parts: seq<Bytes>, f: FieldSpec, b: Bytes)
    requires AllWritten(fields, key, parts) && Written(f, key, b)
    ensures AllWritten(fields + [f], key, parts + [b])
  {
    hide Written;
  }

  /** Why encoding a payload fails for another reason than a dry random source: the layout carries no payload, some
      encrypted field cannot be written, or the header cannot hold the length the body has come to. */
  ghost predicate Blocked(spec: MessageSpec, payload: nat, key: Option<Bytes>, padLen: nat, parts: seq<Bytes>)
    requires 0 <= spec.lengthIndex < |spec.plain|
  {
    || (!spec.hasPayload && payload != 0)
    || (PaddingDraw(spec.padding, padLen)
        && exists i :: 0 <= i < |spec.encrypted| && !FieldEncodes(spec.encrypted[i], padLen, key))
    || (PaddingDraw(spec.padding, padLen) && AllWritten(spec.encrypted, key, parts) &&
        var n := |Flatten(parts)| + payload + padLen + TAG_SIZE;
        !HeaderEncodes(spec, LengthSubject(spec, PlainSize(spec.plain) + n, n)))
  }

  /** The encrypted values carry the padding length and the injected key. */
  ghost predicate Carries(spec: MessageSpec, values: seq<Bytes>, padLen: nat, key: Option<Bytes>)
    requires |values| == |spec.encrypted|
  {
    forall i :: 0 <= i < |values| ==> CarriesField(spec.encrypted[i], values[i], padLen, key)
  }

  ghost predicate CarriesField(f: FieldSpec, v: Bytes, padLen: nat, key: Option<Bytes>) {
    && (f.kind == PadLen ==> IntBytes(padLen, f.encoding, f.endian) == Ok(v))
    && (f.kind == Key && key.Some? ==> v == KeyForm(f, key.value))
  }

  /** Constant plain fields carry their constant. */
  ghost predicate CarriesConstants(spec: MessageSpec, values: seq<Bytes>)
    requires |values| == |spec.plain|
  {
    forall i :: 0 <= i < |values| && i != spec.lengthIndex ==> CarriesConstant(spec.plain[i], values[i])
  }

  ghost predicate CarriesConstant(f: FieldSpec, v: Bytes) {
    && f.kind in {Version, Type, Nonce, Reserved}
    && (f.kind in {Version, Type} || (f.kind == Reserved && f.source != Random) ==> f.constant == Some(v))
  }

  /** A draw the padding policy allows. */
  predicate PaddingDraw(p: PaddingPolicy, n: nat) {
    match p.mode
    case NoPadding => n == 0
    case Uniform => p.min <= n <= p.max
    case Burst => n == 0 || p.min <= n <= p.max
    case OtherMode => false
  }

  lemma {:induction false} WireAllFlatten(fields: seq<FieldSpec>, values: seq<Bytes>, parts: seq<Bytes>)
    requires Fits(fields, values) && |parts| == |fields|
    requires forall i :: 0 <= i < |fields| ==> parts[i] == Wire(fields[i], values[i])
    ensures WireAll(fields, values) == Flatten(parts)
  {
    if fields != [] {
      WireAllFlatten(fields[1..], values[1..], parts[1..]);
    }
  }

  lemma PadValueCarried(spec: MessageSpec, plain: seq<Bytes>, encrypted: seq<Bytes>, padLen: nat, key: Option<Bytes>)
    requires Validated(spec) && |plain| == |spec.plain| && |encrypted| == |spec.encrypted|
    requires CarriesConstants(spec, plain) && Carries(spec, encrypted, padLen, key)
    requires spec.padding.mode == NoPadding ==> padLen == 0
    ensures PadValue(spec, plain, encrypted) == padLen
  {
    var i, j := FirstOfKind(spec.plain, PadLen), FirstOfKind(spec.encrypted, PadLen);
    assert i == |spec.plain| by {
      assert i < |spec.plain| ==> i == spec.lengthIndex || CarriesConstant(spec.plain[i], plain[i]);
    }
    assert spec.padding.mode != NoPadding ==> j < |spec.encrypted| by {
      if spec.padding.mode != NoPadding {
        var k :| 0 <= k < |spec.encrypted| && OnlyPadLen(spec.encrypted, k);
        assert spec.encrypted[k].kind == PadLen;
      }
    }
    if j < |spec.encrypted| {
      var f := spec.encrypted[j];
      assert CarriesField(f, encrypted[j], padLen, key);
      IntRoundTrip(padLen, f.encoding, f.endian);
    }
  }

  /** What the length field counts. */
  function LengthSubject(spec: MessageSpec, frameLen: nat, ciphertextLen: nat): nat
    requires 0 <= spec.lengthIndex < |spec.plain|
  {
    if spec.plain[spec.lengthIndex].subject == Record then frameLen else ciphertextLen
  }

  /** The header can be written with n in its length field. */
  ghost predicate HeaderEncodes(spec: MessageSpec, n: nat)
    requires 0 <= spec.lengthIndex < |spec.plain|
  {
    && (forall i :: 0 <= i < |spec.plain| && i != spec.lengthIndex ==> PlainWritable(spec.plain[i]))
    && IntBytes(n, spec.plain[spec.lengthIndex].encoding, spec.plain[spec.lengthIndex].endian).Ok?
  }

  /** part is the encoding of value v in field f, with the given padding length and injected key. */
  ghost predicate EncodedAs(f: FieldSpec, padLen: nat, key: Option<Bytes>, v: Bytes, part: Bytes) {
    && FieldFits(f, v) && part == Wire(f, v) && CarriesField(f, v, padLen, key)
    && (RangeOrdered(f) ==> |part| <= MaxFieldSize(f))
  }

  ghost predicate AllEncoded(fields: seq<FieldSpec>, padLen: nat, key: Option<Bytes>, values: seq<Bytes>,
                             parts: seq<Bytes>) {
    && |fields| == |values| == |parts|
    && forall i :: 0 <= i < |fields| ==> EncodedAs(fields[i], padLen, key, values[i], parts[i])
  }

  lemma AllEncodedAppend(fields: seq<FieldSpec>, padLen: nat, key: Option<Bytes>, values: seq<Bytes>, parts: seq<Bytes>,
                         f: FieldSpec, v: Bytes, b: Bytes)
    requires AllEncoded(fields, padLen, key, values, parts) && EncodedAs(f, padLen, key, v, b)
    ensures AllEncoded(fields + [f], padLen, key, values + [v], parts + [b])
  {
    hide EncodedAs;
  }

  /** Where the pad_length bytes lie: part k, if there is one already. */
  ghost predicate PadAt(parts: seq<Bytes>, k: nat, padOff: int, padWidth: nat) {
    if k < |parts| then padOff == |Flatten(parts[..k])| && padWidth == |parts[k]| else padOff == -1
  }

  lemma PadAtAppend(parts: seq<Bytes>, b: Bytes, k: nat, padOff: int, padWidth: nat)
    requires if k == |parts| then padOff == |Flatten(parts)| else PadAt(parts, k, padOff, padWidth)
    ensures PadAt(parts + [b], k, padOff, if k == |parts| then |b| else padWidth)
  {
    assert k <= |parts| ==> (parts + [b])[..k] == parts[..k];
    assert parts[..|parts|] == parts;
  }

  lemma EmptyBody(padLen: nat, key: Option<Bytes>, k: nat)
    ensures AllEncoded([], padLen, key, [], []) && AllWritten([], key, []) && PadAt([], k, -1, 0)
  {
  }

  lemma AllEncodedMeans(spec: MessageSpec, padLen: nat, key: Option<Bytes>, values: seq<Bytes>, parts: seq<Bytes>)
    requires AllEncoded(spec.encrypted, padLen, key, values, parts)
    ensures Fits(spec.encrypted, values) && Carries(spec, values, padLen, key)
    ensures Flatten(parts) == WireAll(spec.encrypted, values)
  {
    assert forall i :: 0 <= i < |values| ==> EncodedAs(spec.encrypted[i], padLen, key, values[i], parts[i]);
    WireAllFlatten(spec.encrypted, values, parts);
  }

  lemma {:induction false} AllEncodedBound(fields: seq<FieldSpec>, padLen: nat, key: Option<Bytes>, values: seq<Bytes>,
                                           parts: seq<Bytes>)
    requires AllEncoded(fields, padLen, key, values, parts)
    requires forall i :: 0 <= i < |fields| ==> RangeOrdered(fields[i])
    ensures |Flatten(parts)| <= MaxFieldSizes(fields)
  {
    hide FieldFits, Wire, CarriesField;
    if fields != [] {
      var n := |fields| - 1;
      assert EncodedAs(fields[n], padLen, key, values[n], parts[n]);
      assert forall i :: 0 <= i < n ==> EncodedAs(fields[..n][i], padLen, key, values[..n][i], parts[..n][i]);
      AllEncodedBound(fields[..n], padLen, key, values[..n], parts[..n]);
      assert parts == parts[..n] + [parts[n]];
      FlattenAppend(parts[..n], parts[n]);
    }
  }

  /** Encoding this field can fail only for want of random bytes. */
  predicate FieldEncodes(f: FieldSpec, padLen: nat, key: Option<Bytes>) {
    match f.kind
    case PadLen => IntBytes(padLen, f.encoding, f.endian).Ok?
    case Key => f.encoding in {Raw32, X963}
      && (key.Some? ==> |key.value| == 32 || (f.encoding == X963 && |key.value| == 33))
    case _ => f.encoding in {FixedBytes, PrefixedU8, PrefixedU16}
  }

  /** A validated layout has at most one pad_length field. */
  lemma OnePadLen(spec: MessageSpec, i: nat)
    requires Validated(spec) && i < |spec.encrypted| && spec.encrypted[i].kind == PadLen
    ensures FirstOfKind(spec.encrypted, PadLen) == i
    ensures forall k :: 0 <= k < |spec.encrypted| && spec.encrypted[k].kind == PadLen ==> k == i
  {
    var k :| 0 <= k < |spec.encrypted| && OnlyPadLen(spec.encrypted, k);
    assert k == i;
  }

  predicate KeyFits(key: Option<Bytes>) {
    key.Some? ==> |key.value| == 32
  }

  lemma PayloadAlwaysEncodes(spec: MessageSpec, payload: nat)
    ensures AlwaysEncodes(spec, payload) ==> WellFormed(spec) && (payload == 0 || spec.hasPayload)
  {
  }

  // ---- shaping ----

  /** The first rung at or above n, n itself when there is none. */
  function NextShape(n: nat, buckets: seq<nat>): nat {
    if n == 0 || buckets == [] then n
    else if n <= buckets[0] then buckets[0]
    else NextShape(n, buckets[1..])
  }

  /** nextShapeSize */
  method NextShapeSize(n: nat, buckets: seq<nat>) returns (r: nat)
    ensures r == NextShape(n, buckets)
  {
    if n == 0 || |buckets| == 0 {
      return n;
    }
    for i := 0 to |buckets|
      invariant NextShape(n, buckets) == NextShape(n, buckets[i..])
    {
      assert buckets[i..][1..] == buckets[i + 1..];
      if n <= buckets[i] {
        return buckets[i];
      }
    }
    return n;
  }

  /** On an ascending ladder the next shape is the smallest rung that holds the frame, and a frame above the
      last rung is left alone. */
  lemma {:induction false} NextShapeLeast(n: nat, buckets: seq<nat>)
    requires n > 0 && forall i, j :: 0 <= i < j < |buckets| ==> buckets[i] <= buckets[j]
    ensures n <= NextShape(n, buckets)
    ensures forall i :: 0 <= i < |buckets| && n <= buckets[i] ==> NextShape(n, buckets) <= buckets[i]
    ensures NextShape(n, buckets) in buckets ||
      (NextShape(n, buckets) == n && forall i :: 0 <= i < |buckets| ==> buckets[i] < n)
  {
    if buckets != [] && n > buckets[0] {
      NextShapeLeast(n, buckets[1..]);
      assert forall i :: 1 <= i < |buckets| ==> buckets[i] == buckets[1..][i - 1];
    }
  }

  /** padFieldMax: the largest padding length the pad_length field may be patched to. */
  function PadFieldMax(spec: MessageSpec): nat {
    var i := FirstOfKind(spec.encrypted, PadLen);
    if i == |spec.encrypted| then 0 else
      match IntWidth(spec.encrypted[i].encoding)
      case 0 => 0
      case 1 => 0xFF
      case 2 => 0xFFFF
      case _ => 0xF_FFFF
  }

  /** The length of a packet: the next rung when the extra padding fits the pad_length field, else unchanged. */
  function ShapedLength(spec: MessageSpec, natural: nat, drawn: nat, buckets: seq<nat>): nat {
    var target := NextShape(natural, buckets);
    if FirstOfKind(spec.encrypted, PadLen) < |spec.encrypted| && target > natural
       && drawn + (target - natural) <= PadFieldMax(spec)
    then target else natural
  }

  /** The pad_length field can say p, and p is at most the cap of 2^20 - 1 bytes. */
  predicate PadHolds(spec: MessageSpec, p: int) {
    var k := FirstOfKind(spec.encrypted, PadLen);
    k < |spec.encrypted| && 0 <= p <= 0xF_FFFF && IntBytes(p, spec.encrypted[k].encoding, spec.encrypted[k].endian).Ok?
  }

  /** padFieldMax is exact: up to the cap, it admits the padding lengths that the field can say and no others. */
  lemma PadFieldMaxExact(spec: MessageSpec, p: nat)
    requires WellFormed(spec)
    requires var k := FirstOfKind(spec.encrypted, PadLen); k < |spec.encrypted| ==> spec.encrypted[k].endian != NoEndian
    ensures FirstOfKind(spec.encrypted, PadLen) < |spec.encrypted| && p <= PadFieldMax(spec) <==> PadHolds(spec, p)
  {
    Pow256Values();
    var k := FirstOfKind(spec.encrypted, PadLen);
    assert k < |spec.encrypted| ==> FieldWellFormed(spec.encrypted[k]);
    hide Pow256, BigEndian, LittleEndian;
  }

  /** rung is the first one of the ladder at or above n. */
  ghost predicate FirstRung(buckets: seq<nat>, n: nat, rung: nat) {
    exists i :: 0 <= i < |buckets| && buckets[i] == rung && n <= rung && forall j :: 0 <= j < i ==> buckets[j] < n
  }

  ghost predicate Ascending(buckets: seq<nat>) {
    forall i, j :: 0 <= i < j < |buckets| ==> buckets[i] <= buckets[j]
  }

  /** On an ascending ladder the first rung is the least one. */
  lemma FirstIsLeast(buckets: seq<nat>, n: nat, rung: nat)
    requires Ascending(buckets)
    ensures FirstRung(buckets, n, rung) <==>
      rung in buckets && n <= rung && forall b :: b in buckets && n <= b ==> rung <= b
  {
    if rung in buckets && n <= rung && forall b :: b in buckets && n <= b ==> rung <= b {
      var i :| 0 <= i < |buckets| && buckets[i] == rung;
      var r := NextRung(buckets, n);
      assert buckets[r] in buckets && r <= i;
    }
  }

  lemma {:induction false} NextRung(buckets: seq<nat>, n: nat) returns (i: nat)
    requires exists b :: b in buckets && n <= b
    ensures i < |buckets| && n <= buckets[i] && forall j :: 0 <= j < i ==> buckets[j] < n
    decreases |buckets|
  {
    i := 0;
    if buckets[0] < n {
      var b :| b in buckets && n <= b;
      assert b in buckets[1..];
      i := NextRung(buckets[1..], n);
      assert forall j :: 1 <= j <= i ==> buckets[j] == buckets[1..][j - 1];
      i := i + 1;
    }
  }

  lemma {:induction false} NextShapeIsFirst(n: nat, buckets: seq<nat>)
    requires n > 0
    ensures forall rung :: FirstRung(buckets, n, rung) <==> rung == NextShape(n, buckets) && rung in buckets
    ensures NextShape(n, buckets) in buckets || (NextShape(n, buckets) == n && forall b :: b in buckets ==> b < n)
  {
    if b :| b in buckets && n <= b {
      var i := NextRung(buckets, n);
      NextShapeAt(n, buckets, i);
      assert FirstRung(buckets, n, buckets[i]);
    } else {
      forall b | b in buckets ensures b < n {
      }
      NoShape(n, buckets);
      assert forall i :: 0 <= i < |buckets| ==> buckets[i] in buckets;
    }
  }

  lemma {:induction false} NextShapeAt(n: nat, buckets: seq<nat>, i: nat)
    requires n > 0 && i < |buckets| && n <= buckets[i] && forall j :: 0 <= j < i ==> buckets[j] < n
    ensures NextShape(n, buckets) == buckets[i]
    decreases i
  {
    if i > 0 { NextShapeAt(n, buckets[1..], i - 1); }
  }

  lemma {:induction false} NoShape(n: nat, buckets: seq<nat>)
    requires forall b :: b in buckets ==> b < n
    ensures NextShape(n, buckets) == n
  {
    if buckets != [] {
      assert buckets[0] in buckets;
      assert forall b :: b in buckets[1..] ==> b in buckets;
      NoShape(n, buckets[1..]);
    }
  }

  /** The length a shaped packet has to have: the first rung that holds it, if there is one and the pad_length field can
      say the padding it takes to get there, and its natural length otherwise. */
  ghost predicate Shaped(spec: MessageSpec, natural: nat, drawn: nat, buckets: seq<nat>, length: nat) {
    (FirstRung(buckets, natural, length) && PadHolds(spec, drawn + (length - natural)))
    || (length == natural
        && forall rung: nat :: FirstRung(buckets, natural, rung) ==> !PadHolds(spec, drawn + (rung - natural)))
  }

  /** A packet that carries a padding length has exactly that length, on any ladder. */
  lemma ShapedExactly(spec: MessageSpec, values: seq<Bytes>, padLen: nat, key: Option<Bytes>,
                      natural: nat, drawn: nat, buckets: seq<nat>, length: nat)
    requires WellFormed(spec) && natural > 0 && |values| == |spec.encrypted| && Carries(spec, values, padLen, key)
    requires length == ShapedLength(spec, natural, drawn, buckets)
    ensures Shaped(spec, natural, drawn, buckets, length)
  {
    NextShapeIsFirst(natural, buckets);
    var k := FirstOfKind(spec.encrypted, PadLen);
    assert k < |spec.encrypted| ==> CarriesField(spec.encrypted[k], values[k], padLen, key);
    var target := NextShape(natural, buckets);
    if target >= natural {
      PadFieldMaxExact(spec, drawn + (target - natural));
    }
    hide WellFormed, PadFieldMax, PadHolds, NextShape;
  }

  /** Every rung fits the length field. */
  ghost predicate LadderFits(spec: MessageSpec, buckets: seq<nat>) {
    0 <= spec.lengthIndex < |spec.plain| &&
    forall b :: b in buckets ==> b < Pow256(IntWidth(spec.plain[spec.lengthIndex].encoding))
  }

  lemma NextShapeInLadder(n: nat, buckets: seq<nat>)
    ensures NextShape(n, buckets) == n || NextShape(n, buckets) in buckets
  {
    if n != 0 && buckets != [] && n > buckets[0] { NextShapeInLadder(n, buckets[1..]); }
  }

  /** Patching the pad_length bytes changes that field and nothing else, and the new length always fits it. */
  lemma Repad(spec: MessageSpec, padLen: nat, newLen: nat, key: Option<Bytes>, values: seq<Bytes>, parts: seq<Bytes>)
    requires Validated(spec) && newLen <= PadFieldMax(spec)
    requires FirstOfKind(spec.encrypted, PadLen) < |spec.encrypted| == |parts|
    requires WellFormed(spec) ==> |values| == |parts| && AllEncoded(spec.encrypted, padLen, key, values, parts)
    ensures WellFormed(spec) ==>
      var k := FirstOfKind(spec.encrypted, PadLen);
      var enc := IntBytes(newLen, spec.encrypted[k].encoding, spec.encrypted[k].endian);
      && enc.Ok? && |enc.value| == |parts[k]|
      && AllEncoded(spec.encrypted, newLen, key, values[k := enc.value], parts[k := enc.value])
  {
    hide Validated;
    if WellFormed(spec) {
      var k := FirstOfKind(spec.encrypted, PadLen);
      var f := spec.encrypted[k];
      OnePadLen(spec, k);
      assert FieldWellFormed(f) && EncodedAs(f, padLen, key, values[k], parts[k]);
      Pow256Values();
      var enc := IntBytes(newLen, f.encoding, f.endian).value;
      IntRoundTrip(newLen, f.encoding, f.endian);
      forall i | 0 <= i < |parts|
        ensures EncodedAs(spec.encrypted[i], newLen, key, values[k := enc][i], parts[k := enc][i])
      {
        assert EncodedAs(spec.encrypted[i], padLen, key, values[i], parts[i]);
      }
    }
  }

  lemma PadWidthPositive(spec: MessageSpec, padLen: nat, key: Option<Bytes>, values: seq<Bytes>, parts: seq<Bytes>)
    requires WellFormed(spec) ==> |values| == |parts| && AllEncoded(spec.encrypted, padLen, key, values, parts)
    ensures var k := FirstOfKind(spec.encrypted, PadLen);
      WellFormed(spec) && k < |spec.encrypted| ==> |parts[k]| > 0
  {
    var k := FirstOfKind(spec.encrypted, PadLen);
    if WellFormed(spec) && k < |spec.encrypted| {
      assert FieldWellFormed(spec.encrypted[k]) && EncodedAs(spec.encrypted[k], padLen, key, values[k], parts[k]);
    }
  }

  /** A layout that always encodes never fails in its encrypted section. */
  lemma BodyAlwaysEncodes(spec: MessageSpec, payload: nat, padLen: nat, key: Option<Bytes>)
    requires Validated(spec) && padLen <= MaxPadding(spec.padding)
    ensures AlwaysEncodes(spec, payload) && KeyFits(key) ==>
      forall i :: 0 <= i < |spec.encrypted| ==> FieldEncodes(spec.encrypted[i], padLen, key)
  {
    if AlwaysEncodes(spec, payload) && KeyFits(key) {
      forall i | 0 <= i < |spec.encrypted| ensures FieldEncodes(spec.encrypted[i], padLen, key) {
        var f := spec.encrypted[i];
        assert FieldWellFormed(f) && RangeOrdered(f);
      }
    }
  }

  /** ... and never in its header: the length field covers the largest frame. */
  lemma LengthAlwaysEncodes(spec: MessageSpec, payload: nat, n: nat)
    requires AlwaysEncodes(spec, payload)
    requires n <= LargestFrame(spec, payload) || n < Pow256(IntWidth(spec.plain[spec.lengthIndex].encoding))
    ensures HeaderEncodes(spec, n)
  {
  }

  lemma HeaderAlwaysEncodes(spec: MessageSpec, payload: nat, padLen: nat, key: Option<Bytes>,
                            values: seq<Bytes>, parts: seq<Bytes>)
    requires Validated(spec) && padLen <= MaxPadding(spec.padding)
    requires WellFormed(spec) ==> |values| == |parts| && AllEncoded(spec.encrypted, padLen, key, values, parts)
    ensures var n := |Flatten(parts)| + payload + padLen + TAG_SIZE;
      AlwaysEncodes(spec, payload) ==> HeaderEncodes(spec, LengthSubject(spec, PlainSize(spec.plain) + n, n))
  {
    hide AllEncoded, EncodedAs, HeaderEncodes;
    if AlwaysEncodes(spec, payload) {
      assert forall i :: 0 <= i < |spec.encrypted| ==> RangeOrdered(spec.encrypted[i]);
      AllEncodedBound(spec.encrypted, padLen, key, values, parts);
      var n := |Flatten(parts)| + payload + padLen + TAG_SIZE;
      LengthAlwaysEncodes(spec, payload, LengthSubject(spec, PlainSize(spec.plain) + n, n));
    }
  }

  /** A shaped packet is either as long as an unshaped one or as long as a rung. */
  lemma HeaderAlwaysEncodesShaped(spec: MessageSpec, payload: nat, natural: nat, drawn: nat, padLen: nat,
                                  key: Option<Bytes>, values: seq<Bytes>, parts: seq<Bytes>, buckets: seq<nat>)
    requires Validated(spec) && drawn <= MaxPadding(spec.padding)
    requires WellFormed(spec) ==>
      && |values| == |parts| && AllEncoded(spec.encrypted, padLen, key, values, parts)
      && natural == PlainSize(spec.plain) + |Flatten(parts)| + payload + drawn + TAG_SIZE
      && natural + padLen == ShapedLength(spec, natural, drawn, buckets) + drawn
    ensures var n := |Flatten(parts)| + payload + padLen + TAG_SIZE;
      AlwaysEncodes(spec, payload) && LadderFits(spec, buckets) ==>
        HeaderEncodes(spec, LengthSubject(spec, PlainSize(spec.plain) + n, n))
  {
    hide AllEncoded, EncodedAs, HeaderEncodes, AlwaysEncodes, WellFormed, Validated, Flatten, PadFieldMax;
    PayloadAlwaysEncodes(spec, payload);
    if padLen == drawn {
      HeaderAlwaysEncodes(spec, payload, padLen, key, values, parts);
    } else if AlwaysEncodes(spec, payload) && LadderFits(spec, buckets) {
      NextShapeInLadder(natural, buckets);
      var n := |Flatten(parts)| + payload + padLen + TAG_SIZE;
      LengthAlwaysEncodes(spec, payload, LengthSubject(spec, PlainSize(spec.plain) + n, n));
    }
  }

  /** What the encoders put together is a frame of the message. */
  lemma SealedFrame(spec: MessageSpec, aead: Aead, nonce: Bytes, m: Message, pad: Bytes, key: Option<Bytes>,
                    parts: seq<Bytes>, frame: Bytes)
    requires Correct(aead) && WellFormed(spec)
    requires AllEncoded(spec.encrypted, |pad|, key, m.encrypted, parts)
    requires PlainFits(spec.plain, m.plain) && CarriesConstants(spec, m.plain)
    requires !spec.hasPayload ==> m.payload == []
    requires spec.padding.mode == NoPadding ==> pad == []
    requires frame == Flatten(m.plain) + aead.seal(nonce, Flatten(m.plain), Flatten(parts) + (m.payload + pad))
    requires DeclaredTotal(spec, m.plain, |frame|) == Some(|frame|)
    ensures FrameOf(spec, aead, nonce, m, pad, frame)
    ensures Carries(spec, m.encrypted, |pad|, key)
  {
    AllEncodedMeans(spec, |pad|, key, m.encrypted, parts);
    PadValueCarried(spec, m.plain, m.encrypted, |pad|, key);
  }

  /** ... and a shaped packet has exactly the length it has to have. */
  lemma ShapedFrame(spec: MessageSpec, aead: Aead, nonce: Bytes, m: Message, pad: Bytes, key: Option<Bytes>,
                    parts: seq<Bytes>, natural: nat, drawn: nat, buckets: seq<nat>, frame: Bytes)
    requires Correct(aead) && WellFormed(spec)
    requires AllEncoded(spec.encrypted, |pad|, key, m.encrypted, parts)
    requires PlainFits(spec.plain, m.plain) && CarriesConstants(spec, m.plain)
    requires !spec.hasPayload ==> m.payload == []
    requires spec.padding.mode == NoPadding ==> pad == []
    requires frame == Flatten(m.plain) + aead.seal(nonce, Flatten(m.plain), Flatten(parts) + (m.payload + pad))
    requires DeclaredTotal(spec, m.plain, |frame|) == Some(|frame|)
    requires natural > 0 && |frame| == ShapedLength(spec, natural, drawn, buckets)
    ensures FrameOf(spec, aead, nonce, m, pad, frame)
    ensures Carries(spec, m.encrypted, |pad|, key)
    ensures Shaped(spec, natural, drawn, buckets, |frame|)
  {
    assert |m.encrypted| == |spec.encrypted|;
    hide AllEncoded, WellFormed, PlainFits, Carries, FrameOf, Shaped, ShapedLength, DeclaredTotal, Flatten;
    SealedFrame(spec, aead, nonce, m, pad, key, parts, frame);
    ShapedExactly(spec, m.encrypted, |pad|, key, natural, drawn, buckets, |frame|);
  }
}
