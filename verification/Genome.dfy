/** The genotype: declarative message layouts, and the static check the compiler runs over one of them. */
module Genome {
  import opened Bytes

  datatype Kind = Version | Type | Nonce | Length | PadLen | Reserved | Extra | Key | Cert | OtherKind
  datatype Placement = Plain | Encrypted | OtherPlacement
  datatype Encoding = FixedBytes | PrefixedU8 | PrefixedU16 | U8 | U16 | U24 | U32 | Raw32 | X963 | OtherEncoding
  datatype Endian = Big | Little | NoEndian
  datatype Source = Constant | Random | Zero | Injected
  datatype Subject = Ciphertext | Record | NoSubject
  datatype Mode = NoPadding | Uniform | Burst | OtherMode
  datatype Direction = Client | Server | Both
  datatype Purpose = Hello | HelloKey | KeyOnly | Ack | Data
  datatype Cipher = Aes128 | Aes192 | Aes256 | ChaCha | OtherCipher

  /** One field of one message. `constant` is ValueHex decoded, None when it is not valid hex. */
  datatype FieldSpec = FieldSpec(
    kind: Kind, placement: Placement, encoding: Encoding, endian: Endian,
    size: nat, minSize: nat, maxSize: nat,
    constant: Option<Bytes>, source: Source, subject: Subject)

  datatype PaddingPolicy = PaddingPolicy(mode: Mode, min: int, max: int)

  /** The layout of one message; lengthIndex is -1 when there is no length field. */
  datatype MessageSpec = MessageSpec(
    index: nat, direction: Direction, purpose: Purpose,
    plain: seq<FieldSpec>, encrypted: seq<FieldSpec>,
    lengthIndex: int, lengthAlone: bool, hasPayload: bool,
    padding: PaddingPolicy, cipher: Cipher)

  datatype ProtocolGenome = ProtocolGenome(handshake: seq<MessageSpec>, appRecord: MessageSpec)

  function IntWidth(enc: Encoding): nat {
    match enc
    case U8 => 1
    case U16 => 2
    case U24 => 3
    case U32 => 4
    case _ => 0
  }

  function FixedSize(f: FieldSpec): Result<nat> {
    match f.encoding
    case U8 | U16 | U24 | U32 => Ok(IntWidth(f.encoding))
    case FixedBytes | Raw32 | X963 => if f.size == 0 then Err(Unsupported) else Ok(f.size)
    case _ => Err(Unsupported)
  }

  /** The size of a plain field in plainFieldsSize, which ignores a field without a fixed size. */
  function SizeOf(f: FieldSpec): nat {
    if FixedSize(f).Ok? then FixedSize(f).value else 0
  }

  function PlainSize(fields: seq<FieldSpec>): nat {
    if fields == [] then 0 else SizeOf(fields[0]) + PlainSize(fields[1..])
  }

  lemma {:induction false} PlainSizeConcat(a: seq<FieldSpec>, b: seq<FieldSpec>)
    ensures PlainSize(a + b) == PlainSize(a) + PlainSize(b)
  {
    if a == [] {
      assert a + b == b;
    } else {
      PlainSizeConcat(a[1..], b);
      assert (a + b)[1..] == a[1..] + b;
    }
  }

  lemma PlainSizeAppend(a: seq<FieldSpec>, f: FieldSpec)
    ensures PlainSize(a + [f]) == PlainSize(a) + SizeOf(f)
  {
    PlainSizeConcat(a, [f]);
    assert PlainSize([f]) == SizeOf(f) + PlainSize([]);
  }

  function KeyLen(c: Cipher): Result<nat> {
    match c
    case Aes128 => Ok(16)
    case Aes192 => Ok(24)
    case Aes256 | ChaCha => Ok(32)
    case OtherCipher => Err(Unsupported)
  }

  function CountKind(fields: seq<FieldSpec>, kind: Kind): nat {
    if fields == [] then 0
    else CountKind(fields[..|fields| - 1], kind) + if fields[|fields| - 1].kind == kind then 1 else 0
  }

  /** The encodings the static check admits for one encrypted field. */
  predicate EncryptedAdmitted(f: FieldSpec) {
    && f.placement == Encrypted
    && (f.kind == PadLen ==> IntWidth(f.encoding) != 0)
    && (f.kind == Key ==> f.encoding in {Raw32, X963})
    && (f.kind in {Cert, Extra} ==> f.encoding in {FixedBytes, PrefixedU8, PrefixedU16})
  }

  predicate PlainAdmitted(f: FieldSpec) {
    f.placement == Plain && FixedSize(f).Ok?
  }

  /** What the static check promises of a message layout, stated without counters or loops. */
  ghost predicate Validated(spec: MessageSpec) {
    && spec.cipher != OtherCipher
    && (forall i :: 0 <= i < |spec.plain| ==> PlainAdmitted(spec.plain[i]))
    && 0 <= spec.lengthIndex < |spec.plain|
    && (forall i :: 0 <= i < |spec.plain| ==> (spec.plain[i].kind == Length <==> i == spec.lengthIndex))
    && spec.plain[spec.lengthIndex].subject != NoSubject
    && (forall i :: 0 <= i < |spec.encrypted| ==> EncryptedAdmitted(spec.encrypted[i]))
    && match spec.padding.mode {
         case NoPadding => forall i :: 0 <= i < |spec.encrypted| ==> spec.encrypted[i].kind != PadLen
         case Uniform | Burst =>
           && 0 <= spec.padding.min <= spec.padding.max
           && exists i :: 0 <= i < |spec.encrypted| && OnlyPadLen(spec.encrypted, i)
         case OtherMode => false
       }
  }

  /** Field i is the one and only pad_length field. */
  ghost predicate OnlyPadLen(fields: seq<FieldSpec>, i: nat) {
    i < |fields| && forall j :: 0 <= j < |fields| ==> (fields[j].kind == PadLen <==> j == i)
  }

  lemma {:induction false} CountZero(fields: seq<FieldSpec>, kind: Kind)
    ensures CountKind(fields, kind) == 0 <==> forall i :: 0 <= i < |fields| ==> fields[i].kind != kind
  {
    if fields != [] {
      var rest := fields[..|fields| - 1];
      CountZero(rest, kind);
      assert forall i :: 0 <= i < |rest| ==> rest[i] == fields[i];
      if CountKind(rest, kind) != 0 {
        var i :| 0 <= i < |rest| && rest[i].kind == kind;
        assert fields[i].kind == kind;
      }
    }
  }

  lemma {:induction false} CountOne(fields: seq<FieldSpec>)
    ensures CountKind(fields, PadLen) == 1 <==> exists i :: 0 <= i < |fields| && OnlyPadLen(fields, i)
  {
    if fields != [] {
      var n := |fields| - 1;
      var rest := fields[..n];
      CountOne(rest);
      CountZero(rest, PadLen);
      assert forall i :: 0 <= i < n ==> rest[i] == fields[i];
      if CountKind(fields, PadLen) == 1 {
        if fields[n].kind == PadLen {
          assert OnlyPadLen(fields, n);
        } else {
          var i :| 0 <= i < |rest| && OnlyPadLen(rest, i);
          assert OnlyPadLen(fields, i);
        }
      }
      if i :| 0 <= i < |fields| && OnlyPadLen(fields, i) {
        if i < n {
          assert rest[i].kind == PadLen;
          assert OnlyPadLen(rest, i);
        }
      }
    }
  }

  /** The loop of validateMessage over the plain fields. */
  method ValidatePlain(spec: MessageSpec) returns (ok: bool)
    ensures ok <==>
      && (forall i :: 0 <= i < |spec.plain| ==> PlainAdmitted(spec.plain[i]))
      && 0 <= spec.lengthIndex < |spec.plain|
      && (forall i :: 0 <= i < |spec.plain| ==> (spec.plain[i].kind == Length <==> i == spec.lengthIndex))
      && spec.plain[spec.lengthIndex].subject != NoSubject
  {
    var lengthSeen := 0;
    for i := 0 to |spec.plain|
      invariant forall k :: 0 <= k < i ==> PlainAdmitted(spec.plain[k])
      invariant forall k :: 0 <= k < i && spec.plain[k].kind == Length ==>
        k == spec.lengthIndex && spec.plain[k].subject != NoSubject
      invariant lengthSeen == if 0 <= spec.lengthIndex < i && spec.plain[spec.lengthIndex].kind == Length then 1 else 0
    {
      var f := spec.plain[i];
      if f.placement != Plain || FixedSize(f).Err? {
        return false;
      }
      if f.kind == Length {
        lengthSeen := lengthSeen + 1;
        if spec.lengthIndex != i || f.subject == NoSubject {
          return false;
        }
      }
    }
    return lengthSeen == 1 && 0 <= spec.lengthIndex < |spec.plain|;
  }

  /** The loop of validateMessage over the encrypted fields. */
  method ValidateEncrypted(spec: MessageSpec) returns (ok: bool, padLenSeen: nat)
    ensures ok <==> forall i :: 0 <= i < |spec.encrypted| ==> EncryptedAdmitted(spec.encrypted[i])
    ensures ok ==> padLenSeen == CountKind(spec.encrypted, PadLen)
  {
    padLenSeen := 0;
    for i := 0 to |spec.encrypted|
      invariant forall k :: 0 <= k < i ==> EncryptedAdmitted(spec.encrypted[k])
      invariant padLenSeen == CountKind(spec.encrypted[..i], PadLen)
    {
      var f := spec.encrypted[i];
      assert spec.encrypted[..i + 1][..i] == spec.encrypted[..i];
      if f.placement != Encrypted {
        return false, padLenSeen;
      }
      match f.kind {
        case PadLen =>
          padLenSeen := padLenSeen + 1;
          if IntWidth(f.encoding) == 0 { return false, padLenSeen; }
        case Key =>
          if f.encoding != Raw32 && f.encoding != X963 { return false, padLenSeen; }
        case Cert | Extra =>
          if f.encoding !in {FixedBytes, PrefixedU8, PrefixedU16} { return false, padLenSeen; }
        case _ =>
      }
    }
    assert spec.encrypted[..|spec.encrypted|] == spec.encrypted;
    return true, padLenSeen;
  }

  /** validateMessage: the counting loops decide exactly the declarative predicate. */
  method ValidateMessage(spec: MessageSpec) returns (ok: bool)
    ensures ok <==> Validated(spec)
  {
    hide EncryptedAdmitted, PlainAdmitted, OnlyPadLen;
    if KeyLen(spec.cipher).Err? {
      return false;
    }
    var plainOk := ValidatePlain(spec);
    if !plainOk {
      return false;
    }
    var encryptedOk, padLenSeen := ValidateEncrypted(spec);
    if !encryptedOk {
      return false;
    }
    CountZero(spec.encrypted, PadLen);
    CountOne(spec.encrypted);
    if spec.padding.mode == NoPadding {
      return padLenSeen == 0;
    }
    if padLenSeen != 1 || spec.padding.mode == OtherMode {
      return false;
    }
    return 0 <= spec.padding.min && spec.padding.min <= spec.padding.max;
  }

  // ---- what a layout needs beyond the static check ----

  /** The codec can decode every value it encodes in this encrypted field. */
  predicate FieldWellFormed(f: FieldSpec) {
    match f.kind
    case PadLen => IntWidth(f.encoding) != 0
    case Key => (f.encoding == Raw32 && f.size == 32) || (f.encoding == X963 && f.size == 33)
    case _ =>
      || (f.encoding == FixedBytes && f.size > 0)
      || (f.encoding == PrefixedU8 && f.minSize < 0x100 && f.maxSize < 0x100)
      || (f.encoding == PrefixedU16 && f.minSize < 0x1_0000 && f.maxSize < 0x1_0000)
  }

  /** The static check does not bound key sizes or prefix ranges; round trips need them bounded. */
  ghost predicate WellFormed(spec: MessageSpec) {
    Validated(spec) && forall i :: 0 <= i < |spec.encrypted| ==> FieldWellFormed(spec.encrypted[i])
  }

  /** maxEncodedFieldSize, for the larger of the two prefix bounds */
  function MaxFieldSize(f: FieldSpec): nat {
    match f.encoding
    case PrefixedU8 => 1 + f.maxSize
    case PrefixedU16 => 2 + f.maxSize
    case _ => SizeOf(f)
  }

  function MaxFieldSizes(fields: seq<FieldSpec>): nat {
    if fields == [] then 0 else MaxFieldSizes(fields[..|fields| - 1]) + MaxFieldSize(fields[|fields| - 1])
  }

  /** The plain field can be written: its constant is there and has the declared size. */
  predicate PlainWritable(f: FieldSpec) {
    match f.kind
    case Version | Type => f.constant.Some? && FixedSize(f) == Ok(|f.constant.value|)
    case Nonce => FixedSize(f) == Ok(f.size)
    case Reserved =>
      if f.source == Random then FixedSize(f) == Ok(f.size)
      else f.constant.Some? && FixedSize(f) == Ok(|f.constant.value|)
    case _ => false
  }

  predicate RangeOrdered(f: FieldSpec) {
    f.encoding in {PrefixedU8, PrefixedU16} ==> f.minSize <= f.maxSize
  }

  /** Every frame of this layout with at most `payload` bytes can be encoded, whatever the random source yields:
      the widths of the length and pad_length fields cover the largest frame and the largest padding. */
  ghost predicate AlwaysEncodes(spec: MessageSpec, payload: nat) {
    && WellFormed(spec)
    && (forall i :: 0 <= i < |spec.plain| && i != spec.lengthIndex ==> PlainWritable(spec.plain[i]))
    && (var f := spec.plain[spec.lengthIndex];
        f.endian != NoEndian && IntWidth(f.encoding) != 0 && LargestFrame(spec, payload) < Pow256(IntWidth(f.encoding)))
    && (forall i :: 0 <= i < |spec.encrypted| ==>
          var f := spec.encrypted[i];
          && (f.kind == PadLen ==> f.endian != NoEndian && spec.padding.max < Pow256(IntWidth(f.encoding)))
          && RangeOrdered(f))
    && (payload == 0 || spec.hasPayload)
  }

  function LargestFrame(spec: MessageSpec, payload: nat): int {
    PlainSize(spec.plain) + MaxFieldSizes(spec.encrypted) + payload + MaxPadding(spec.padding) + 16
  }

  function MaxPadding(p: PaddingPolicy): int {
    if p.mode == NoPadding then 0 else p.max
  }
}
