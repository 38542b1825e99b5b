/** What a tape of draws designs, as functions: where each draw of the generator goes. The generator's methods compute
    exactly these, so a design depends on the tape alone. */
module Designs {
  import opened Bytes
  import opened Genome
  import opened Drbg

  const MAX_HANDSHAKE_EARLY_DATA: nat := 1400

  /** All draws of a random source, each still to be reduced into the range asked for. */
  type Tape = nat -> nat

  // ---- samplers: the value drawn at position p, and the position after it ----

  function ChooseAt(t: Tape, p: nat, n: nat): (r: (nat, nat))
    ensures n > 0 ==> r.0 < n
  {
    if n <= 1 then (0, p) else (t(p) % n, p + 1)
  }

  function RangeAt(t: Tape, p: nat, lo: nat, hi: nat): (r: (nat, nat))
    ensures lo <= r.0 && (lo < hi ==> r.0 < hi)
  {
    if hi <= lo then (lo, p) else (lo + t(p) % (hi - lo), p + 1)
  }

  lemma {:induction false} TotalPositive(weights: seq<int>, n: nat)
    requires n <= |weights| && forall k :: 0 <= k < |weights| ==> weights[k] > 0
    ensures Total(weights, n) >= n
  {
    if n > 0 { TotalPositive(weights, n - 1); }
  }

  /** The first index from i on whose cumulative interval reaches beyond x. */
  function PickFrom(weights: seq<int>, x: nat, i: nat): (r: nat)
    requires i < |weights|
    ensures r < |weights|
    decreases |weights| - i
  {
    if i + 1 == |weights| || x < Total(weights, i + 1) then i else PickFrom(weights, x, i + 1)
  }

  lemma {:induction false} PickFromIs(weights: seq<int>, x: nat, i: nat, r: nat)
    requires i <= r < |weights| && x < Total(weights, r + 1)
    requires forall j :: 0 <= j <= r ==> Total(weights, j) <= x
    ensures PickFrom(weights, x, i) == r
    decreases r - i
  {
    if i < r { PickFromIs(weights, x, i + 1, r); }
  }

  function WeightedAt(t: Tape, p: nat, weights: seq<int>): (r: (nat, nat))
    requires weights != [] && forall k :: 0 <= k < |weights| ==> weights[k] > 0
    ensures r.0 < |weights| && r.1 == p + 1
  {
    TotalPositive(weights, |weights|);
    (PickFrom(weights, t(p) % Total(weights, |weights|), 0), p + 1)
  }

  function BytesAt(t: Tape, p: nat, n: nat): (Bytes, nat) {
    (seq(n, i requires 0 <= i < n => t(p + i) % 256), p + n)
  }

  /** The draws of a shuffle of n things: position n - 1 is drawn first, position 1 last. */
  function DrawsAt(t: Tape, p: nat, n: nat): (draws: seq<nat>)
    ensures |draws| == n && InRange(draws, n)
  {
    seq(n, i requires 0 <= i < n => if i == 0 then 0 else t(p + (n - 1 - i)) % (i + 1))
  }

  function PermutedAt(t: Tape, p: nat, fields: seq<FieldSpec>): (seq<FieldSpec>, nat) {
    var n := |fields|;
    (Shuffle(fields, n, DrawsAt(t, p, n)), if n == 0 then p else p + (n - 1))
  }

  // ---- fields ----

  function PlainField(kind: Kind, size: nat, value: Bytes, source: Source): FieldSpec {
    FieldSpec(kind, Plain, FixedBytes, NoEndian, size, 0, 0, Some(value), source, NoSubject)
  }

  function VersionAt(t: Tape, p: nat): (FieldSpec, nat) {
    var (s, p) := WeightedAt(t, p, [3, 1]);
    if s == 0 then
      var (v, p) := ChooseAt(t, p, 5);
      (PlainField(Version, 1, [v + 1], Constant), p)
    else
      var (major, p) := ChooseAt(t, p, 4);
      var (minor, p) := ChooseAt(t, p, 16);
      (PlainField(Version, 2, [major, minor], Constant), p)
  }

  function TypeAt(t: Tape, p: nat): (FieldSpec, nat) {
    var (s, p) := WeightedAt(t, p, [3, 1]);
    var (_, p) := BytesAt(t, p, s + 1);
    var (lo, p) := ChooseAt(t, p, 15);
    if s == 0 then (PlainField(Type, 1, [lo + 1], Constant), p) else
      var (hi, p) := ChooseAt(t, p, 255);
      (PlainField(Type, 2, [lo + 1, hi], Constant), p)
  }

  function NonceFieldAt(t: Tape, p: nat): (FieldSpec, nat) {
    var (i, p) := WeightedAt(t, p, [2, 3, 4, 3, 1]);
    (PlainField(Nonce, [4, 8, 12, 16, 32][i], [], Random), p)
  }

  function ReservedAt(t: Tape, p: nat): (FieldSpec, nat) {
    var (i, p) := WeightedAt(t, p, [3, 2, 2, 1, 1]);
    var (random, p) := WeightedAt(t, p, [7, 3]);
    var size: nat := [1, 2, 4, 8, 16][i];
    (if random == 1 then PlainField(Reserved, size, [], Random)
     else PlainField(Reserved, size, seq(size, _ => 0), Zero), p)
  }

  /** The widths on offer for a length field, with their weights: those that can express minBytes. */
  function WidthsFor(minBytes: nat, isAppRecord: bool): (r: (seq<Encoding>, seq<int>))
    ensures |r.0| == |r.1| > 0 && forall k :: 0 <= k < |r.1| ==> r.1[k] > 0
  {
    if isAppRecord then ([U16, U24, U32], [4, 3, 2])
    else if minBytes <= 0xFF then ([U8, U16, U24, U32], [1, 3, 2, 2])
    else if minBytes <= 0xFFFF then ([U16, U24, U32], [3, 2, 2])
    else if minBytes <= 0xFF_FFFF then ([U24, U32], [2, 2])
    else ([U32], [2])
  }

  function LengthAt(t: Tape, p: nat, minBytes: nat, isAppRecord: bool): (FieldSpec, nat) {
    var (encs, weights) := WidthsFor(minBytes, isAppRecord);
    var (i, p) := WeightedAt(t, p, weights);
    var (subject, p) := WeightedAt(t, p, [4, 1]);
    var (endian, p) := WeightedAt(t, p, [3, 1]);
    (FieldSpec(Length, Plain, encs[i], if endian == 1 then Little else Big, 0, 0, 0, Some([]), Constant,
               if subject == 1 then Record else Ciphertext), p)
  }

  function EncryptedField(kind: Kind, enc: Encoding, size: nat, min: nat, max: nat, source: Source): FieldSpec {
    FieldSpec(kind, Encrypted, enc, NoEndian, size, min, max, Some([]), source, NoSubject)
  }

  function KeyAt(t: Tape, p: nat): (FieldSpec, nat) {
    var (x, p) := WeightedAt(t, p, [4, 1]);
    var field := if x == 1 then EncryptedField(Key, X963, 33, 0, 0, Injected)
                 else EncryptedField(Key, Raw32, 32, 0, 0, Injected);
    (field, p)
  }

  function CertAt(t: Tape, p: nat): (FieldSpec, nat) {
    var (x, p) := WeightedAt(t, p, [3, 1]);
    if x == 0 then
      var (size, p) := RangeAt(t, p, 64, 449);
      (EncryptedField(Cert, FixedBytes, size, 0, 0, Random), p)
    else (EncryptedField(Cert, PrefixedU16, 0, 64, 512, Random), p)
  }

  function ExtraAt(t: Tape, p: nat): (FieldSpec, nat) {
    var (x, p) := WeightedAt(t, p, [4, 3, 1]);
    if x == 0 then
      var (size, p) := RangeAt(t, p, 4, 61);
      (EncryptedField(Extra, FixedBytes, size, 0, 0, Random), p)
    else if x == 1 then (EncryptedField(Extra, PrefixedU8, 0, 1, 64, Random), p)
    else (EncryptedField(Extra, PrefixedU16, 0, 1, 512, Random), p)
  }

  function PadLenAt(t: Tape, p: nat, maxPad: nat): (FieldSpec, nat) {
    var (wide, p) := if maxPad > 255 then (1, p) else WeightedAt(t, p, [3, 1]);
    var (endian, p) := WeightedAt(t, p, [3, 1]);
    (FieldSpec(PadLen, Encrypted, if wide == 1 then U16 else U8, if endian == 1 then Little else Big, 0, 0, 0, Some([]),
               Random, NoSubject), p)
  }

  function PaddingAt(t: Tape, p: nat): (r: (PaddingPolicy, nat))
    ensures r.0.max >= 0
  {
    var (mode, p) := WeightedAt(t, p, [1, 5, 2]);
    if mode == 0 then (PaddingPolicy(NoPadding, 0, 0), p)
    else if mode == 1 then
      var (min, p) := RangeAt(t, p, 0, 33);
      var (span, p) := RangeAt(t, p, 1, 257);
      (PaddingPolicy(Uniform, min, min + span), p)
    else
      var (min, p) := ChooseAt(t, p, 2);
      var (span, p) := RangeAt(t, p, 64, 449);
      (PaddingPolicy(Burst, 16 * min, 16 * min + span), p)
  }

  // ---- one layout ----

  /** One more field, if the first of two weighted outcomes is drawn. */
  function AddPlainAt(t: Tape, p: nat, plain: seq<FieldSpec>, yes: int, no: int, kind: Kind): (seq<FieldSpec>, nat)
    requires yes > 0 && no > 0
  {
    var (x, p) := WeightedAt(t, p, [yes, no]);
    if x != 0 then (plain, p) else
      var (f, p) := match kind
        case Version => VersionAt(t, p)
        case Type => TypeAt(t, p)
        case Nonce => NonceFieldAt(t, p)
        case _ => ReservedAt(t, p);
      (plain + [f], p)
  }

  function PlainPoolAt(t: Tape, p: nat): (seq<FieldSpec>, nat) {
    var (plain, p) := AddPlainAt(t, p, [], 9, 1, Version);
    var (plain, p) := AddPlainAt(t, p, plain, 9, 1, Type);
    var (plain, p) := AddPlainAt(t, p, plain, 3, 1, Nonce);
    var (plain, p) := AddPlainAt(t, p, plain, 3, 7, Reserved);
    PermutedAt(t, p, plain)
  }

  function PayloadAt(t: Tape, p: nat, purpose: Purpose): (bool, nat) {
    match purpose
    case Hello => var (x, p) := WeightedAt(t, p, [10, 90]); (x == 0, p)
    case HelloKey => var (x, p) := WeightedAt(t, p, [35, 65]); (x == 0, p)
    case KeyOnly => var (x, p) := WeightedAt(t, p, [10, 90]); (x == 0, p)
    case Ack => var (x, p) := WeightedAt(t, p, [40, 60]); (x == 0, p)
    case Data => (true, p)
  }

  function AddKeyAt(t: Tape, p: nat, hasKey: bool): (seq<FieldSpec>, nat) {
    if !hasKey then ([], p) else
      var (f, p) := KeyAt(t, p);
      ([f], p)
  }

  function AddCertAt(t: Tape, p: nat, enc: seq<FieldSpec>, direction: Direction): (seq<FieldSpec>, nat) {
    if direction != Server then (enc, p) else
      var (x, p) := WeightedAt(t, p, [55, 45]);
      if x != 0 then (enc, p) else
        var (f, p) := CertAt(t, p);
        (enc + [f], p)
  }

  function AddExtraAt(t: Tape, p: nat, enc: seq<FieldSpec>): (seq<FieldSpec>, nat) {
    var (x, p) := WeightedAt(t, p, [45, 55]);
    if x != 0 then (enc, p) else
      var (f, p) := ExtraAt(t, p);
      (enc + [f], p)
  }

  function AddPadLenAt(t: Tape, p: nat, enc: seq<FieldSpec>, padding: PaddingPolicy): (seq<FieldSpec>, nat)
    requires padding.max >= 0
  {
    if padding.mode == NoPadding then (enc, p) else
      var (f, p) := PadLenAt(t, p, padding.max);
      (enc + [f], p)
  }

  function EncryptedPoolAt(t: Tape, p: nat, direction: Direction, hasKey: bool, padding: PaddingPolicy)
    : (seq<FieldSpec>, nat)
    requires padding.max >= 0
  {
    var (enc, p) := AddKeyAt(t, p, hasKey);
    var (enc, p) := AddCertAt(t, p, enc, direction);
    var (enc, p) := AddExtraAt(t, p, enc);
    var (enc, p) := AddPadLenAt(t, p, enc, padding);
    PermutedAt(t, p, enc)
  }

  /** The lower bound message() passes to lengthField. */
  function MinBytes(plain: seq<FieldSpec>, enc: seq<FieldSpec>, padding: PaddingPolicy, hasPayload: bool,
                    purpose: Purpose): int {
    PlainSize(plain) + 4
    + (16 + MaxFieldSizes(enc) + padding.max + if hasPayload && purpose != Data then MAX_HANDSHAKE_EARLY_DATA else 0)
  }

  /** The length field, its place among the plain fields, and whether it travels alone. */
  function WithLengthAt(t: Tape, p: nat, m: MessageSpec, plain: seq<FieldSpec>): (MessageSpec, nat)
    requires m.padding.max >= 0
  {
    var min := MinBytes(plain, m.encrypted, m.padding, m.hasPayload, m.purpose);
    var (length, p) := LengthAt(t, p, min, m.purpose == Data);
    var (pos, p) := ChooseAt(t, p, |plain| + 1);
    var (alone, p) := WeightedAt(t, p, [20, 80]);
    (m.(plain := plain[..pos] + [length] + plain[pos..], lengthIndex := pos, lengthAlone := alone == 0), p)
  }

  /** A layout without its length field, and its plain fields. */
  function BodyAt(t: Tape, p: nat, index: nat, direction: Direction, purpose: Purpose, hasKey: bool, cipher: Cipher)
    : (r: (MessageSpec, seq<FieldSpec>, nat))
    ensures r.0.padding.max >= 0
  {
    var (plain, p) := PlainPoolAt(t, p);
    var (hasPayload, p) := PayloadAt(t, p, purpose);
    var (padding, p) := PaddingAt(t, p);
    var (enc, p) := EncryptedPoolAt(t, p, direction, hasKey, padding);
    (MessageSpec(index, direction, purpose, [], enc, -1, false, hasPayload, padding, cipher), plain, p)
  }

  function MessageAt(t: Tape, p: nat, index: nat, direction: Direction, purpose: Purpose, hasKey: bool, cipher: Cipher)
    : (MessageSpec, nat)
  {
    var (m, plain, p) := BodyAt(t, p, index, direction, purpose, hasKey, cipher);
    WithLengthAt(t, p, m, plain)
  }

  // ---- the whole genome ----

  datatype PatternStep = PatternStep(direction: Direction, purpose: Purpose, hasKey: bool)

  /** patternTable: c_s, c_s_c, c_s_c_s, c_c_s, s_c, s_c_s */
  const PATTERNS: seq<seq<PatternStep>> := [
    [PatternStep(Client, HelloKey, true), PatternStep(Server, HelloKey, true)],
    [PatternStep(Client, Hello, false), PatternStep(Server, HelloKey, true), PatternStep(Client, KeyOnly, true)],
    [PatternStep(Client, Hello, false), PatternStep(Server, HelloKey, true), PatternStep(Client, KeyOnly, true),
     PatternStep(Server, Ack, false)],
    [PatternStep(Client, Hello, false), PatternStep(Client, KeyOnly, true), PatternStep(Server, HelloKey, true)],
    [PatternStep(Server, HelloKey, true), PatternStep(Client, KeyOnly, true)],
    [PatternStep(Server, HelloKey, true), PatternStep(Client, KeyOnly, true), PatternStep(Server, Ack, false)]]

  /** The layouts of the first n steps. */
  function StepsAt(t: Tape, p: nat, steps: seq<PatternStep>, n: nat, cipher: Cipher): (seq<MessageSpec>, nat)
    requires n <= |steps|
  {
    if n == 0 then ([], p) else
      var (ms, q) := StepsAt(t, p, steps, n - 1, cipher);
      var s := steps[n - 1];
      var (m, q) := MessageAt(t, q, n - 1, s.direction, s.purpose, s.hasKey, cipher);
      (ms + [m], q)
  }

  /** The design of a pattern under one cipher. */
  function DesignAt(t: Tape, p: nat, steps: seq<PatternStep>, cipher: Cipher): (ProtocolGenome, nat) {
    var (ms, p) := StepsAt(t, p, steps, |steps|, cipher);
    var (app, p) := MessageAt(t, p, |steps|, Both, Data, false, cipher);
    (ProtocolGenome(ms, app), p)
  }

  /** generate: the cipher is drawn first and may then be overridden, the pattern second. */
  function GenomeAt(t: Tape, p: nat, forceCipher: Option<Cipher>): Result<ProtocolGenome> {
    var (c, p) := WeightedAt(t, p, [2, 1, 5]);
    var (k, p) := WeightedAt(t, p, [3, 3, 3, 1, 1, 1]);
    match forceCipher
    case None => Ok(DesignAt(t, p, PATTERNS[k], [Aes128, Aes192, Aes256][c]).0)
    case Some(OtherCipher) => Err(Unsupported)
    case Some(cipher) => Ok(DesignAt(t, p, PATTERNS[k], cipher).0)
  }

  // ---- what a forced cipher changes ----

  function WithCipher(gm: ProtocolGenome, cipher: Cipher): ProtocolGenome {
    ProtocolGenome(seq(|gm.handshake|, i requires 0 <= i < |gm.handshake| => gm.handshake[i].(cipher := cipher)),
                   gm.appRecord.(cipher := cipher))
  }

  lemma MessageCipher(t: Tape, p: nat, index: nat, direction: Direction, purpose: Purpose, hasKey: bool,
                      a: Cipher, b: Cipher)
    ensures var (m, q) := MessageAt(t, p, index, direction, purpose, hasKey, a);
      m.cipher == a && MessageAt(t, p, index, direction, purpose, hasKey, b) == (m.(cipher := b), q)
  {
    hide PlainPoolAt, PayloadAt, PaddingAt, EncryptedPoolAt, LengthAt, ChooseAt, WeightedAt, MinBytes;
  }

  lemma {:induction false} StepsCipher(t: Tape, p: nat, steps: seq<PatternStep>, n: nat, a: Cipher, b: Cipher)
    requires n <= |steps|
    ensures var (ms, q) := StepsAt(t, p, steps, n, a);
      var (other, r) := StepsAt(t, p, steps, n, b);
      && |ms| == |other| == n && q == r
      && forall i :: 0 <= i < n ==> ms[i].cipher == a && other[i] == ms[i].(cipher := b)
  {
    hide MessageAt;
    if n > 0 {
      StepsCipher(t, p, steps, n - 1, a, b);
      var q := StepsAt(t, p, steps, n - 1, a).1;
      MessageCipher(t, q, n - 1, steps[n - 1].direction, steps[n - 1].purpose, steps[n - 1].hasKey, a, b);
    }
  }

  /** Forcing a known cipher changes nothing else: the genome is the one the same tape gives without force, with that
      cipher in every layout. */
  lemma ForcedCipherOnly(t: Tape, p: nat, cipher: Cipher)
    requires cipher != OtherCipher
    ensures GenomeAt(t, p, None).Ok?
    ensures GenomeAt(t, p, Some(cipher)) == Ok(WithCipher(GenomeAt(t, p, None).value, cipher))
    ensures var gm := GenomeAt(t, p, Some(cipher)).value;
      gm.appRecord.cipher == cipher && forall i :: 0 <= i < |gm.handshake| ==> gm.handshake[i].cipher == cipher
  {
    hide MessageAt, WeightedAt;
    var (c, p1) := WeightedAt(t, p, [2, 1, 5]);
    var (k, p2) := WeightedAt(t, p1, [3, 3, 3, 1, 1, 1]);
    var drawn := [Aes128, Aes192, Aes256][c];
    var steps := PATTERNS[k];
    StepsCipher(t, p2, steps, |steps|, drawn, cipher);
    var q := StepsAt(t, p2, steps, |steps|, drawn).1;
    MessageCipher(t, q, |steps|, Both, Data, false, drawn, cipher);
    var free := GenomeAt(t, p, None).value;
    assert free == DesignAt(t, p2, steps, drawn).0;
    assert WithCipher(free, cipher).handshake == DesignAt(t, p2, steps, cipher).0.handshake;
  }
}
