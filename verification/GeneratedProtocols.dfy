/** What generation and encoding give together: endpoints of a generated protocol never fail to encode. */
module GeneratedProtocols {
  import opened Bytes
  import opened Genome
  import opened AeadModel
  import opened FrameFormat
  import opened Sequence
  import opened EncodingRules
  import opened MessageCodecs
  import opened HandshakeModel
  import opened Handshakes
  import opened Designs
  import opened Generator

  /** shapeLadders, the fourth of which is DefaultShapeBuckets. */
  const LADDERS: seq<seq<nat>> := [
    [96, 384, 768, 1392], [160, 576, 1152, 1400], [192, 448, 896, 1452], [128, 512, 1024, 1452], [224, 640, 1088, 1424]]

  lemma LessPayload(spec: MessageSpec, most: nat, n: nat)
    requires AlwaysEncodes(spec, most) && n <= most && (n == 0 || spec.hasPayload)
    ensures AlwaysEncodes(spec, n)
  {
  }

  /** Every handshake step of a generated genome always encodes with up to 1400 bytes of early data, which it carries
      where its layout has a payload. */
  lemma EveryStepEncodes(gm: ProtocolGenome, i: nat, earlyData: nat)
    requires GenomeWorks(gm) && i < |gm.handshake| && earlyData <= MAX_HANDSHAKE_EARLY_DATA
    ensures AlwaysEncodes(gm.handshake[i], CarriedData(gm.handshake[i], earlyData))
  {
    hide AlwaysEncodes;
    assert StepWorks(gm.handshake[i], i, gm.appRecord.cipher);
    LessPayload(gm.handshake[i], PayloadBound(gm.handshake[i]), CarriedData(gm.handshake[i], earlyData));
  }

  /** So an endpoint of a generated protocol whose turn it is fails to encode only for want of random bytes, and the
      peer decodes from its frame the early data, if the layout has room for any, and else nothing. */
  method EncodeNext(h: Handshake, gm: ProtocolGenome, rnd: Reader) returns (r: Result<Bytes>, segments: seq<Bytes>)
    requires h.Valid() && GenomeWorks(gm) && h.protocol.specs == gm.handshake
    requires Correct(h.protocol.c2s) && Correct(h.protocol.s2c) && Agrees(h.suite)
    requires |h.earlyData| <= MAX_HANDSHAKE_EARLY_DATA
    requires h.idx < |gm.handshake| && gm.handshake[h.idx].direction == h.role
    modifies h`idx, h`transcript, h`remote, h.codecs, rnd
    ensures h.Valid()
    ensures r.Err? ==> r.error == ShortRead && h.State() == old(h.State())
    ensures r.Ok? ==>
      && h.State() == Encoded(old(h.State()), r.value) && Flatten(segments) == r.value
      && SealedStep(h.protocol, h.suite, old(h.idx), h.priv, r.value)
      && DecodesTo(h.protocol, old(h.idx), r.value, if gm.handshake[old(h.idx)].hasPayload then h.earlyData else [])
  {
    hide GenomeWorks, AlwaysEncodes, Good, Agrees, Correct, SealedStep, SealedWith, DecodesTo, KeysExchanged;
    EveryStepEncodes(gm, h.idx, |h.earlyData|);
    GeneratedHandshakeIsGood(gm, h.protocol.c2s, h.protocol.s2c);
    ghost var i := h.idx;
    r, segments := h.EncodeStep(rnd);
    if r.Ok? {
      PayloadDecodes(h.protocol, h.suite, i, h.priv, if gm.handshake[i].hasPayload then h.earlyData else [], r.value);
    }
  }

  lemma RecordLengthIsWide(spec: MessageSpec)
    requires AlwaysEncodes(spec, MAX_APP_PAYLOAD)
    ensures 0 <= spec.lengthIndex < |spec.plain| && Pow256(IntWidth(spec.plain[spec.lengthIndex].encoding)) >= 0x1_0000
  {
    assert LargestFrame(spec, MAX_APP_PAYLOAD) >= MAX_APP_PAYLOAD;
    Pow256Values();
    hide Pow256;
  }

  lemma RungsAreSmall(k: nat)
    requires k < |LADDERS|
    ensures |LADDERS[k]| == 4 && forall i :: 0 <= i < 4 ==> LADDERS[k][i] < 0x1_0000
    ensures forall i, j :: 0 <= i < j < 4 ==> LADDERS[k][i] <= LADDERS[k][j]
  {
  }

  /** The ladders ascend, and the length field of a generated application record holds every rung, since it holds 60000
      bytes of payload. */
  lemma LaddersFit(gm: ProtocolGenome, k: nat)
    requires GenomeWorks(gm) && k < |LADDERS|
    ensures LadderFits(gm.appRecord, LADDERS[k])
    ensures forall i, j :: 0 <= i < j < |LADDERS[k]| ==> LADDERS[k][i] <= LADDERS[k][j]
  {
    hide AlwaysEncodes, Pow256, LADDERS;
    RecordLengthIsWide(gm.appRecord);
    RungsAreSmall(k);
  }

  /** The length on an ascending ladder: the least rung that holds the packet, if there is one and the pad_length field
      can say the padding it takes to get there, and its natural length otherwise. */
  ghost predicate ShapedToLeast(spec: MessageSpec, natural: nat, drawn: nat, buckets: seq<nat>, length: nat) {
    (LeastRung(buckets, natural, length) && PadHolds(spec, drawn + (length - natural)))
    || (length == natural
        && forall rung: nat :: LeastRung(buckets, natural, rung) ==> !PadHolds(spec, drawn + (rung - natural)))
  }

  ghost predicate LeastRung(buckets: seq<nat>, n: nat, rung: nat) {
    rung in buckets && n <= rung && forall b :: b in buckets && n <= b ==> rung <= b
  }

  lemma FirstRungsAreLeast(spec: MessageSpec, natural: nat, drawn: nat, buckets: seq<nat>, length: nat)
    requires Ascending(buckets) && Shaped(spec, natural, drawn, buckets, length)
    ensures ShapedToLeast(spec, natural, drawn, buckets, length)
  {
    hide PadHolds, FirstRung;
    forall rung: nat ensures FirstRung(buckets, natural, rung) <==> LeastRung(buckets, natural, rung) {
      FirstIsLeast(buckets, natural, rung);
    }
  }

  /** A record of a generated protocol with up to 60000 bytes, shaped by any of the ladders, is encoded unless the
      random source runs dry; its length is the smallest rung that holds it, or its own where no rung or no padding
      does. */
  method EncodeRecord(codec: MessageCodec, gm: ProtocolGenome, k: nat, payload: Bytes, rnd: Reader)
    returns (r: Result<Bytes>, ghost m: Message, ghost pad: Bytes, ghost natural: nat, ghost drawn: nat)
    requires codec.Valid() && codec.packetMode && GenomeWorks(gm) && codec.spec == gm.appRecord && Correct(codec.aead)
    requires k < |LADDERS| && codec.shapeBuckets == LADDERS[k] && |payload| <= MAX_APP_PAYLOAD
    modifies codec`packetSend, rnd
    ensures codec.Valid()
    ensures r.Err? ==> r.error == ShortRead
    ensures r.Ok? ==> ShapedToLeast(codec.spec, natural, drawn, LADDERS[k], |r.value|)
    ensures r.Ok? ==> |r.value| == ShapedLength(codec.spec, natural, drawn, LADDERS[k])
    ensures r.Ok? ==>
      m.payload == payload
        && FrameOf(codec.spec, codec.aead, NonceAt(codec.spec.index, old(codec.packetSend)), m, pad, r.value)
  {
    LaddersFit(gm, k);
    assert gm.appRecord.hasPayload && AlwaysEncodes(gm.appRecord, MAX_APP_PAYLOAD);
    LessPayload(gm.appRecord, MAX_APP_PAYLOAD, |payload|);
    PayloadAlwaysEncodes(gm.appRecord, |payload|);
    hide GenomeWorks, AlwaysEncodes, WellFormed, Correct, LadderFits, Shaped, ShapedToLeast, ShapedLength, LADDERS;
    hide FrameOf, NonceAt,
      PaddingDraw;
    hide Carries, CarriesConstants, Validated;
    r, m, pad, natural, drawn := codec.EncodePacket(payload, None, rnd);
    if r.Ok? {
      FirstRungsAreLeast(codec.spec, natural, drawn, LADDERS[k], |r.value|);
    }
  }
}
