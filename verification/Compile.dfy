/** Compiling a genome: the checks every layout passes before it is used. */
module Compile {
  import opened Bytes
  import opened Genome
  import opened Designs
  import opened Generator

  /** A compiled protocol: the layout table and the size of the two bootstrap keys. */
  datatype Compiled = Compiled(handshake: seq<MessageSpec>, keyLen: nat)

  /** What makes a genome compile: a key, a known schema, at least one handshake message, every layout validated, and
      one key size, that of the first message's cipher, for the whole handshake. */
  ghost predicate Compiles(g: ProtocolGenome, psk: Bytes, schemaKnown: bool) {
    && psk != [] && schemaKnown && g.handshake != []
    && (forall i :: 0 <= i < |g.handshake| ==>
          Validated(g.handshake[i]) && KeyLen(g.handshake[i].cipher) == KeyLen(g.handshake[0].cipher))
    && Validated(g.appRecord)
  }

  /** Compile: it succeeds on exactly those genomes, with the layout table unchanged. */
  method Compile(g: ProtocolGenome, psk: Bytes, schemaKnown: bool) returns (r: Result<Compiled>)
    ensures r.Ok? <==> Compiles(g, psk, schemaKnown)
    ensures r.Ok? ==> r.value.handshake == g.handshake && Ok(r.value.keyLen) == KeyLen(g.handshake[0].cipher)
    ensures r.Ok? ==> var cipher := g.handshake[0].cipher;
      r.value.keyLen == if cipher == Aes128 then 16 else if cipher == Aes192 then 24 else 32
  {
    if |psk| == 0 || !schemaKnown || |g.handshake| == 0 {
      return Err(Unsupported);
    }
    var keyLen := KeyLen(g.handshake[0].cipher);
    if keyLen.Err? {
      assert !Validated(g.handshake[0]);
      return Err(Unsupported);
    }
    hide Validated, KeyLen;
    var table := [];
    for i := 0 to |g.handshake|
      invariant table == g.handshake[..i]
      invariant forall j :: 0 <= j < i ==> Validated(g.handshake[j]) && KeyLen(g.handshake[j].cipher) == keyLen
    {
      var bound := BindsKey(g.handshake[i], keyLen.value);
      if !bound {
        return Err(Unsupported);
      }
      table := table + [g.handshake[i]];
    }
    var ok := ValidateMessage(g.appRecord);
    if !ok {
      return Err(Unsupported);
    }
    return Ok(Compiled(table, keyLen.value));
  }

  /** NewMessageCodec, with a key of keyLen bytes. */
  method BindsKey(spec: MessageSpec, keyLen: nat) returns (ok: bool)
    ensures ok <==> Validated(spec) && KeyLen(spec.cipher) == Ok(keyLen)
  {
    ok := ValidateMessage(spec);
    return ok && KeyLen(spec.cipher) == Ok(keyLen);
  }

  /** Every generated genome compiles under every key. */
  lemma GeneratedCompiles(g: ProtocolGenome, psk: Bytes)
    requires GenomeWorks(g) && psk != []
    ensures Compiles(g, psk, true)
  {
    assert forall i :: 0 <= i < |g.handshake| ==> StepWorks(g.handshake[i], i, g.appRecord.cipher);
  }
}
