/** Two real handshake objects: whatever they encode and whatever they are given is a run of the two-party system. */
module HandshakePairs {
  import opened Bytes
  import opened Genome
  import opened AeadModel
  import opened FrameFormat
  import opened EncodingRules
  import opened MessageCodecs
  import opened HandshakeModel
  import opened HandshakeSystem
  import opened Handshakes

  class HandshakePair {
    const client: Handshake
    const server: Handshake
    ghost const foreign: set<Sealing>   // what other handshakes have sealed under the same bootstrap keys
    ghost var moves: seq<Move>

    function EndOf(isClient: bool): Handshake {
      if isClient then client else server
    }

    /** Two endpoints of one good protocol that share no codec. */
    ghost predicate Wired() {
      && client.role == Client && server.role == Server && client != server
      && client.protocol == server.protocol && client.suite == server.suite
      && Good(client.protocol) && Agrees(client.suite)
      && Apart(client.codecs, server.codecs)
    }

    ghost function Origin(): System {
      Start(client.priv, server.priv, foreign)
    }

    ghost function Now(): System
      reads this
    {
      After(client.protocol, Origin(), moves)
    }

    ghost predicate Valid()
      reads this, client, server, client.codecs, server.codecs
      reads set c | c in client.codecs :: c.seen, set c | c in client.codecs :: c.packetSeen
      reads set c | c in server.codecs :: c.seen, set c | c in server.codecs :: c.packetSeen
    {
      && Wired() && client.Valid() && server.Valid()
      && Run(client.protocol, client.suite, Origin(), moves)
      && client.State() == Now().client && server.State() == Now().server
    }

    constructor (protocol: Protocol, suite: Suite, clientPriv: Bytes, serverPriv: Bytes, ghost foreign: set<Sealing>)
      requires Good(protocol) && Agrees(suite)
      ensures Valid() && moves == [] && this.foreign == foreign
      ensures client.protocol == protocol && client.suite == suite && client.priv == clientPriv
        && server.priv == serverPriv
    {
      hide Good, Agrees, Handshake.Valid, Handshake.State;
      var c := NewEndpoint(Client, protocol, suite, clientPriv);
      var s := NewEndpoint(Server, protocol, suite, serverPriv);
      client, server := c, s;
      this.foreign := foreign;
      moves := [];
    }

    /** One more move of the run, which the endpoints have made already. */
    ghost method Record(m: Move)
      requires Wired() && client.Valid() && server.Valid()
      requires Run(client.protocol, client.suite, Origin(), moves) && Enabled(client.protocol, client.suite, Now(), m)
      requires client.State() == Step(client.protocol, Now(), m).client
      requires server.State() == Step(client.protocol, Now(), m).server
      modifies this`moves
      ensures Valid() && moves == old(moves) + [m]
    {
      hide Wired, Handshake.Valid, Handshake.State, Run, After, Step, Enabled;
      ExtendRun(client.protocol, client.suite, Origin(), moves, m);
      moves := moves + [m];
    }

    /** One endpoint encodes: when it succeeds, it has made a move of the run. */
    method Encode(byClient: bool, rnd: Reader) returns (r: Result<Bytes>, segments: seq<Bytes>)
      requires Valid()
      modifies this`moves, client, server, client.codecs, server.codecs, rnd
      ensures Valid()
      ensures r.Err? ==> moves == old(moves)
      ensures r.Ok? ==>
        moves == old(moves) + [HandshakeSystem.Encode(byClient, r.value)] && Flatten(segments) == r.value
    {
      hide Good, Agrees, Handshake.Valid, SealedStep, SealedWith, SealedUnder, Run, After, Flatten, Apart;
      ApartSwaps(client.codecs, server.codecs);
      r, segments := EncodeBeside(EndOf(byClient), EndOf(!byClient), rnd);
      if r.Ok? {
        Record(HandshakeSystem.Encode(byClient, r.value));
      }
    }

    /** One endpoint is given any bytes at all: its verdict and its new state are those of the move. */
    method Deliver(toClient: bool, inner: Bytes) returns (ok: bool)
      requires Valid()
      modifies this`moves, client, server, client.codecs, server.codecs
      modifies set c | c in client.codecs :: c.seen, set c | c in server.codecs :: c.seen
      ensures Valid() && moves == old(moves) + [HandshakeSystem.Deliver(toClient, inner)]
      ensures ok == Recv(client.protocol, old(Side(Now(), toClient)), inner).1
    {
      hide Good, Agrees, Handshake.Valid, Handshake.State, Run, After, Recv, Apart;
      ApartSwaps(client.codecs, server.codecs);
      ok := ReceiveBeside(EndOf(toClient), EndOf(!toClient), inner);
      Record(HandshakeSystem.Deliver(toClient, inner));
    }

    /** The real endpoints agree: on a run on which nothing is forged and nothing of another handshake is delivered for
        the awaited step, endpoints that are both done have the same transcript and each other's keys. */
    lemma DoneAgree(psk: Bytes, keyLen: nat)
      requires Valid() && KeysExchanged(client.protocol)
      requires UnforgedRun(client.protocol, Origin(), moves) && CurrentRun(client.protocol, foreign, Origin(), moves)
      requires client.idx == server.idx == |client.protocol.specs|
      ensures client.transcript == server.transcript
      ensures client.remote == Some(client.suite.pub(server.priv))
        && server.remote == Some(client.suite.pub(client.priv))
      ensures Agreed(client.protocol, client.suite, Now(), psk, keyLen)
    {
      hide Good, Agrees, Handshake.Valid, Run, After, KeysExchanged, UnforgedRun, CurrentRun;
      HandshakeAgreement(client.protocol, client.suite, client.priv, server.priv, foreign, moves, psk, keyLen);
    }
  }

  lemma ApartSwaps(a: seq<MessageCodec>, b: seq<MessageCodec>)
    requires Apart(a, b)
    ensures Apart(b, a)
  {
  }

  /** One endpoint encodes; another one that shares no codec with it stays as it is. */
  method EncodeBeside(me: Handshake, other: Handshake, rnd: Reader) returns (r: Result<Bytes>, segments: seq<Bytes>)
    requires me.Valid() && other.Valid() && me != other && Apart(me.codecs, other.codecs) && Good(me.protocol)
    modifies me`idx, me`transcript, me`remote, me.codecs, rnd
    ensures me.Valid() && other.Valid() && other.State() == old(other.State())
    ensures r.Err? ==> me.State() == old(me.State())
    ensures r.Ok? ==>
      && me.State() == Encoded(old(me.State()), r.value) && Flatten(segments) == r.value
      && CanEncode(me.protocol, me.suite, old(me.State()), r.value)
  {
    hide Good, Agrees, Handshake.Valid, Handshake.State, SealedStep, SealedWith, SealedUnder, AlwaysEncodes;
    hide CarriedData, Flatten;
    ghost var x := me.State();
    StateFields(me);
    r, segments := me.EncodeStep(rnd);
    forall c | c in other.codecs ensures unchanged(c) && unchanged(c.seen) && unchanged(c.packetSeen) {
      assert c !in me.codecs;
    }
    Untouched(other);
    if r.Ok? {
      SealedHasHeader(me.protocol, me.suite, x.idx, me.priv, r.value);
    }
  }

  /** One endpoint is given some bytes; another one that shares no codec with it stays as it is. */
  method ReceiveBeside(me: Handshake, other: Handshake, inner: Bytes) returns (ok: bool)
    requires me.Valid() && other.Valid() && me != other && Apart(me.codecs, other.codecs)
    modifies me`idx, me`transcript, me`remote, me.codecs, set c | c in me.codecs :: c.seen
    ensures me.Valid() && other.Valid() && other.State() == old(other.State())
    ensures (me.State(), ok) == Recv(me.protocol, old(me.State()), inner)
  {
    hide Handshake.Valid, Handshake.State, Recv;
    ok := me.RecvStep(inner);
    forall c | c in other.codecs ensures unchanged(c) && unchanged(c.seen) && unchanged(c.packetSeen) {
      assert c !in me.codecs && forall d :: d in me.codecs ==> d.seen != c.seen;
    }
    Untouched(other);
  }

  lemma StateFields(h: Handshake)
    ensures h.State().idx == h.idx && h.State().role == h.role && h.State().priv == h.priv
  {
  }

  /** An endpoint none of whose parts has changed is in the state it was in. */
  twostate lemma Untouched(h: Handshake)
    requires unchanged(h) && forall c :: c in h.codecs ==> unchanged(c) && unchanged(c.seen) && unchanged(c.packetSeen)
    ensures h.Valid() == old(h.Valid()) && h.State() == old(h.State())
  {
    hide MessageCodec.Valid;
    forall c | c in h.codecs ensures c.seen.Abstract() == old(c.seen.Abstract()) && c.Valid() == old(c.Valid()) {
    }
  }

  lemma ExtendRun(p: Protocol, suite: Suite, s: System, moves: seq<Move>, m: Move)
    requires Run(p, suite, s, moves) && Enabled(p, suite, After(p, s, moves), m)
    ensures Run(p, suite, s, moves + [m]) && After(p, s, moves + [m]) == Step(p, After(p, s, moves), m)
  {
    assert (moves + [m])[..|moves|] == moves;
  }

  lemma SealedHasHeader(p: Protocol, suite: Suite, i: nat, priv: Bytes, frame: Bytes)
    requires i < |p.specs| && SealedStep(p, suite, i, priv, frame)
    ensures PlainSize(p.specs[i].plain) <= |frame|
  {
    var m, pad :| SealedMessage(p, suite, i, priv, m, pad, frame);
    TakePlainExact(p.specs[i].plain, frame, m.plain);
  }

  /** NewHandshake with its own codecs. */
  method NewEndpoint(role: Direction, protocol: Protocol, suite: Suite, priv: Bytes) returns (h: Handshake)
    requires Good(protocol)
    ensures h.Valid() && h.State() == NewPeer(role, priv) && fresh(h)
    ensures h.role == role && h.protocol == protocol && h.suite == suite && h.priv == priv
    ensures forall c :: c in h.codecs ==> fresh(c) && fresh(c.seen) && fresh(c.packetSeen)
  {
    assert forall i :: 0 <= i < |protocol.specs| ==> Validated(protocol.specs[i]);
    hide Good, Validated, WellFormed, FreshCodecs, Handshake.Valid, Handshake.State;
    var codecs := NewHandshakeCodecs(protocol);
    h := new Handshake(role, protocol, suite, priv, codecs);
  }

  ghost predicate Apart(a: seq<MessageCodec>, b: seq<MessageCodec>) {
    forall c, d :: c in a && d in b ==> c != d && c.seen != d.seen && c.packetSeen != d.packetSeen
  }
}
