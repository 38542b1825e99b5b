/** What the bootstrap keys do not separate: two handshakes under one pre-shared key seal the same steps under the same
    keys and nonces, and an endpoint cannot tell their frames apart. */
module HandshakeLimits {
  import opened Bytes
  import opened Genome
  import opened AeadModel
  import opened FrameFormat
  import opened ReplayWindow
  import opened Sequence
  import opened EncodingRules
  import opened Framing
  import opened HandshakeModel
  import opened HandshakeSystem

  /** Across handshakes a nonce repeats: the same step sealed for two ephemeral keys has one key and one nonce, and two
      ciphertexts. */
  lemma NonceRepeats(p: Protocol, suite: Suite, i: nat, a: Bytes, b: Bytes, f: Bytes, g: Bytes)
    requires Good(p) && Agrees(suite) && i < |p.specs| && HasKey(p.specs[i]) && suite.pub(a) != suite.pub(b)
    requires SealedStep(p, suite, i, a, f) && SealedStep(p, suite, i, b, g)
    requires PlainSize(p.specs[i].plain) <= |f| && PlainSize(p.specs[i].plain) <= |g|
    ensures var e, d := Entry(p.specs[i], 0, f), Entry(p.specs[i], 0, g);
      e.direction == d.direction && e.nonce == d.nonce && e != d
    ensures f != g
  {
    hide WellFormed, Decoded, CaptureKey, SealedStep, PlainSize;
    SealedStepDecodes(p, suite, i, a, f);
    SealedStepDecodes(p, suite, i, b, g);
    var off := PlainSize(p.specs[i].plain);
    assert f == f[..off] + f[off..] && g == g[..off] + g[off..];
  }

  // ---- a smallest protocol: hello with a key, reply with a key ----

  function KeyMessage(index: nat, direction: Direction): MessageSpec {
    MessageSpec(index, direction, HelloKey,
      [FieldSpec(Length, Plain, U16, Big, 0, 0, 0, None, Constant, Ciphertext)],
      [FieldSpec(Key, Encrypted, Raw32, NoEndian, 32, 0, 0, None, Injected, NoSubject)],
      0, false, false, PaddingPolicy(NoPadding, 0, 0), Aes128)
  }

  /** The pattern c_s, with no other field than length and key. */
  function HelloAndReply(c2s: Aead, s2c: Aead): Protocol {
    Protocol([KeyMessage(0, Client), KeyMessage(1, Server)], c2s, s2c)
  }

  lemma KeyMessageIsGood(index: nat, direction: Direction)
    ensures WellFormed(KeyMessage(index, direction)) && HasKey(KeyMessage(index, direction))
    ensures PlainSize(KeyMessage(index, direction).plain) == 2
  {
    var spec := KeyMessage(index, direction);
    assert FieldWellFormed(spec.encrypted[0]);
    assert PlainSize(spec.plain) == 2 + PlainSize([]);
  }

  lemma HelloAndReplyIsGood(c2s: Aead, s2c: Aead)
    requires Correct(c2s) && Correct(s2c)
    ensures Good(HelloAndReply(c2s, s2c)) && KeysExchanged(HelloAndReply(c2s, s2c))
  {
    hide WellFormed, HasKey, Correct;
    var p := HelloAndReply(c2s, s2c);
    KeyMessageIsGood(0, Client);
    KeyMessageIsGood(1, Server);
    assert HasKey(p.specs[0]) && HasKey(p.specs[1]);
  }

  /** The frame of a key under such a layout. */
  function KeyFrame(aead: Aead, nonce: Bytes, key: Bytes): Bytes {
    var header := BigEndian(48, 2);
    header + aead.seal(nonce, header, key)
  }

  lemma KeyFrameIsFrame(index: nat, direction: Direction, aead: Aead, nonce: Bytes, key: Bytes)
    requires Correct(aead) && |key| == 32
    ensures FrameOf(KeyMessage(index, direction), aead, nonce, Message([BigEndian(48, 2)], [key], []), [],
      KeyFrame(aead, nonce, key))
    ensures |KeyFrame(aead, nonce, key)| == 50
  {
    KeyHeader(index, direction);
    KeyBody(index, direction, key);
    hide Fits, PlainFits, Plaintext, PadValue, DeclaredTotal, BigEndian, KeyMessage, Flatten;
  }

  lemma KeyHeader(index: nat, direction: Direction)
    ensures var spec, header := KeyMessage(index, direction), BigEndian(48, 2);
      PlainFits(spec.plain, [header]) && Flatten([header]) == header && DeclaredTotal(spec, [header], 50) == Some(50)
  {
    var header := BigEndian(48, 2);
    KeyMessageIsGood(index, direction);
    assert Flatten([header]) == header + Flatten([]) == header;
    Pow256Values();
    IntegerRoundTrip(48, 2);
    hide BigEndian, WellFormed;
  }

  lemma KeyBody(index: nat, direction: Direction, key: Bytes)
    requires |key| == 32
    ensures var spec, m := KeyMessage(index, direction), Message([BigEndian(48, 2)], [key], []);
      && Fits(spec.encrypted, m.encrypted) && PadValue(spec, m.plain, m.encrypted) == 0 && Plaintext(spec, m, []) == key
  {
    hide BigEndian;
    var spec := KeyMessage(index, direction);
    assert FieldFits(spec.encrypted[0], key) && Wire(spec.encrypted[0], key) == key;
    assert WireAll(spec.encrypted, [key]) == key + WireAll([], []) == key;
  }

  /** Any holder of an ephemeral key can seal either step. */
  lemma KeyFrameIsSealed(c2s: Aead, s2c: Aead, suite: Suite, i: nat, priv: Bytes)
    requires Correct(c2s) && Correct(s2c) && Agrees(suite) && i < 2
    ensures var p := HelloAndReply(c2s, s2c);
      SealedStep(p, suite, i, priv, KeyFrame(AeadOf(p, i), NonceAt(i, 0), suite.pub(priv)))
  {
    var p := HelloAndReply(c2s, s2c);
    var spec, aead, key := p.specs[i], AeadOf(p, i), suite.pub(priv);
    var m := Message([BigEndian(48, 2)], [key], []);
    KeyFrameIsFrame(i, spec.direction, aead, NonceAt(i, 0), key);
    KeyMessageIsGood(i, spec.direction);
    hide FrameOf, WellFormed, NonceAt, HasKey, KeyFrame, Correct, BigEndian;
    assert SealedMessage(p, suite, i, priv, m, [], KeyFrame(aead, NonceAt(i, 0), key));
  }

  // ---- an old reply ----

  lemma Extend(p: Protocol, suite: Suite, s: System, moves: seq<Move>, m: Move)
    requires Run(p, suite, s, moves) && UnforgedRun(p, s, moves) && Enabled(p, suite, After(p, s, moves), m)
    requires var t := After(p, s, moves); m.Deliver? ==> Unforged(p, t.ledger, Side(t, m.toClient), m.inner)
    ensures Run(p, suite, s, moves + [m]) && UnforgedRun(p, s, moves + [m])
    ensures After(p, s, moves + [m]) == Step(p, After(p, s, moves), m)
  {
    assert (moves + [m])[..|moves|] == moves;
  }

  /** Both endpoints are done with different transcripts, and the client holds the key of an earlier server. */
  ghost predicate Disagreed(p: Protocol, suite: Suite, s: System, oldPriv: Bytes) {
    && s.client.idx == s.server.idx == |p.specs| && s.client.frames != s.server.frames
    && s.client.remote == Some(suite.pub(oldPriv)) && s.server.remote == Some(suite.pub(s.client.priv))
  }

  /** Agreement needs its hypothesis about other handshakes: without forging anything, a network that delivers a
      recorded server reply makes the client finish with another transcript and another key than the live server. */
  lemma OldReplyDisagrees(c2s: Aead, s2c: Aead, suite: Suite, clientPriv: Bytes, serverPriv: Bytes, oldPriv: Bytes)
    returns (foreign: set<Sealing>, moves: seq<Move>)
    requires Correct(c2s) && Correct(s2c) && NonceBound(c2s) && NonceBound(s2c) && Agrees(suite)
    requires suite.pub(serverPriv) != suite.pub(oldPriv)
    ensures var p, s := HelloAndReply(c2s, s2c), Start(clientPriv, serverPriv, foreign);
      && Good(p) && KeysExchanged(p) && Run(p, suite, s, moves) && UnforgedRun(p, s, moves)
      && Disagreed(p, suite, After(p, s, moves), oldPriv)
  {
    hide Good, KeysExchanged, Correct, NonceBound, Agrees, Recv, SealedStep, HasKey, Unforged, NonceAt, KeyFrame,
      PlainSize;
    var p := HelloAndReply(c2s, s2c);
    HelloAndReplyIsGood(c2s, s2c);
    var hello, reply := KeyFrame(AeadOf(p, 0), NonceAt(0, 0), suite.pub(clientPriv)),
      KeyFrame(AeadOf(p, 1), NonceAt(1, 0), suite.pub(serverPriv));
    var stale := KeyFrame(AeadOf(p, 1), NonceAt(1, 0), suite.pub(oldPriv));
    Sealings(c2s, s2c, suite, clientPriv, serverPriv, oldPriv, hello, reply, stale);
    foreign := {Entry(p.specs[1], 0, stale)};
    var s := Start(clientPriv, serverPriv, foreign);
    Extend(p, suite, s, [], Encode(true, hello));
    moves := [] + [Encode(true, hello)];
    Takes(p, suite, After(p, s, moves), false, clientPriv, hello);
    Extend(p, suite, s, moves, Deliver(false, hello));
    moves := moves + [Deliver(false, hello)];
    Extend(p, suite, s, moves, Encode(false, reply));
    moves := moves + [Encode(false, reply)];
    Takes(p, suite, After(p, s, moves), true, oldPriv, stale);
    Extend(p, suite, s, moves, Deliver(true, stale));
    moves := moves + [Deliver(true, stale)];
    var t := After(p, s, moves);
    assert t.client.frames == [hello, stale] && t.server.frames == [hello, reply];
  }

  /** The three frames of the run are sealed steps with their sizes, and the two replies differ. */
  lemma Sealings(c2s: Aead, s2c: Aead, suite: Suite, clientPriv: Bytes, serverPriv: Bytes, oldPriv: Bytes,
                 hello: Bytes, reply: Bytes, stale: Bytes)
    requires Correct(c2s) && Correct(s2c) && Agrees(suite) && suite.pub(serverPriv) != suite.pub(oldPriv)
    requires var p := HelloAndReply(c2s, s2c);
      && hello == KeyFrame(AeadOf(p, 0), NonceAt(0, 0), suite.pub(clientPriv))
      && reply == KeyFrame(AeadOf(p, 1), NonceAt(1, 0), suite.pub(serverPriv))
      && stale == KeyFrame(AeadOf(p, 1), NonceAt(1, 0), suite.pub(oldPriv))
    ensures var p := HelloAndReply(c2s, s2c);
      && SealedStep(p, suite, 0, clientPriv, hello) && SealedStep(p, suite, 1, serverPriv, reply)
      && SealedStep(p, suite, 1, oldPriv, stale) && HasKey(p.specs[0]) && HasKey(p.specs[1])
      && PlainSize(p.specs[0].plain) == 2 == PlainSize(p.specs[1].plain) && |hello| == |reply| == |stale| == 50
    ensures reply != stale
  {
    hide Good, KeysExchanged, Correct, SealedStep, HasKey, NonceAt, KeyFrame, FrameOf, WellFormed, PlainSize;
    var p := HelloAndReply(c2s, s2c);
    HelloAndReplyIsGood(c2s, s2c);
    KeyMessageIsGood(0, Client);
    KeyMessageIsGood(1, Server);
    KeyFrameIsSealed(c2s, s2c, suite, 0, clientPriv);
    KeyFrameIsSealed(c2s, s2c, suite, 1, serverPriv);
    KeyFrameIsSealed(c2s, s2c, suite, 1, oldPriv);
    KeyFrameIsFrame(0, Client, AeadOf(p, 0), NonceAt(0, 0), suite.pub(clientPriv));
    KeyFrameIsFrame(1, Server, AeadOf(p, 1), NonceAt(1, 0), suite.pub(serverPriv));
    KeyFrameIsFrame(1, Server, AeadOf(p, 1), NonceAt(1, 0), suite.pub(oldPriv));
    NonceRepeats(p, suite, 1, serverPriv, oldPriv, reply, stale);
  }

  /** A sealed frame of the ledger is unforged and is taken as its step. */
  lemma Takes(p: Protocol, suite: Suite, s: System, toClient: bool, priv: Bytes, frame: Bytes)
    requires Good(p) && Agrees(suite) && NonceBound(p.c2s) && NonceBound(p.s2c)
    requires var x := Side(s, toClient);
      && x.window == Window(0, {}) && x.idx < |p.specs| && p.specs[x.idx].direction != x.role
      && SealedStep(p, suite, x.idx, priv, frame) && HasKey(p.specs[x.idx])
      && PlainSize(p.specs[x.idx].plain) <= |frame| && Entry(p.specs[x.idx], 0, frame) in s.ledger
    ensures var x := Side(s, toClient);
      && Unforged(p, s.ledger, x, frame)
      && Recv(p, x, frame) == (Encoded(x, frame).(remote := Some(suite.pub(priv))), true)
  {
    var x := Side(s, toClient);
    SealedPrefix(p, suite, x.idx, priv, frame, []);
    SealedIsUnforged(p, suite, s.ledger, x, priv, frame, []);
    assert frame + [] == frame;
    SealedFrameTaken(p, suite, x, priv, frame, frame);
    hide Good, Agrees, NonceBound, Recv, SealedStep, HasKey, Unforged, DeclaredPrefix;
  }
}
