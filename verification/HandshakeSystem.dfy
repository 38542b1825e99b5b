/** One client and one server over a network that loses, repeats, reorders, alters and makes up datagrams. The bootstrap
    keys come from the pre-shared key alone, so other handshakes seal under them too: their sealings are `foreign`. */
module HandshakeSystem {
  import opened Bytes
  import opened Genome
  import opened AeadModel
  import opened FrameFormat
  import opened ReplayWindow
  import opened Sequence
  import opened EncodingRules
  import opened Framing
  import opened HandshakeModel

  /** One sealing operation under a bootstrap key, of which the direction says which: the AEAD's ledger. */
  datatype Sealing = Sealing(direction: Direction, nonce: Bytes, ad: Bytes, ciphertext: Bytes)

  datatype System = System(client: Peer, server: Peer, ledger: set<Sealing>)

  datatype Move = Encode(byClient: bool, frame: Bytes) | Deliver(toClient: bool, inner: Bytes)

  function Entry(spec: MessageSpec, t: nat, frame: Bytes): Sealing
    requires PlainSize(spec.plain) <= |frame|
  {
    var off := PlainSize(spec.plain);
    Sealing(spec.direction, NonceAt(spec.index, t), frame[..off], frame[off..])
  }

  function Side(s: System, client: bool): Peer {
    if client then s.client else s.server
  }

  function Recorded(p: Protocol, x: Peer, ledger: set<Sealing>, frame: Bytes): set<Sealing> {
    if x.idx < |p.specs| && PlainSize(p.specs[x.idx].plain) <= |frame|
    then ledger + {Entry(p.specs[x.idx], 0, frame)} else ledger
  }

  function Step(p: Protocol, s: System, m: Move): System {
    match m
    case Encode(true, frame) => System(Encoded(s.client, frame), s.server, Recorded(p, s.client, s.ledger, frame))
    case Encode(false, frame) => System(s.client, Encoded(s.server, frame), Recorded(p, s.server, s.ledger, frame))
    case Deliver(true, inner) => s.(client := Recv(p, s.client, inner).0)
    case Deliver(false, inner) => s.(server := Recv(p, s.server, inner).0)
  }

  function After(p: Protocol, s: System, moves: seq<Move>): System {
    if moves == [] then s else Step(p, After(p, s, moves[..|moves| - 1]), moves[|moves| - 1])
  }

  /** Two fresh endpoints, after other handshakes under the same bootstrap keys. */
  function Start(clientPriv: Bytes, serverPriv: Bytes, foreign: set<Sealing>): System {
    System(NewPeer(Client, clientPriv), NewPeer(Server, serverPriv), foreign)
  }

  ghost predicate CanEncode(p: Protocol, suite: Suite, x: Peer, frame: Bytes) {
    && x.idx < |p.specs| && p.specs[x.idx].direction == x.role && SealedStep(p, suite, x.idx, x.priv, frame)
    && PlainSize(p.specs[x.idx].plain) <= |frame|
  }

  /** Any bytes can be delivered; a frame can be encoded on its step only. */
  ghost predicate Enabled(p: Protocol, suite: Suite, s: System, m: Move) {
    m.Encode? ==> CanEncode(p, suite, Side(s, m.byClient), m.frame)
  }

  ghost predicate Run(p: Protocol, suite: Suite, s: System, moves: seq<Move>) {
    moves == [] || (
      && Run(p, suite, s, moves[..|moves| - 1])
      && Enabled(p, suite, After(p, s, moves[..|moves| - 1]), moves[|moves| - 1]))
  }

  // ---- the agreement of two endpoints ----

  /** Messages at or past y's position that x has already handled are x's own. */
  ghost predicate Leads(p: Protocol, x: Peer, y: Peer) {
    && x.idx == |x.frames| <= |p.specs| && x.window == Window(0, {})
    && (forall i :: y.idx <= i < x.idx ==> p.specs[i].direction == x.role)
  }

  /** Everything x sent is a sealed step of its own. */
  ghost predicate SentRight(p: Protocol, suite: Suite, x: Peer)
    requires x.idx == |x.frames| <= |p.specs|
  {
    forall i :: 0 <= i < x.idx && p.specs[i].direction == x.role ==> SealedStep(p, suite, i, x.priv, x.frames[i])
  }

  /** x holds y's public key exactly when it has handled a message of y's that carries it. */
  ghost predicate HoldsKey(p: Protocol, suite: Suite, x: Peer, y: Peer)
    requires x.idx <= |p.specs|
  {
    x.remote == if exists i :: 0 <= i < x.idx && p.specs[i].direction == y.role && HasKey(p.specs[i])
                then Some(suite.pub(y.priv)) else None
  }

  ghost predicate SameFrames(x: Peer, y: Peer) {
    forall i :: 0 <= i < |x.frames| && i < |y.frames| ==> x.frames[i] == y.frames[i]
  }

  ghost predicate Pair(p: Protocol, suite: Suite, x: Peer, y: Peer) {
    && x.role in {Client, Server} && y.role in {Client, Server} && x.role != y.role
    && Leads(p, x, y) && Leads(p, y, x)
    && SameFrames(x, y)
    && SentRight(p, suite, x) && SentRight(p, suite, y)
    && HoldsKey(p, suite, x, y) && HoldsKey(p, suite, y, x)
  }

  ghost predicate Inv(p: Protocol, suite: Suite, s: System) {
    s.client.role == Client && s.server.role == Server && Pair(p, suite, s.client, s.server)
  }

  lemma PairSymmetric(p: Protocol, suite: Suite, x: Peer, y: Peer)
    requires Pair(p, suite, x, y)
    ensures Pair(p, suite, y, x)
  {
  }

  lemma EncodeKeeps(p: Protocol, suite: Suite, x: Peer, y: Peer, frame: Bytes)
    requires Good(p) && Pair(p, suite, x, y) && CanEncode(p, suite, x, frame)
    ensures Pair(p, suite, Encoded(x, frame), y)
  {
    hide SealedStep, Good, PlainSize, HasKey;
    assert y.idx <= x.idx;
  }

  /** The datagram changes nothing, or is taken and declares the very frame the peer has sealed for the awaited step. */
  ghost predicate Harmless(p: Protocol, x: Peer, y: Peer, inner: Bytes) {
    || Recv(p, x, inner).0 == x
    || (Recv(p, x, inner).1 && x.idx < y.idx && x.idx < |p.specs| && x.idx < |y.frames|
        && DeclaredPrefix(p.specs[x.idx], inner) == Some(y.frames[x.idx]))
  }

  /** Whatever Recv does, the frame it appends is the declared prefix. */
  lemma RecvAppendsPrefix(p: Protocol, x: Peer, inner: Bytes)
    ensures var (v, ok) := Recv(p, x, inner);
      && (ok ==> x.idx < |p.specs| && p.specs[x.idx].direction != x.role && DeclaredPrefix(p.specs[x.idx], inner).Some?
                 && v.frames == x.frames + [DeclaredPrefix(p.specs[x.idx], inner).value]
                 && v.idx == x.idx + 1 && v.window == Window(0, {}))
      && (!ok ==> v == x.(window := v.window))
      && v.role == x.role && v.priv == x.priv
  {
    hide Decoded, DeclaredPrefix, CaptureKey, FirstProbe, Accept;
  }

  /** The peer's own frame is taken as what it is. */
  lemma PeerFrameKeeps(p: Protocol, suite: Suite, x: Peer, y: Peer, inner: Bytes)
    requires Good(p) && Agrees(suite) && Pair(p, suite, x, y)
    requires Recv(p, x, inner).1 && x.idx < y.idx && DeclaredPrefix(p.specs[x.idx], inner) == Some(y.frames[x.idx])
    ensures Pair(p, suite, Recv(p, x, inner).0, y)
  {
    hide Recv, HasKey, SealedStep, WellFormed, Correct, DeclaredPrefix;
    var frame := y.frames[x.idx];
    RecvAppendsPrefix(p, x, inner);
    assert SealedStep(p, suite, x.idx, y.priv, frame);
    SealedFrameTaken(p, suite, x, y.priv, frame, inner);
  }

  /** Exactly which datagrams keep two endpoints in agreement: those that are harmless, and no others. */
  lemma DeliveryExact(p: Protocol, suite: Suite, x: Peer, y: Peer, inner: Bytes)
    requires Good(p) && Agrees(suite) && Pair(p, suite, x, y)
    ensures Pair(p, suite, Recv(p, x, inner).0, y) <==> Harmless(p, x, y, inner)
  {
    hide Recv, HasKey, SealedStep, WellFormed, Correct, DeclaredPrefix, HoldsKey, SentRight;
    RecvAppendsPrefix(p, x, inner);
    var (v, ok) := Recv(p, x, inner);
    if ok && x.idx < y.idx && DeclaredPrefix(p.specs[x.idx], inner) == Some(y.frames[x.idx]) {
      PeerFrameKeeps(p, suite, x, y, inner);
    }
  }

  ghost predicate HarmlessMove(p: Protocol, s: System, m: Move) {
    m.Deliver? ==> Harmless(p, Side(s, m.toClient), Side(s, !m.toClient), m.inner)
  }

  /** One move keeps the agreement exactly if it is no delivery or a harmless one. */
  lemma StepExact(p: Protocol, suite: Suite, s: System, m: Move)
    requires Good(p) && Agrees(suite) && Inv(p, suite, s) && Enabled(p, suite, s, m)
    ensures Inv(p, suite, Step(p, s, m)) <==> HarmlessMove(p, s, m)
  {
    hide Good, Pair, Recv, CanEncode, Harmless;
    var byClient := if m.Encode? then m.byClient else m.toClient;
    var x, y := Side(s, byClient), Side(s, !byClient);
    if !byClient {
      PairSymmetric(p, suite, s.client, s.server);
    }
    if m.Encode? {
      EncodeKeeps(p, suite, x, y, m.frame);
      PairSymmetric(p, suite, Encoded(x, m.frame), y);
    } else {
      DeliveryExact(p, suite, x, y, m.inner);
      RecvAppendsPrefix(p, x, m.inner);
      EitherWay(p, suite, Recv(p, x, m.inner).0, y);
    }
  }

  lemma EitherWay(p: Protocol, suite: Suite, x: Peer, y: Peer)
    ensures Pair(p, suite, x, y) <==> Pair(p, suite, y, x)
  {
  }

  /** Every delivery of the run is harmless. */
  ghost predicate HarmlessRun(p: Protocol, s: System, moves: seq<Move>) {
    moves == [] || (
      && HarmlessRun(p, s, moves[..|moves| - 1])
      && HarmlessMove(p, After(p, s, moves[..|moves| - 1]), moves[|moves| - 1]))
  }

  /** The two endpoints are in agreement after every part of the run. */
  ghost predicate AlwaysInv(p: Protocol, suite: Suite, s: System, moves: seq<Move>) {
    Inv(p, suite, After(p, s, moves)) && (moves != [] ==> AlwaysInv(p, suite, s, moves[..|moves| - 1]))
  }

  /** Agreement is exact: on every run, over a network that may deliver anything, the endpoints are in agreement
      throughout if and only if every delivery is harmless. */
  lemma {:induction false} AgreementExactly(p: Protocol, suite: Suite, clientPriv: Bytes, serverPriv: Bytes,
                                            foreign: set<Sealing>, moves: seq<Move>)
    requires Good(p) && Agrees(suite) && Run(p, suite, Start(clientPriv, serverPriv, foreign), moves)
    ensures var s := Start(clientPriv, serverPriv, foreign); AlwaysInv(p, suite, s, moves) <==> HarmlessRun(p, s, moves)
  {
    hide Recv, Good, Agrees, HarmlessMove, Enabled, Step;
    var s := Start(clientPriv, serverPriv, foreign);
    if moves != [] {
      var before := moves[..|moves| - 1];
      AgreementExactly(p, suite, clientPriv, serverPriv, foreign, before);
      hide Inv;
      if HarmlessRun(p, s, before) {
        StepExact(p, suite, After(p, s, before), moves[|moves| - 1]);
      }
    }
  }

  // ---- the ledger ----

  ghost predicate Counted(p: Protocol, x: Peer) {
    x.idx == |x.frames| <= |p.specs|
  }

  /** e is the sealing of step i by x. */
  ghost predicate IsEntry(p: Protocol, x: Peer, i: nat, e: Sealing)
    requires Counted(p, x)
  {
    i < x.idx && p.specs[i].direction == x.role && PlainSize(p.specs[i].plain) <= |x.frames[i]|
    && e == Entry(p.specs[i], 0, x.frames[i])
  }

  /** All that x has sealed is in the ledger. */
  ghost predicate Logged(p: Protocol, x: Peer, ledger: set<Sealing>)
    requires Counted(p, x)
  {
    forall i :: 0 <= i < x.idx && p.specs[i].direction == x.role ==>
      PlainSize(p.specs[i].plain) <= |x.frames[i]| && Entry(p.specs[i], 0, x.frames[i]) in ledger
  }

  /** The ledger holds the foreign sealings, those of the two endpoints, and nothing else. */
  ghost predicate Books(p: Protocol, foreign: set<Sealing>, s: System) {
    && s.client.role == Client && s.server.role == Server && Counted(p, s.client) && Counted(p, s.server)
    && foreign <= s.ledger && Logged(p, s.client, s.ledger) && Logged(p, s.server, s.ledger)
    && forall e :: e in s.ledger && e !in foreign ==>
         exists i :: IsEntry(p, s.client, i, e) || IsEntry(p, s.server, i, e)
  }

  /** One more frame in a transcript, sealed by its endpoint or received, keeps its own sealings. */
  lemma EntriesKeep(p: Protocol, x: Peer, v: Peer, ledger: set<Sealing>, more: set<Sealing>)
    requires Counted(p, x) && Counted(p, v) && v.role == x.role && x.frames <= v.frames && ledger <= more
    requires Logged(p, x, ledger)
    requires forall i :: x.idx <= i < v.idx && p.specs[i].direction == v.role ==>
      PlainSize(p.specs[i].plain) <= |v.frames[i]| && Entry(p.specs[i], 0, v.frames[i]) in more
    ensures Logged(p, v, more)
    ensures forall i, e :: IsEntry(p, x, i, e) ==> IsEntry(p, v, i, e)
  {
    hide Entry, PlainSize;
  }

  lemma BooksKeep(p: Protocol, suite: Suite, foreign: set<Sealing>, s: System, m: Move)
    requires Books(p, foreign, s) && Enabled(p, suite, s, m)
    ensures Books(p, foreign, Step(p, s, m))
  {
    hide Recv, Entry, PlainSize, SealedStep;
    var byClient := if m.Encode? then m.byClient else m.toClient;
    var t := Step(p, s, m);
    var x, v := Side(s, byClient), Side(t, byClient);
    if m.Deliver? {
      RecvAppendsPrefix(p, x, m.inner);
    }
    EntriesKeep(p, x, v, s.ledger, t.ledger);
    EntriesKeep(p, Side(s, !byClient), Side(s, !byClient), s.ledger, t.ledger);
    hide Step;
    forall e | e in t.ledger && e !in foreign
      ensures exists i :: IsEntry(p, t.client, i, e) || IsEntry(p, t.server, i, e)
    {
      if e in s.ledger {
        var i :| IsEntry(p, s.client, i, e) || IsEntry(p, s.server, i, e);
      } else {
        assert IsEntry(p, v, x.idx, e);
      }
    }
  }

  /** On every run, whatever is delivered, the books are in order. */
  lemma {:induction false} BooksInOrder(p: Protocol, suite: Suite, clientPriv: Bytes, serverPriv: Bytes,
                                        foreign: set<Sealing>, moves: seq<Move>)
    requires Run(p, suite, Start(clientPriv, serverPriv, foreign), moves)
    ensures Books(p, foreign, After(p, Start(clientPriv, serverPriv, foreign), moves))
  {
    if moves != [] {
      var s := Start(clientPriv, serverPriv, foreign);
      BooksInOrder(p, suite, clientPriv, serverPriv, foreign, moves[..|moves| - 1]);
      hide Books, Step, Enabled;
      BooksKeep(p, suite, foreign, After(p, s, moves[..|moves| - 1]), moves[|moves| - 1]);
    }
  }

  /** No two frames that the endpoints of one handshake seal under one key share a nonce. */
  lemma NoncesDistinct(p: Protocol, s: System, e: Sealing, f: Sealing)
    requires Good(p) && Books(p, {}, s) && e in s.ledger && f in s.ledger && e.direction == f.direction
    ensures e.nonce == f.nonce ==> e == f
  {
    hide WellFormed, NonceAt, PlainSize;
    var i :| IsEntry(p, s.client, i, e) || IsEntry(p, s.server, i, e);
    var j :| IsEntry(p, s.client, j, f) || IsEntry(p, s.server, j, f);
    NonceInjective(i, 0, j, 0);
  }

  // ---- deliveries that are not forged ----

  /** The AEAD is not broken: if the bytes open under some nonce then that nonce, header and ciphertext are in the
      ledger. They were sealed by one of the two endpoints or in another handshake under the same keys. */
  ghost predicate Unforged(p: Protocol, ledger: set<Sealing>, x: Peer, inner: Bytes) {
    x.idx < |p.specs| ==>
      var spec := p.specs[x.idx];
      match DeclaredPrefix(spec, inner)
      case None => true
      case Some(frame) =>
        forall t: nat :: PlainSize(spec.plain) <= |frame|
                         && Decoded(spec, AeadOf(p, x.idx), NonceAt(spec.index, t), frame).Some? ==>
          Entry(spec, t, frame) in ledger
  }

  /** frame was sealed in another handshake for the layout `spec`. */
  ghost predicate OfAnother(foreign: set<Sealing>, spec: MessageSpec, frame: Bytes) {
    PlainSize(spec.plain) <= |frame| && exists t: nat :: Entry(spec, t, frame) in foreign
  }

  /** The bytes declare no frame of another handshake for the awaited step, unless the peer has sealed the same. */
  ghost predicate Current(p: Protocol, foreign: set<Sealing>, x: Peer, y: Peer, inner: Bytes) {
    x.idx < |p.specs| ==>
      match DeclaredPrefix(p.specs[x.idx], inner)
      case None => true
      case Some(frame) =>
        OfAnother(foreign, p.specs[x.idx], frame) ==> x.idx < y.idx && x.idx < |y.frames| && frame == y.frames[x.idx]
  }

  /** A sealing determines its step and its frame. */
  lemma EntryMatches(p: Protocol, z: Peer, j: nat, i: nat, at: nat, frame: Bytes)
    requires Good(p) && Counted(p, z) && i < |p.specs| && at < STREAM_WINDOW
    requires PlainSize(p.specs[i].plain) <= |frame| && IsEntry(p, z, j, Entry(p.specs[i], at, frame))
    ensures i == j && at == 0 && i < z.idx && p.specs[i].direction == z.role && frame == z.frames[i]
  {
    hide WellFormed, NonceAt, PlainSize;
    NonceInjective(i, at, j, 0);
    var off, sent := PlainSize(p.specs[i].plain), z.frames[j];
    assert frame == frame[..off] + frame[off..] && sent == sent[..off] + sent[off..];
  }

  /** Whatever opens at the awaited step is the frame the peer has sealed for it, unless it comes from another
      handshake. */
  lemma ReceivedIsSent(p: Protocol, foreign: set<Sealing>, s: System, toClient: bool, inner: Bytes, frame: Bytes,
                       at: nat)
    requires var x, y := Side(s, toClient), Side(s, !toClient);
      && Good(p) && Books(p, foreign, s) && Unforged(p, s.ledger, x, inner) && Current(p, foreign, x, y, inner)
      && x.idx < |p.specs| && p.specs[x.idx].direction != x.role && at < STREAM_WINDOW
      && DeclaredPrefix(p.specs[x.idx], inner) == Some(frame)
      && Decoded(p.specs[x.idx], AeadOf(p, x.idx), NonceAt(p.specs[x.idx].index, at), frame).Some?
    ensures var x, y := Side(s, toClient), Side(s, !toClient); x.idx < y.idx && frame == y.frames[x.idx]
  {
    hide Decoded, FrameOf, WellFormed, IsEntry, Logged, Entry;
    var x, y := Side(s, toClient), Side(s, !toClient);
    var spec := p.specs[x.idx];
    PrefixHoldsHeader(spec, inner);
    var e := Entry(spec, at, frame);
    assert e in s.ledger;
    if e in foreign {
      assert OfAnother(foreign, spec, frame);
    } else {
      var j :| IsEntry(p, s.client, j, e) || IsEntry(p, s.server, j, e);
      if IsEntry(p, x, j, e) {
        EntryMatches(p, x, j, x.idx, at, frame);
      } else {
        EntryMatches(p, y, j, x.idx, at, frame);
      }
    }
  }

  /** Unforged bytes that do not come from another handshake are harmless. */
  lemma UnforgedIsHarmless(p: Protocol, suite: Suite, foreign: set<Sealing>, s: System, toClient: bool, inner: Bytes)
    requires Good(p) && Agrees(suite) && Inv(p, suite, s) && Books(p, foreign, s)
    requires var x, y := Side(s, toClient), Side(s, !toClient);
      Unforged(p, s.ledger, x, inner) && Current(p, foreign, x, y, inner)
    ensures Harmless(p, Side(s, toClient), Side(s, !toClient), inner)
  {
    hide Decoded, FrameOf, WellFormed, DeclaredPrefix, CaptureKey, SealedStep, Unforged, Current, Books, HasKey, Agrees;
    var x, y := Side(s, toClient), Side(s, !toClient);
    if x.idx < |p.specs| && p.specs[x.idx].direction != x.role {
      var spec, aead := p.specs[x.idx], AeadOf(p, x.idx);
      match DeclaredPrefix(spec, inner)
      case None =>
      case Some(frame) =>
        FirstProbeExact(spec, aead, frame, 0, STREAM_WINDOW);
        match FirstProbe(spec, aead, frame, 0, STREAM_WINDOW)
        case None =>
        case Some(at) =>
          ReceivedIsSent(p, foreign, s, toClient, inner, frame, at);
          SealedFrameTaken(p, suite, x, y.priv, frame, inner);
    }
  }

  /** Nothing delivered on the run is forged. */
  ghost predicate UnforgedRun(p: Protocol, s: System, moves: seq<Move>) {
    moves == [] || (
      && UnforgedRun(p, s, moves[..|moves| - 1])
      && var before, m := After(p, s, moves[..|moves| - 1]), moves[|moves| - 1];
         m.Deliver? ==> Unforged(p, before.ledger, Side(before, m.toClient), m.inner))
  }

  /** Nothing delivered on the run declares a frame of another handshake for the awaited step. */
  ghost predicate CurrentRun(p: Protocol, foreign: set<Sealing>, s: System, moves: seq<Move>) {
    moves == [] || (
      && CurrentRun(p, foreign, s, moves[..|moves| - 1])
      && var before, m := After(p, s, moves[..|moves| - 1]), moves[|moves| - 1];
         m.Deliver? ==> Current(p, foreign, Side(before, m.toClient), Side(before, !m.toClient), m.inner))
  }

  lemma {:induction false} RunKeeps(p: Protocol, suite: Suite, clientPriv: Bytes, serverPriv: Bytes,
                                    foreign: set<Sealing>, moves: seq<Move>)
    requires Good(p) && Agrees(suite) && Run(p, suite, Start(clientPriv, serverPriv, foreign), moves)
    requires UnforgedRun(p, Start(clientPriv, serverPriv, foreign), moves)
    requires CurrentRun(p, foreign, Start(clientPriv, serverPriv, foreign), moves)
    ensures var s := After(p, Start(clientPriv, serverPriv, foreign), moves);
      Inv(p, suite, s) && s.client.priv == clientPriv && s.server.priv == serverPriv
  {
    hide Recv, Good, Agrees, Unforged, Current, Harmless, Books, CanEncode;
    var s := Start(clientPriv, serverPriv, foreign);
    if moves != [] {
      var before, m := moves[..|moves| - 1], moves[|moves| - 1];
      RunKeeps(p, suite, clientPriv, serverPriv, foreign, before);
      hide Inv, Pair;
      BooksInOrder(p, suite, clientPriv, serverPriv, foreign, before);
      if m.Deliver? {
        UnforgedIsHarmless(p, suite, foreign, After(p, s, before), m.toClient, m.inner);
        RecvAppendsPrefix(p, Side(After(p, s, before), m.toClient), m.inner);
      }
      StepExact(p, suite, After(p, s, before), m);
    }
  }

  /** The two endpoints have come to the same handshake: equal transcripts, each other's keys, the same session keys,
      and what one sends with is what the other receives with. */
  ghost predicate Agreed(p: Protocol, suite: Suite, s: System, psk: Bytes, keyLen: nat) {
    var kc, ks := SessionKeys(p, suite, s.client, psk, keyLen), SessionKeys(p, suite, s.server, psk, keyLen);
    && s.client.frames == s.server.frames
    && s.client.remote == Some(suite.pub(s.server.priv)) && s.server.remote == Some(suite.pub(s.client.priv))
    && kc.Ok? && kc == ks
    && SendKey(Client, kc.value) == RecvKey(Server, ks.value)
    && SendKey(Server, ks.value) == RecvKey(Client, kc.value)
  }

  /** Endpoints in agreement that are both done have come to the same handshake. */
  lemma DoneIsAgreed(p: Protocol, suite: Suite, s: System, psk: Bytes, keyLen: nat)
    requires Agrees(suite) && KeysExchanged(p) && Inv(p, suite, s) && s.client.idx == s.server.idx == |p.specs|
    ensures Agreed(p, suite, s, psk, keyLen)
  {
    hide SentRight, HasKey;
    assert s.client.frames == s.server.frames;
    var c, d := s.client.priv, s.server.priv;
    assert suite.dh(c, suite.pub(d)) == suite.dh(d, suite.pub(c));
  }

  /** Agreement: on every run on which nothing is forged and no delivered datagram declares a frame of another handshake
      for the awaited step, the transcripts are always prefixes of one another, and endpoints that are both done have
      come to the same handshake. */
  lemma HandshakeAgreement(p: Protocol, suite: Suite, clientPriv: Bytes, serverPriv: Bytes, foreign: set<Sealing>,
                           moves: seq<Move>, psk: Bytes, keyLen: nat)
    requires Good(p) && Agrees(suite) && Run(p, suite, Start(clientPriv, serverPriv, foreign), moves)
    requires UnforgedRun(p, Start(clientPriv, serverPriv, foreign), moves)
    requires CurrentRun(p, foreign, Start(clientPriv, serverPriv, foreign), moves)
    ensures var s := After(p, Start(clientPriv, serverPriv, foreign), moves);
      && s.client.priv == clientPriv && s.server.priv == serverPriv
      && (s.client.frames <= s.server.frames || s.server.frames <= s.client.frames)
      && (KeysExchanged(p) && s.client.idx == s.server.idx == |p.specs| ==> Agreed(p, suite, s, psk, keyLen))
  {
    hide Recv, Good, SentRight, HasKey, UnforgedRun, CurrentRun, Agreed;
    RunKeeps(p, suite, clientPriv, serverPriv, foreign, moves);
    var s := After(p, Start(clientPriv, serverPriv, foreign), moves);
    if KeysExchanged(p) && s.client.idx == s.server.idx == |p.specs| {
      DoneIsAgreed(p, suite, s, psk, keyLen);
    }
  }

  /** A sealed frame whose sealing is in the ledger is unforged, with any tail. */
  lemma SealedIsUnforged(p: Protocol, suite: Suite, ledger: set<Sealing>, x: Peer, priv: Bytes, frame: Bytes,
                         tail: Bytes)
    requires Good(p) && Agrees(suite) && NonceBound(p.c2s) && NonceBound(p.s2c)
    requires x.idx < |p.specs| && SealedStep(p, suite, x.idx, priv, frame)
    requires PlainSize(p.specs[x.idx].plain) <= |frame| && Entry(p.specs[x.idx], 0, frame) in ledger
    ensures Unforged(p, ledger, x, frame + tail)
  {
    hide WellFormed, Decoded, DeclaredPrefix, SealedStep, PlainSize, NonceAt;
    GenuineFrameOpens(p, suite, x.idx, priv, frame, tail);
  }

  /** A genuine frame is never refused: whenever the peer has sealed the step an endpoint waits for, that frame, with
      any tail behind it, is unforged and advances the endpoint. */
  lemma GenuineFrameAccepted(p: Protocol, suite: Suite, foreign: set<Sealing>, s: System, toClient: bool, tail: Bytes)
    requires Good(p) && Agrees(suite) && NonceBound(p.c2s) && NonceBound(p.s2c) && Inv(p, suite, s)
      && Books(p, foreign, s)
    requires Side(s, toClient).idx < Side(s, !toClient).idx
    ensures var x, y := Side(s, toClient), Side(s, !toClient);
      var inner := y.frames[x.idx] + tail;
      && Unforged(p, s.ledger, x, inner) && Current(p, foreign, x, y, inner)
      && Recv(p, x, inner).1 && Recv(p, x, inner).0.idx == x.idx + 1
  {
    hide WellFormed, FrameOf, Decoded, DeclaredPrefix, CaptureKey, HasKey, IsEntry;
    var x, y := Side(s, toClient), Side(s, !toClient);
    var i, frame := x.idx, y.frames[x.idx];
    assert p.specs[i].direction == y.role && SealedStep(p, suite, i, y.priv, frame);
    SealedPrefix(p, suite, i, y.priv, frame, tail);
    SealedFrameTaken(p, suite, x, y.priv, frame, frame + tail);
    SealedIsUnforged(p, suite, s.ledger, x, y.priv, frame, tail);
  }
}
