/** The server multiplexer: its tables, one method per critical section, so that every interleaving of the read loop,
    the retransmit timer, session closes and accepts is a sequence of calls. */
module Mux {
  import opened Bytes
  import opened Replay
  import HandshakeModel
  import Framing
  import opened AeadModel
  import Genome

  const MAX_PENDING_HANDSHAKES: nat := 1024
  const MIN_FIRST_DATAGRAM: nat := 16
  const NEW_HANDSHAKE_MIN_GAP: int := 1_000_000_000
  const ACCEPT_BACKLOG: nat := 32

  type Addr = nat
  type Id = nat

  /** Whose turn each handshake step is, true for the server. A compiled protocol has at least one step. */
  type Turns = s: seq<bool> | s != [] witness [false]

  /** What a datagram is to one protocol of the window: its turns, and the replay key of the datagram when it
      authenticates as the first client frame. */
  datatype Candidate = Candidate(steps: Turns, first: Option<Key>)

  predicate ServerFirst(c: Candidate) {
    c.steps[0]
  }

  datatype Selection = Refused | Chosen(protocol: nat, primed: bool)

  /** A handshake in flight. `authentic` says that a frame or a knock of its client has authenticated, `sent` that a
      frame is kept for retransmission. */
  datatype Pending = Pending(id: Id, addr: Addr, steps: Turns, step: nat,
                             authentic: bool, recvOK: bool, sent: bool, primed: bool)

  predicate Done(p: Pending) {
    p.step >= |p.steps|
  }

  /** A handshake nobody has authenticated waits for its first client frame; one that is authentic but has made no
      progress waits to send its first server frame. */
  predicate Sound(p: Pending) {
    && (p.recvOK || p.sent || p.primed ==> p.authentic)
    && (!p.authentic ==> p.step == 0 && !p.steps[0])
    && (p.authentic && !p.recvOK && !p.sent && !p.primed ==> p.step == 0 && p.steps[0])
  }

  /** The client frame is taken: it is the client's turn, it opens, and selection has not taken it already. */
  predicate TakesFrame(p: Pending, opens: bool) {
    !p.primed && !Done(p) && !p.steps[p.step] && opens
  }

  /** The step after a client frame that is taken. */
  function DueFrom(p: Pending, opens: bool): nat {
    if TakesFrame(p, opens) then p.step + 1 else p.step
  }

  /** How advance moves a handshake from p to q: it takes the client frame if it is the client's turn and
      the frame opens, then sends all server frames up to the client's next turn, or as many as `budget` lets it, and
      keeps one for retransmission exactly when it sent one or kept one and took nothing. */
  ghost predicate Moved(p: Pending, q: Pending, opens: bool, budget: nat) {
    var takes, from := TakesFrame(p, opens), DueFrom(p, opens);
    && from <= q.step <= from + budget && (from < q.step ==> q.step <= |p.steps|)
    && (forall i :: from <= i < q.step ==> p.steps[i])
    && (Done(q) || !q.steps[q.step] || q.step == from + budget)
    && q == p.(authentic := p.authentic || takes, primed := false, recvOK := p.recvOK || p.primed || takes,
               step := q.step, sent := from < q.step || (p.sent && !p.primed && !takes))
  }

  /** When nothing fails to encode or to be written, every server frame due goes out: the handshake stops at the
      client's next turn, and is finished exactly when the client has none left. */
  lemma EverythingDueIsSent(p: Pending, q: Pending, opens: bool, budget: nat)
    requires Moved(p, q, opens, budget) && |p.steps| <= budget
    ensures Done(q) || !p.steps[q.step]
    ensures NextPhase(q) ==
      if forall i :: DueFrom(p, opens) <= i < |p.steps| ==> p.steps[i] then Finishing(q) else Idle
    ensures q.sent <==> DueFrom(p, opens) < q.step || (p.sent && !p.primed && !TakesFrame(p, opens))
  {
    if !Done(q) {
      assert q.step < DueFrom(p, opens) + budget;
      assert !p.steps[q.step];
    }
  }

  /** What one pass of advance makes of the tables. */
  ghost predicate Advanced(t: Tables, after: Tables, q: Pending, opens: bool, budget: nat)
    requires t.phase.Advancing?
  {
    var p := t.phase.p;
    if !p.authentic then after == Abandoned(t, p.addr)
    else if Done(p) && !p.primed then after == Left(t)
    else after == Resumed(t, q) && Moved(p, q, opens, budget)
  }

  /** A session closes once: it is live, then closing, and gone when its own table entry has been deleted.
      `handshake` is the handshake it came from. */
  datatype Status = Live | Closing | Gone
  datatype Session = Session(addr: Addr, handshake: Id, status: Status)

  /** Where the read loop is: between datagrams, advancing a handshake, about to publish it, about to queue the
      session it has published, or closing that session because the queue was full. */
  datatype Phase = Idle | Advancing(p: Pending) | Finishing(p: Pending) | Offering(s: nat) | Shedding(s: nat)

  function InFlight(phase: Phase): set<Addr> {
    match phase
    case Advancing(p) => {p.addr}
    case Finishing(p) => {p.addr}
    case _ => {}
  }

  lemma UpdatedKeys<V>(m: map<Addr, V>, addr: Addr, v: V)
    ensures m[addr := v].Keys == m.Keys + {addr}
  {
  }

  // ---- the caps ----

  /** Established addresses have no handshake, and the caps hold, counting the handshake the read loop has in hand. */
  ghost predicate Capped(maxSessions: nat, established: set<Addr>, pending: set<Addr>, flight: set<Addr>) {
    && established !! pending
    && established !! flight
    && |pending| <= MAX_PENDING_HANDSHAKES
    && (maxSessions > 0 ==> |established + pending + flight| <= maxSessions)
  }

  /** A step that takes no new slot keeps the caps. */
  lemma NoNewSlot(maxSessions: nat, e: set<Addr>, p: set<Addr>, f: set<Addr>,
                  e': set<Addr>, p': set<Addr>, f': set<Addr>)
    requires Capped(maxSessions, e, p, f)
    requires e' <= e && p' <= p && f' <= f + p
    ensures Capped(maxSessions, e', p', f')
  {
    SubsetSize(p', p);
    SubsetSize(e' + p' + f', e + p + f);
  }

  /** The read loop lets go of the handshake in hand, or keeps it in hand. */
  lemma SameSlot(maxSessions: nat, e: set<Addr>, p: set<Addr>, addr: Addr, f: set<Addr>)
    requires Capped(maxSessions, e, p, {addr}) && f <= {addr}
    ensures Capped(maxSessions, e, p, f)
  {
    NoNewSlot(maxSessions, e, p, {addr}, e, p, f);
  }

  /** A new handshake below both caps. */
  lemma NewSlot(maxSessions: nat, e: set<Addr>, p: set<Addr>, addr: Addr)
    requires Capped(maxSessions, e, p, {}) && addr !in e && addr !in p
    requires |p| < MAX_PENDING_HANDSHAKES && (maxSessions > 0 ==> |e| + |p| < maxSessions)
    ensures Capped(maxSessions, e, p + {addr}, {addr})
  {
    assert e + (p + {addr}) + {addr} == e + p + {addr};
    assert |e + p| == |e| + |p|;
  }

  /** The slot of a finished handshake becomes its session's, so neither of the two refusals the code has at this
      point can happen. */
  lemma SlotHandedOver(maxSessions: nat, e: set<Addr>, p: set<Addr>, addr: Addr)
    requires Capped(maxSessions, e, p, {addr})
    ensures addr !in e && (maxSessions > 0 ==> |e| < maxSessions)
    ensures Capped(maxSessions, e + {addr}, p - {addr}, {})
  {
    assert addr in {addr};
    assert |e + {addr}| == |e| + 1;
    SubsetSize(e + {addr}, e + p + {addr});
    SubsetSize(p - {addr}, p);
    assert e + {addr} + (p - {addr}) + {} == e + p + {addr};
  }

  /** The caps of the tables. */
  ghost predicate Roomy(max: nat, established: map<Addr, nat>, pending: map<Addr, Pending>, phase: Phase) {
    Capped(max, established.Keys, pending.Keys, InFlight(phase))
  }

  // ---- the handshakes ----

  /** No slot is held by junk: a handshake nobody has authenticated is the one the read loop has in hand. */
  ghost predicate Honest(pending: map<Addr, Pending>, phase: Phase) {
    && (forall a :: a in pending ==> pending[a].addr == a && Sound(pending[a]))
    && (forall a :: a in pending && !pending[a].authentic ==> phase == Advancing(pending[a]))
    && (phase.Advancing? ==> Sound(phase.p) && (phase.p.addr in pending ==> pending[phase.p.addr] == phase.p))
    && (phase.Finishing? ==> phase.p.authentic && Done(phase.p))
  }

  /** The table after a handshake has moved: it is stored back if it is still there. */
  function Stored(pending: map<Addr, Pending>, q: Pending): map<Addr, Pending> {
    if q.addr in pending then pending[q.addr := q] else pending
  }

  lemma StoredKeys(pending: map<Addr, Pending>, q: Pending)
    ensures Stored(pending, q).Keys == pending.Keys
  {
    UpdatedKeys(pending, q.addr, q);
    assert q.addr in pending ==> pending.Keys + {q.addr} == pending.Keys;
  }

  function NextPhase(q: Pending): Phase {
    if Done(q) then Finishing(q) else Idle
  }

  lemma AdmitKeepsHonest(pending: map<Addr, Pending>, p: Pending)
    requires Honest(pending, Idle) && p.addr !in pending && Sound(p)
    ensures Honest(pending[p.addr := p], Advancing(p))
  {
  }

  lemma ResumeKeepsHonest(pending: map<Addr, Pending>, p: Pending, q: Pending)
    requires Honest(pending, Advancing(p)) && q.addr == p.addr && Sound(q) && q.authentic
    ensures Honest(Stored(pending, q), NextPhase(q))
  {
  }

  lemma DropKeepsHonest(pending: map<Addr, Pending>, phase: Phase, addr: Addr, phase': Phase)
    requires Honest(pending, phase)
    requires phase' == phase || (phase'.Idle? && addr in InFlight(phase)) || (phase'.Offering? && phase.Finishing?)
    ensures Honest(pending - {addr}, phase')
  {
  }

  // how each step keeps the caps

  lemma AdmitKeepsRoomy(max: nat, established: map<Addr, nat>, pending: map<Addr, Pending>, p: Pending)
    requires Roomy(max, established, pending, Idle) && p.addr !in established && p.addr !in pending
    requires |pending| < MAX_PENDING_HANDSHAKES && (max > 0 ==> |established| + |pending| < max)
    ensures Roomy(max, established, pending[p.addr := p], Advancing(p))
  {
    NewSlot(max, established.Keys, pending.Keys, p.addr);
    UpdatedKeys(pending, p.addr, p);
  }

  lemma ResumeKeepsRoomy(max: nat, established: map<Addr, nat>, pending: map<Addr, Pending>, p: Pending, q: Pending)
    requires Roomy(max, established, pending, Advancing(p)) && q.addr == p.addr
    ensures Roomy(max, established, Stored(pending, q), NextPhase(q))
  {
    StoredKeys(pending, q);
    SameSlot(max, established.Keys, pending.Keys, p.addr, InFlight(NextPhase(q)));
  }

  /** Dropping a handshake, and letting go of the one in hand or not. */
  lemma DropKeepsRoomy(max: nat, established: map<Addr, nat>, pending: map<Addr, Pending>, phase: Phase,
                       pending': map<Addr, Pending>, phase': Phase)
    requires Roomy(max, established, pending, phase)
    requires pending'.Keys <= pending.Keys && InFlight(phase') <= InFlight(phase)
    ensures Roomy(max, established, pending', phase')
  {
    NoNewSlot(max, established.Keys, pending.Keys, InFlight(phase), established.Keys, pending'.Keys, InFlight(phase'));
  }

  lemma PublishKeepsRoomy(max: nat, established: map<Addr, nat>, pending: map<Addr, Pending>, p: Pending, s: nat)
    requires Roomy(max, established, pending, Finishing(p))
    ensures p.addr !in established && (max > 0 ==> |established| < max)
    ensures Roomy(max, established[p.addr := s], pending - {p.addr}, Offering(s))
  {
    SlotHandedOver(max, established.Keys, pending.Keys, p.addr);
    UpdatedKeys(established, p.addr, s);
  }

  lemma CloseKeepsRoomy(max: nat, established: map<Addr, nat>, pending: map<Addr, Pending>, phase: Phase, addr: Addr)
    requires Roomy(max, established, pending, phase)
    ensures Roomy(max, established - {addr}, pending, phase)
  {
    NoNewSlot(max, established.Keys, pending.Keys, InFlight(phase), established.Keys - {addr}, pending.Keys,
      InFlight(phase));
  }

  // ---- the sessions ----

  /** A session is in the table exactly while it is not gone, under its own address. */
  ghost predicate Indexed(established: map<Addr, nat>, sessions: seq<Session>) {
    && (forall a :: a in established ==> established[a] < |sessions| && sessions[established[a]].addr == a)
    && (forall s :: 0 <= s < |sessions| ==>
          (sessions[s].status != Gone <==> sessions[s].addr in established && established[sessions[s].addr] == s))
  }

  lemma PublishKeepsIndexed(established: map<Addr, nat>, sessions: seq<Session>, addr: Addr, handshake: Id)
    requires Indexed(established, sessions) && addr !in established
    ensures Indexed(established[addr := |sessions|], sessions + [Session(addr, handshake, Live)])
  {
  }

  /** A closing session deletes the entry of its address, and that entry is its own. */
  lemma CloseKeepsIndexed(established: map<Addr, nat>, sessions: seq<Session>, s: nat)
    requires Indexed(established, sessions) && s < |sessions| && sessions[s].status != Gone
    ensures sessions[s].addr in established && established[sessions[s].addr] == s
    ensures forall a :: a in established && established[a] == s ==> a == sessions[s].addr
    ensures Indexed(established - {sessions[s].addr}, sessions[s := sessions[s].(status := Gone)])
  {
  }

  // ---- the handshakes and the replay table ----

  /** Behind every handshake that outlives its first datagram, and behind every session, is one of `begun`. */
  ghost predicate Earned(pending: map<Addr, Pending>, sessions: seq<Session>, phase: Phase, begun: seq<Id>) {
    && (forall a :: a in pending && pending[a].authentic ==> pending[a].id in begun)
    && (forall s :: 0 <= s < |sessions| ==> sessions[s].handshake in begun)
    && (phase.Advancing? && phase.p.authentic ==> phase.p.id in begun)
    && (phase.Finishing? ==> phase.p.id in begun)
  }

  /** begun[i] is the one handshake that the i-th pass through the replay table started. */
  ghost predicate Paired(begun: seq<Id>, passes: nat, nextId: Id) {
    && |begun| == passes
    && (forall i, j :: 0 <= i < j < |begun| ==> begun[i] < begun[j])
    && (forall i :: 0 <= i < |begun| ==> begun[i] < nextId)
  }

  lemma AdmitKeepsEarned(pending: map<Addr, Pending>, sessions: seq<Session>, begun: seq<Id>, p: Pending)
    requires Earned(pending, sessions, Idle, begun)
    ensures Earned(pending[p.addr := p], sessions, Advancing(p), if p.authentic then begun + [p.id] else begun)
  {
    var after := if p.authentic then begun + [p.id] else begun;
    assert p.authentic ==> after[|begun|] == p.id;
    assert forall i :: i in begun ==> i in after;
  }

  lemma ResumeKeepsEarned(pending: map<Addr, Pending>, sessions: seq<Session>, p: Pending, q: Pending, begun: seq<Id>)
    requires Earned(pending, sessions, Advancing(p), begun) && p.authentic && q.id == p.id
    ensures Earned(Stored(pending, q), sessions, NextPhase(q), begun)
  {
  }

  lemma PublishKeepsEarned(pending: map<Addr, Pending>, sessions: seq<Session>, p: Pending, begun: seq<Id>)
    requires Earned(pending, sessions, Finishing(p), begun)
    ensures Earned(pending - {p.addr}, sessions + [Session(p.addr, p.id, Live)], Offering(|sessions|), begun)
  {
  }

  /** Changing only the status of a session. */
  lemma MarkKeepsEarned(pending: map<Addr, Pending>, sessions: seq<Session>, phase: Phase, begun: seq<Id>,
                        s: nat, status: Status)
    requires Earned(pending, sessions, phase, begun) && s < |sessions|
    ensures Earned(pending, sessions[s := sessions[s].(status := status)], phase, begun)
  {
  }

  // ---- the tables and their steps ----

  datatype Tables = Tables(pending: map<Addr, Pending>, established: map<Addr, nat>, sessions: seq<Session>,
                           ready: seq<nat>, phase: Phase, nextId: Id, begun: seq<Id>)

  /** The safety invariant of the tables, after `passes` passes through the replay table. */
  ghost predicate Safe(maxSessions: nat, t: Tables, passes: nat) {
    && Roomy(maxSessions, t.established, t.pending, t.phase)
    && Honest(t.pending, t.phase)
    && Indexed(t.established, t.sessions)
    && (t.phase.Offering? || t.phase.Shedding? ==> t.phase.s < |t.sessions|)
    && Earned(t.pending, t.sessions, t.phase, t.begun)
    && Paired(t.begun, passes, t.nextId)
    && |t.ready| <= ACCEPT_BACKLOG
    && (forall s :: s in t.ready ==> s < |t.sessions|)
  }

  /** What the invariant promises, whatever the read loop is doing. */
  lemma SafeMeans(max: nat, t: Tables, passes: nat)
    requires Safe(max, t, passes)
    ensures t.established.Keys !! t.pending.Keys && |t.pending| <= MAX_PENDING_HANDSHAKES
    ensures max > 0 ==> |t.established| + |t.pending| <= max
    ensures forall s :: 0 <= s < |t.sessions| && t.sessions[s].status == Live ==>
      t.sessions[s].addr in t.established && t.established[t.sessions[s].addr] == s
    ensures forall s :: 0 <= s < |t.sessions| ==> t.sessions[s].handshake in t.begun
    ensures t.phase == Idle ==> forall a :: a in t.pending ==> t.pending[a].authentic && t.pending[a].id in t.begun
  {
    var e, p := t.established.Keys, t.pending.Keys;
    assert |e + p| == |e| + |p|;
    SubsetSize(e + p, e + p + InFlight(t.phase));
  }

  function TakenUp(t: Tables, addr: Addr): Tables
    requires addr in t.pending
  {
    t.(phase := Advancing(t.pending[addr]))
  }

  function Admitted(t: Tables, p: Pending): Tables {
    t.(pending := t.pending[p.addr := p], phase := Advancing(p), nextId := t.nextId + 1,
       begun := if p.authentic then t.begun + [p.id] else t.begun)
  }

  function Resumed(t: Tables, q: Pending): Tables {
    t.(pending := Stored(t.pending, q), phase := NextPhase(q))
  }

  function Left(t: Tables): Tables {
    t.(phase := Idle)
  }

  function Abandoned(t: Tables, addr: Addr): Tables {
    t.(pending := t.pending - {addr}, phase := Idle)
  }

  function Dropped(t: Tables, addr: Addr): Tables {
    t.(pending := t.pending - {addr})
  }

  function Published(t: Tables, p: Pending): Tables {
    t.(pending := t.pending - {p.addr}, established := t.established[p.addr := |t.sessions|],
       sessions := t.sessions + [Session(p.addr, p.id, Live)], phase := Offering(|t.sessions|))
  }

  function Offered(t: Tables, s: nat): Tables {
    if |t.ready| < ACCEPT_BACKLOG then t.(ready := t.ready + [s], phase := Idle) else t.(phase := Shedding(s))
  }

  function Marked(t: Tables, s: nat, status: Status): Tables
    requires s < |t.sessions|
  {
    t.(sessions := t.sessions[s := t.sessions[s].(status := status)])
  }

  function Closed(t: Tables, s: nat): Tables
    requires s < |t.sessions|
  {
    Marked(t, s, Gone).(established := t.established - {t.sessions[s].addr})
  }

  lemma TakeUpKeepsSafe(max: nat, t: Tables, passes: nat, addr: Addr)
    requires Safe(max, t, passes) && t.phase == Idle && addr in t.pending
    ensures Safe(max, TakenUp(t, addr), passes) && t.pending[addr].authentic
  {
    NoNewSlot(max, t.established.Keys, t.pending.Keys, {}, t.established.Keys, t.pending.Keys, {addr});
  }

  lemma AdmitKeepsSafe(max: nat, t: Tables, passes: nat, p: Pending)
    requires Safe(max, t, passes) && t.phase == Idle && Sound(p) && p.id == t.nextId
    requires p.addr !in t.established && p.addr !in t.pending
    requires |t.pending| < MAX_PENDING_HANDSHAKES && (max > 0 ==> |t.established| + |t.pending| < max)
    ensures Safe(max, Admitted(t, p), if p.authentic then passes + 1 else passes)
  {
    hide Roomy, Honest, Indexed, Earned, Sound;
    AdmitKeepsRoomy(max, t.established, t.pending, p);
    AdmitKeepsHonest(t.pending, p);
    AdmitKeepsEarned(t.pending, t.sessions, t.begun, p);
  }

  lemma ResumeKeepsSafe(max: nat, t: Tables, passes: nat, q: Pending)
    requires Safe(max, t, passes) && t.phase.Advancing? && q.addr == t.phase.p.addr && q.id == t.phase.p.id
    requires t.phase.p.authentic && q.authentic && Sound(q)
    ensures Safe(max, Resumed(t, q), passes)
  {
    hide Roomy, Honest, Indexed, Earned, Paired, Sound, Stored;
    ResumeKeepsRoomy(max, t.established, t.pending, t.phase.p, q);
    ResumeKeepsHonest(t.pending, t.phase.p, q);
    ResumeKeepsEarned(t.pending, t.sessions, t.phase.p, q, t.begun);
  }

  lemma LeaveKeepsSafe(max: nat, t: Tables, passes: nat)
    requires Safe(max, t, passes) && (t.phase.Advancing? ==> t.phase.p.authentic)
    ensures Safe(max, Left(t), passes)
  {
    DropKeepsRoomy(max, t.established, t.pending, t.phase, t.pending, Idle);
    hide Roomy, Indexed, Paired;
  }

  /** The handshake in hand is sound; with none in hand, no slot is held by junk. */
  lemma SafeInHand(max: nat, t: Tables, passes: nat)
    requires Safe(max, t, passes)
    ensures t.phase.Advancing? ==> Sound(t.phase.p)
    ensures !t.phase.Advancing? ==> forall a :: a in t.pending ==> t.pending[a].authentic
  {
  }

  lemma AbandonKeepsSafe(max: nat, t: Tables, passes: nat)
    requires Safe(max, t, passes) && t.phase.Advancing?
    ensures Safe(max, Abandoned(t, t.phase.p.addr), passes)
  {
    var addr := t.phase.p.addr;
    DropKeepsRoomy(max, t.established, t.pending, t.phase, t.pending - {addr}, Idle);
    DropKeepsHonest(t.pending, t.phase, addr, Idle);
    assert Earned(t.pending - {addr}, t.sessions, Idle, t.begun);
    hide Roomy, Indexed, Paired, Honest, Earned;
  }

  /** The timer may delete a handshake whatever the read loop is doing. */
  lemma DropKeepsSafe(max: nat, t: Tables, passes: nat, addr: Addr)
    requires Safe(max, t, passes)
    ensures Safe(max, Dropped(t, addr), passes)
  {
    DropKeepsRoomy(max, t.established, t.pending, t.phase, t.pending - {addr}, t.phase);
    DropKeepsHonest(t.pending, t.phase, addr, t.phase);
    hide Roomy, Indexed, Paired, Honest;
  }

  lemma PublishKeepsSafe(max: nat, t: Tables, passes: nat)
    requires Safe(max, t, passes) && t.phase.Finishing?
    ensures t.phase.p.addr !in t.established && (max > 0 ==> |t.established| < max)
    ensures Safe(max, Published(t, t.phase.p), passes)
  {
    hide Roomy, Honest, Indexed, Earned, Paired;
    var p := t.phase.p;
    PublishKeepsRoomy(max, t.established, t.pending, p, |t.sessions|);
    PublishKeepsIndexed(t.established, t.sessions, p.addr, p.id);
    PublishKeepsEarned(t.pending, t.sessions, p, t.begun);
    DropKeepsHonest(t.pending, t.phase, p.addr, Offering(|t.sessions|));
  }

  lemma OfferKeepsSafe(max: nat, t: Tables, passes: nat)
    requires Safe(max, t, passes) && t.phase.Offering?
    ensures Safe(max, Offered(t, t.phase.s), passes)
  {
    DropKeepsRoomy(max, t.established, t.pending, t.phase, t.pending, Offered(t, t.phase.s).phase);
    hide Roomy, Indexed, Paired;
  }

  lemma AcceptKeepsSafe(max: nat, t: Tables, passes: nat)
    requires Safe(max, t, passes) && |t.ready| > 0
    ensures Safe(max, t.(ready := t.ready[1..]), passes)
  {
    assert forall s :: s in t.ready[1..] ==> s in t.ready;
    hide Roomy, Honest, Indexed, Earned, Paired;
  }

  lemma MarkKeepsSafe(max: nat, t: Tables, passes: nat, s: nat)
    requires Safe(max, t, passes) && s < |t.sessions| && t.sessions[s].status == Live
    ensures Safe(max, Marked(t, s, Closing), passes)
  {
    assert Indexed(t.established, Marked(t, s, Closing).sessions);
    MarkKeepsEarned(t.pending, t.sessions, t.phase, t.begun, s, Closing);
    hide Roomy, Honest, Indexed, Earned, Paired;
  }

  lemma CloseKeepsSafe(max: nat, t: Tables, passes: nat, s: nat)
    requires Safe(max, t, passes) && s < |t.sessions| && t.sessions[s].status == Closing
    ensures t.sessions[s].addr in t.established && t.established[t.sessions[s].addr] == s
    ensures forall a :: a in t.established && t.established[a] == s ==> a == t.sessions[s].addr
    ensures Safe(max, Closed(t, s), passes)
  {
    hide Roomy, Honest, Indexed, Earned, Paired;
    CloseKeepsIndexed(t.established, t.sessions, s);
    MarkKeepsEarned(t.pending, t.sessions, t.phase, t.begun, s, Gone);
    CloseKeepsRoomy(max, t.established, t.pending, t.phase, t.sessions[s].addr);
  }

  // ---- runs ----

  /** What the read loop's critical sections, the timer, closing sessions and accepting callers do, in any order. */
  datatype Event =
    | TakeUp(addr: Addr) | Admit(p: Pending) | Resume(q: Pending) | Leave | Abandon | Publish | Offer
    | Drop(addr: Addr) | Accept | BeginClose(s: nat) | EndClose(s: nat)

  predicate Enabled(max: nat, t: Tables, e: Event) {
    match e
    case TakeUp(addr) => t.phase == Idle && addr in t.pending
    case Admit(p) =>
      && t.phase == Idle && Sound(p) && p.id == t.nextId && p.addr !in t.established && p.addr !in t.pending
      && |t.pending| < MAX_PENDING_HANDSHAKES && (max > 0 ==> |t.established| + |t.pending| < max)
    case Resume(q) =>
      && t.phase.Advancing? && q.addr == t.phase.p.addr && q.id == t.phase.p.id
      && t.phase.p.authentic && q.authentic && Sound(q)
    case Leave => t.phase.Advancing? ==> t.phase.p.authentic
    case Abandon => t.phase.Advancing?
    case Publish => t.phase.Finishing?
    case Offer => t.phase.Offering?
    case Drop(_) => true
    case Accept => |t.ready| > 0
    case BeginClose(s) => s < |t.sessions| && t.sessions[s].status == Live
    case EndClose(s) => s < |t.sessions| && t.sessions[s].status == Closing
  }

  function Next(max: nat, t: Tables, e: Event): Tables
    requires Enabled(max, t, e)
  {
    match e
    case TakeUp(addr) => TakenUp(t, addr)
    case Admit(p) => Admitted(t, p)
    case Resume(q) => Resumed(t, q)
    case Leave => Left(t)
    case Abandon => Abandoned(t, t.phase.p.addr)
    case Publish => Published(t, t.phase.p)
    case Offer => Offered(t, t.phase.s)
    case Drop(addr) => Dropped(t, addr)
    case Accept => t.(ready := t.ready[1..])
    case BeginClose(s) => Marked(t, s, Closing)
    case EndClose(s) => Closed(t, s)
  }

  function PassesAfter(passes: nat, e: Event): nat {
    if e.Admit? && e.p.authentic then passes + 1 else passes
  }

  lemma EventKeepsSafe(max: nat, t: Tables, passes: nat, e: Event)
    requires Safe(max, t, passes) && Enabled(max, t, e)
    ensures Safe(max, Next(max, t, e), PassesAfter(passes, e))
  {
    hide Safe, Sound;
    match e
    case TakeUp(addr) => TakeUpKeepsSafe(max, t, passes, addr);
    case Admit(p) => AdmitKeepsSafe(max, t, passes, p);
    case Resume(q) => ResumeKeepsSafe(max, t, passes, q);
    case Leave => LeaveKeepsSafe(max, t, passes);
    case Abandon => AbandonKeepsSafe(max, t, passes);
    case Publish => PublishKeepsSafe(max, t, passes);
    case Offer => OfferKeepsSafe(max, t, passes);
    case Drop(addr) => DropKeepsSafe(max, t, passes, addr);
    case Accept => AcceptKeepsSafe(max, t, passes);
    case BeginClose(s) => MarkKeepsSafe(max, t, passes, s);
    case EndClose(s) => CloseKeepsSafe(max, t, passes, s);
  }

  const FRESH: Tables := Tables(map[], map[], [], [], Idle, 0, [])

  /** trace is a run: it starts from empty tables, and every state follows from the one before by an event. */
  ghost predicate Run(max: nat, trace: seq<Tables>, events: seq<Event>) {
    && |trace| == |events| + 1 && trace[0] == FRESH
    && forall i :: 0 <= i < |events| ==>
         Enabled(max, trace[i], events[i]) && trace[i + 1] == Next(max, trace[i], events[i])
  }

  /** Safety on every run: after every event established and pending addresses are disjoint, both caps hold, every
      live session is the one its address maps to, and between datagrams every pending handshake has authenticated
      its client. */
  lemma {:induction false} EveryRunIsSafe(max: nat, trace: seq<Tables>, events: seq<Event>) returns (passes: nat)
    requires Run(max, trace, events)
    ensures var t := trace[|trace| - 1];
      && Safe(max, t, passes)
      && t.established.Keys !! t.pending.Keys && |t.pending| <= MAX_PENDING_HANDSHAKES
      && (max > 0 ==> |t.established| + |t.pending| <= max)
      && (forall s :: 0 <= s < |t.sessions| && t.sessions[s].status == Live ==>
            t.sessions[s].addr in t.established && t.established[t.sessions[s].addr] == s)
      && (t.phase == Idle ==> forall a :: a in t.pending ==> t.pending[a].authentic)
    decreases |events|
  {
    hide Safe, Enabled, Next;
    var n := |events|;
    if n == 0 {
      passes := 0;
      FreshIsSafe(max);
    } else {
      passes := EveryRunIsSafe(max, trace[..n], events[..n - 1]);
      EventKeepsSafe(max, trace[n - 1], passes, events[n - 1]);
      passes := PassesAfter(passes, events[n - 1]);
    }
    SafeMeans(max, trace[n], passes);
  }

  lemma FreshIsSafe(max: nat)
    ensures Safe(max, FRESH, 0)
  {
  }

  // ---- a datagram and the protocols of the window ----

  /** One protocol of the window given one datagram: the ephemeral key of the fresh server endpoint that tries it, and
      the datagram without that protocol's cover, None when it is too short for one. */
  datatype Attempt = Attempt(protocol: HandshakeModel.Protocol, priv: Bytes, inner: Option<Bytes>)

  /** A protocol the generator can have emitted, over the ideal AEAD. */
  ghost predicate Sane(a: Attempt) {
    && HandshakeModel.Good(a.protocol) && a.protocol.specs != []
    && NonceBound(a.protocol.c2s) && NonceBound(a.protocol.s2c)
  }

  /** The endpoint after it has tried the datagram, and whether it has taken it. */
  function Tries(a: Attempt): (HandshakeModel.Peer, bool) {
    var x := HandshakeModel.NewPeer(Genome.Server, a.priv);
    if a.inner.None? then (x, false) else HandshakeModel.Tried(a.protocol, x, a.inner.value)
  }

  predicate Takes(a: Attempt) {
    Tries(a).1
  }

  /** What RecvStep of that same endpoint says when advance feeds it the same datagram again. */
  predicate TakesAgain(a: Attempt) {
    a.inner.Some? && HandshakeModel.Recv(a.protocol, Tries(a).0, a.inner.value).1
  }

  /** A datagram that has been tried and refused does not open the second time either. */
  lemma RefusedAgain(a: Attempt)
    requires Sane(a) && !Takes(a)
    ensures !TakesAgain(a)
  {
    hide HandshakeModel.Tried, HandshakeModel.Recv, HandshakeModel.Good;
    if a.inner.Some? {
      HandshakeModel.RefusedAgain(a.protocol, HandshakeModel.NewPeer(Genome.Server, a.priv), a.inner.value);
    }
  }

  /** The replay key of the datagram: the digest of the frame it declares, if it is a first client frame. */
  function FirstKey(a: Attempt, digest: Bytes -> Key): Option<Key>
    requires a.protocol.specs != []
  {
    if a.inner.None? || !Takes(a) then None else
      match Framing.DeclaredPrefix(a.protocol.specs[0], a.inner.value)
      case None => None
      case Some(frame) => Some(digest(frame))
  }

  lemma FirstKeyExact(a: Attempt, digest: Bytes -> Key)
    requires a.protocol.specs != []
    ensures FirstKey(a, digest).Some? <==> Takes(a)
  {
    hide HandshakeModel.Recv, Framing.DeclaredPrefix;
  }

  /** A tail appended to a datagram does not change its replay key, so appending bytes does not get a first frame past
      the replay table. */
  lemma TailKeepsKey(a: Attempt, tail: Bytes, digest: Bytes -> Key)
    requires Sane(a) && a.inner.Some? && FirstKey(a, digest).Some?
    ensures var b := a.(inner := Some(a.inner.value + tail));
      FirstKey(b, digest) == FirstKey(a, digest)
  {
    hide HandshakeModel.Recv, HandshakeModel.Good, Framing.DeclaredPrefix;
    HandshakeModel.TailDeclaresSame(a.protocol, 0, a.inner.value, tail);
  }

  function CandidateOf(a: Attempt, digest: Bytes -> Key): Candidate
    requires a.protocol.specs != []
  {
    Candidate(seq(|a.protocol.specs|,
                  i requires 0 <= i < |a.protocol.specs| => a.protocol.specs[i].direction == Genome.Server),
              FirstKey(a, digest))
  }

  /** The candidates are what the protocols of the window make of the datagram. */
  ghost predicate Faithful(window: seq<Candidate>, attempts: seq<Attempt>, digest: Bytes -> Key) {
    && |window| == |attempts|
    && forall i :: 0 <= i < |window| ==> Sane(attempts[i]) && window[i] == CandidateOf(attempts[i], digest)
  }

  function WindowOf(attempts: seq<Attempt>, digest: Bytes -> Key): (window: seq<Candidate>)
    requires forall i :: 0 <= i < |attempts| ==> attempts[i].protocol.specs != []
    ensures |window| == |attempts| && forall i :: 0 <= i < |attempts| ==> window[i] == CandidateOf(attempts[i], digest)
  {
    seq(|attempts|, i requires 0 <= i < |attempts| => CandidateOf(attempts[i], digest))
  }

  /** Protocol 0 is client-first, and no protocol of the window takes the datagram. */
  predicate Junk(attempts: seq<Attempt>) {
    && attempts != [] && attempts[0].protocol.specs != []
    && attempts[0].protocol.specs[0].direction != Genome.Server
    && forall i :: 0 <= i < |attempts| ==> !Takes(attempts[i])
  }

  lemma JunkFallsBack(attempts: seq<Attempt>, digest: Bytes -> Key, knock: Option<Key>, m: map<Key, int>, now: int)
    requires forall i :: 0 <= i < |attempts| ==> attempts[i].protocol.specs != []
    requires Junk(attempts)
    ensures var window := WindowOf(attempts, digest);
      Selected(window, knock, m, now) == Chosen(0, false) && !ServerFirst(window[0])
  {
    hide Takes, FirstKey;
    var window := WindowOf(attempts, digest);
    forall i | 0 <= i < |window| ensures window[i].first.None? {
      FirstKeyExact(attempts[i], digest);
    }
  }

  // ---- selection ----

  /** The first protocol whose first client frame the datagram is, if any. */
  function FirstMatch(window: seq<Candidate>, from: nat): (r: Option<nat>)
    requires from <= |window|
    ensures r.Some? ==> from <= r.value < |window| && !ServerFirst(window[r.value]) && window[r.value].first.Some?
    decreases |window| - from
  {
    if from == |window| then None
    else if !ServerFirst(window[from]) && window[from].first.Some? then Some(from)
    else FirstMatch(window, from + 1)
  }

  /** What selectHandshake decides, given the replay table: the first protocol the datagram authenticates under; else,
      when protocol 0 is server-first, that one on a knock; else protocol 0, unauthenticated. */
  function Selected(window: seq<Candidate>, knock: Option<Key>, m: map<Key, int>, now: int): Selection {
    if window == [] then Refused else
      match FirstMatch(window, 0)
      case Some(i) => if Replayed(m, window[i].first.value, now) then Refused else Chosen(i, true)
      case None =>
        if !ServerFirst(window[0]) then Chosen(0, false)
        else if knock.None? || Replayed(m, knock.value, now) then Refused
        else Chosen(0, false)
  }

  predicate Replayed(m: map<Key, int>, key: Key, now: int) {
    key in m && now < m[key]
  }

  /** Selection falls back on an unauthenticated protocol 0 only when its fresh endpoint has refused the datagram. */
  lemma FallbackRefused(window: seq<Candidate>, attempts: seq<Attempt>, digest: Bytes -> Key)
    requires Faithful(window, attempts, digest) && window != [] && FirstMatch(window, 0).None?
      && !ServerFirst(window[0])
    ensures attempts != [] && Sane(attempts[0]) && !Takes(attempts[0])
  {
    hide Takes, FirstKey, HandshakeModel.Good;
    FirstKeyExact(attempts[0], digest);
  }

  /** The handshake a selection starts. */
  function Started(id: Id, addr: Addr, window: seq<Candidate>, sel: Selection): Pending
    requires sel.Chosen? && sel.protocol < |window|
  {
    var c := window[sel.protocol];
    Pending(id, addr, c.steps, if sel.primed then 1 else 0, sel.primed || ServerFirst(c), false, false, sel.primed)
  }

  /** The replay table let one key pass, once. */
  ghost predicate LetThrough(before: seq<Pass>, after: seq<Pass>, key: Key, now: int) {
    |after| == |before| + 1 && before == after[..|before|] && after[|before|].key == key && after[|before|].time == now
  }

  /** The multiplexer object. Every method that changes the tables takes exactly one of the events above, or none. */
  class ServerMux {
    const maxSessions: nat
    const replays: ReplayCache
    var pending: map<Addr, Pending>
    var lastCreate: map<Addr, int>
    var established: map<Addr, nat>
    var sessions: seq<Session>    // every session ever published
    var ready: seq<nat>
    var phase: Phase
    var nextId: Id
    ghost var begun: seq<Id>      // the handshakes begun by an authenticated frame or knock, oldest first
    // what selection has tried and refused for the handshake it has then fallen back on
    ghost var tried: Option<Attempt>

    ghost function View(): Tables
      reads this
    {
      Tables(pending, established, sessions, ready, phase, nextId, begun)
    }

    ghost predicate Valid()
      reads this, replays
    {
      && replays.Valid() && Safe(maxSessions, View(), |replays.passed|)
      && (phase.Advancing? && !phase.p.authentic ==> tried.Some? && Sane(tried.value) && !Takes(tried.value))
    }

    constructor (maxSessions: nat)
      ensures Valid() && fresh(replays) && this.maxSessions == maxSessions
      ensures View() == Tables(map[], map[], [], [], Idle, 0, []) && lastCreate == map[]
    {
      this.maxSessions := maxSessions;
      replays := new ReplayCache();
      pending, lastCreate, established, sessions, ready := map[], map[], map[], [], [];
      phase, nextId, begun, tried := Idle, 0, [], None;
    }

    /** Two handshakes begun by the same key are a time to live apart, if the table kept the first. */
    lemma OneHandshakePerKey(i: nat, j: nat)
      requires Valid() && i < j < |begun|
      requires replays.passed[i].key == replays.passed[j].key && replays.passed[i].stored
      ensures begun[i] != begun[j] && replays.passed[j].time >= replays.passed[i].time + REPLAY_CACHE_TTL
    {
      assert !Overlaps(replays.passed[i], replays.passed[j]);
    }

    // ---- the read loop, first critical section ----

    /** selectHandshake. A client-first frame or a knock is chosen only if it authenticates and the replay table lets
        it pass; the fallback is protocol 0, unauthenticated and with no replay entry. */
    method SelectHandshake(window: seq<Candidate>, knock: Option<Key>, now: int)
      returns (r: Selection, ghost key: Option<Key>)
      requires replays.Valid() && replays.clock <= now
      modifies replays
      ensures replays.Valid() && replays.clock <= now
      ensures r == Selected(window, knock, old(replays.m), now)
      ensures r.Chosen? ==> r.protocol < |window| && (r.primed ==> !ServerFirst(window[r.protocol]))
      ensures key.None? ==> replays.passed == old(replays.passed)
      ensures key.Some? ==> LetThrough(old(replays.passed), replays.passed, key.value, now)
      ensures key.Some? <==> r.Chosen? && (r.primed || ServerFirst(window[r.protocol]))
      ensures key.Some? ==> key == if r.primed then window[r.protocol].first else knock
    {
      key := None;
      if |window| == 0 {
        return Refused, None;
      }
      var serverFirst: Option<nat> := None;
      for i := 0 to |window|
        invariant serverFirst.Some? ==> serverFirst.value < i && ServerFirst(window[serverFirst.value])
        invariant i > 0 && ServerFirst(window[0]) ==> serverFirst.Some? && serverFirst.value == 0
        invariant replays.Valid() && replays.clock <= now
        invariant replays.passed == old(replays.passed) && replays.m == old(replays.m)
        invariant FirstMatch(window, 0) == FirstMatch(window, i)
      {
        if ServerFirst(window[i]) {
          if serverFirst.None? {
            serverFirst := Some(i);
          }
          continue;
        }
        if window[i].first.Some? {
          var replayed := replays.Seen(window[i].first.value, now);
          if replayed {
            return Refused, None;
          }
          return Chosen(i, true), window[i].first;
        }
      }
      if ServerFirst(window[0]) && serverFirst.Some? {
        if knock.None? {
          return Refused, None;
        }
        var replayed := replays.Seen(knock.value, now);
        if replayed {
          return Refused, None;
        }
        return Chosen(serverFirst.value, false), knock;
      }
      return Chosen(0, false), None;
    }

    /** handleDatagram up to the release of the table lock: a datagram of an established address goes to its session
        and to no handshake; one of a pending address goes to that handshake; any other starts a handshake only past
        every guard. */
    method BeginDatagram(addr: Addr, len: nat, now: int, window: seq<Candidate>, knock: Option<Key>,
                         ghost attempts: seq<Attempt>, ghost digest: Bytes -> Key)
      returns (route: Route)
      requires Valid() && phase == Idle && replays.clock <= now && Faithful(window, attempts, digest)
      modifies this`pending, this`lastCreate, this`phase, this`nextId, this`begun, this`tried, replays
      ensures Valid() && replays.clock <= now
      ensures addr in established ==>
        route == ToSession(established[addr]) && View() == old(View()) && lastCreate == old(lastCreate)
      ensures addr !in established && addr in old(pending) ==>
        route == ToHandshake && View() == TakenUp(old(View()), addr) && lastCreate == old(lastCreate)
      ensures addr !in established && addr !in old(pending) ==>
        var sel := Selected(window, knock, old(replays.m), now);
        if Admits(old(pending), old(lastCreate), addr, len, now) && sel.Chosen? then
          && sel.protocol < |window| && route == ToHandshake && lastCreate == old(lastCreate)[addr := now]
          && View() == Admitted(old(View()), Started(old(nextId), addr, window, sel))
        else
          && route in {Ignored, Decoy} && View() == old(View())
          && (lastCreate ==
              if Plausible(old(pending), old(lastCreate), addr, len, now) && AtCap(old(pending))
              then old(lastCreate)[addr := now] else old(lastCreate))
      ensures phase.Advancing? && !phase.p.authentic ==> attempts != [] && tried == Some(attempts[0])
    {
      hide Safe, ReplayCache.Valid, Sane, Takes, Faithful;
      if addr in established {
        return ToSession(established[addr]);
      }
      if addr in pending {
        TakeUpKeepsSafe(maxSessions, View(), |replays.passed|, addr);
        phase := Advancing(pending[addr]);
        return ToHandshake;
      }
      if len < MIN_FIRST_DATAGRAM {
        return Ignored;
      }
      if addr in lastCreate && now - lastCreate[addr] < NEW_HANDSHAKE_MIN_GAP {
        return Ignored;
      }
      if |pending| >= MAX_PENDING_HANDSHAKES {
        return Ignored;
      }
      if maxSessions > 0 && |established| + |pending| >= maxSessions {
        lastCreate := lastCreate[addr := now];
        return Decoy;
      }
      var created := Create(addr, now, window, knock, attempts, digest);
      return if created then ToHandshake else Decoy;
    }

    /** The guards of a new handshake. */
    predicate Admits(pending: map<Addr, Pending>, lastCreate: map<Addr, int>, addr: Addr, len: nat, now: int)
      reads this`established
    {
      Plausible(pending, lastCreate, addr, len, now) && !AtCap(pending)
    }

    /** The guards that say nothing about the session cap. */
    predicate Plausible(pending: map<Addr, Pending>, lastCreate: map<Addr, int>, addr: Addr, len: nat, now: int) {
      && len >= MIN_FIRST_DATAGRAM
      && (addr in lastCreate ==> now - lastCreate[addr] >= NEW_HANDSHAKE_MIN_GAP)
      && |pending| < MAX_PENDING_HANDSHAKES
    }

    predicate AtCap(pending: map<Addr, Pending>)
      reads this`established
    {
      maxSessions > 0 && |established| + |pending| >= maxSessions
    }

    /** The creation of a pending handshake in handleDatagram. */
    method Create(addr: Addr, now: int, window: seq<Candidate>, knock: Option<Key>,
                  ghost attempts: seq<Attempt>, ghost digest: Bytes -> Key)
      returns (created: bool)
      requires Valid() && phase == Idle && replays.clock <= now && Faithful(window, attempts, digest)
      requires addr !in established && addr !in pending
      requires |pending| < MAX_PENDING_HANDSHAKES && (maxSessions > 0 ==> |established| + |pending| < maxSessions)
      modifies this`pending, this`lastCreate, this`phase, this`nextId, this`begun, this`tried, replays
      ensures Valid() && replays.clock <= now
      ensures var sel := Selected(window, knock, old(replays.m), now);
        && created == sel.Chosen?
        && (created ==> sel.protocol < |window|)
        && View() == (if created then Admitted(old(View()), Started(old(nextId), addr, window, sel)) else old(View()))
        && lastCreate == (if created then old(lastCreate)[addr := now] else old(lastCreate))
      ensures phase.Advancing? && !phase.p.authentic ==> attempts != [] && tried == Some(attempts[0])
    {
      hide Safe, ReplayCache.Valid, Sane, Takes, Faithful;
      ghost var t, passes := View(), |replays.passed|;
      var sel;
      ghost var key;
      sel, key := SelectHandshake(window, knock, now);
      if sel.Refused? {
        return false;
      }
      var c := window[sel.protocol];
      var p := Pending(nextId, addr, c.steps, if sel.primed then 1 else 0,
                       sel.primed || ServerFirst(c), false, false, sel.primed);
      assert p == Started(t.nextId, addr, window, sel);
      AdmitKeepsSafe(maxSessions, t, passes, p);
      if !p.authentic {
        FallbackRefused(window, attempts, digest);
        tried := Some(attempts[0]);
      }
      hide Admitted, Started, Sound;
      Insert(p, now);
      return true;
    }

    method Insert(p: Pending, now: int)
      modifies this`pending, this`lastCreate, this`phase, this`nextId, this`begun
      ensures View() == Admitted(old(View()), p) && lastCreate == old(lastCreate)[p.addr := now]
    {
      nextId := nextId + 1;
      pending := pending[p.addr := p];
      lastCreate := lastCreate[p.addr := now];
      phase := Advancing(p);
      if p.authentic {
        begun := begun + [p.id];
      }
    }

    // ---- the read loop, advancing one handshake ----

    /** Store the handshake in hand back, if the table still holds it, and move on. */
    method Resume(q: Pending)
      requires Valid() && phase.Advancing? && q.addr == phase.p.addr && q.id == phase.p.id
      requires Sound(q) && q.authentic && phase.p.authentic
      modifies this`pending, this`phase
      ensures Valid() && View() == Resumed(old(View()), q)
    {
      hide Safe, ReplayCache.Valid, Sane, Takes, Sound;
      ResumeKeepsSafe(maxSessions, View(), |replays.passed|, q);
      if q.addr in pending {
        pending := pending[q.addr := q];
      }
      phase := if Done(q) then Finishing(q) else Idle;
    }

    /** abandonPending: give the handshake in hand up. */
    method Abandon()
      requires Valid() && phase.Advancing?
      modifies this`pending, this`phase
      ensures Valid() && View() == Abandoned(old(View()), old(phase).p.addr)
    {
      hide Safe, ReplayCache.Valid, Sane, Takes;
      AbandonKeepsSafe(maxSessions, View(), |replays.passed|);
      pending := pending - {phase.p.addr};
      phase := Idle;
    }

    /** advance: feed the datagram to the handshake in hand. `opens` says whether RecvStep accepts it; for a handshake
        that is not authentic yet that is what the endpoint says which has just tried the same datagram and refused it.
        `budget` is how many server steps encode and are written without error. */
    method Advance(opens: bool, budget: nat) returns (ghost q: Pending)
      requires Valid() && phase.Advancing?
      requires !phase.p.authentic ==> tried.Some? && opens == TakesAgain(tried.value)
      modifies this`pending, this`phase
      ensures Valid() && !phase.Advancing?
      ensures forall a :: a in pending ==> pending[a].authentic
      ensures Advanced(old(View()), View(), q, opens, budget)
    {
      SafeInHand(maxSessions, View(), |replays.passed|);
      if !phase.p.authentic {
        RefusedAgain(tried.value);
      }
      hide Safe, ReplayCache.Valid, Sane, Takes, Sound, Moved, Resumed, TakesAgain;
      q := phase.p;
      var verdict := Judge(phase.p, opens, budget);
      match verdict {
        case Stop => Leave();
        case GiveUp => Abandon();
        case Go(moved) =>
          q := moved;
          Resume(moved);
      }
      SafeInHand(maxSessions, View(), |replays.passed|);
    }

    /** The first critical section, with the window made from the protocols and the datagram themselves. Junk gets a
        slot, which is not authentic. */
    method Begin(addr: Addr, len: nat, now: int, attempts: seq<Attempt>, digest: Bytes -> Key, knock: Option<Key>)
      returns (route: Route)
      requires Valid() && phase == Idle && replays.clock <= now
      requires forall i :: 0 <= i < |attempts| ==> Sane(attempts[i]) && attempts[i].protocol.specs != []
      modifies this`pending, this`lastCreate, this`phase, this`nextId, this`begun, this`tried, replays
      ensures Valid() && replays.clock <= now && (phase == Idle || phase.Advancing?)
      ensures route.ToHandshake? <==> phase.Advancing?
      ensures phase.Advancing? && !phase.p.authentic ==> attempts != [] && tried == Some(attempts[0])
      ensures addr in established ==> View() == old(View())
      ensures addr !in established && addr in old(pending) ==> View() == TakenUp(old(View()), addr)
      ensures addr !in established && addr !in old(pending) ==>
        var window := WindowOf(attempts, digest);
        var sel := Selected(window, knock, old(replays.m), now);
        if Admits(old(pending), old(lastCreate), addr, len, now) && sel.Chosen? then
          sel.protocol < |window| && View() == Admitted(old(View()), Started(old(nextId), addr, window, sel))
        else View() == old(View())
      ensures (addr !in established && addr !in old(pending) && Admits(old(pending), old(lastCreate), addr, len, now)
        && Junk(attempts)) ==>
        && phase.Advancing? && phase.p.addr == addr && !phase.p.authentic
        && View().pending == old(pending)[addr := phase.p] && lastCreate == old(lastCreate)[addr := now]
    {
      hide Safe, ReplayCache.Valid, Sane, Takes, Admits, Plausible, AtCap, CandidateOf, WindowOf;
      var window := WindowOf(attempts, digest);
      if Junk(attempts) {
        JunkFallsBack(attempts, digest, knock, replays.m, now);
      }
      hide Selected, Junk;
      route := BeginDatagram(addr, len, now, window, knock, attempts, digest);
    }

    /** handleDatagram, for an address without a session: one datagram against the protocols of the window, whatever it
        is. `opens` is what the endpoint of a handshake already authentic says to it, `budget` how many server frames
        can be sent. A pending handshake, or the one that selection starts, advances; nothing else changes. Afterwards
        no slot is held by junk, and a datagram that no protocol takes leaves nothing but the time of the attempt. */
    method Datagram(addr: Addr, len: nat, now: int, attempts: seq<Attempt>, digest: Bytes -> Key, knock: Option<Key>,
                    opens: bool, budget: nat)
      returns (route: Route, ghost q: Pending)
      requires Valid() && phase == Idle && replays.clock <= now
      requires forall i :: 0 <= i < |attempts| ==> Sane(attempts[i]) && attempts[i].protocol.specs != []
      modifies this`pending, this`lastCreate, this`phase, this`nextId, this`begun, this`tried, replays
      ensures Valid() && replays.clock <= now
      ensures !phase.Advancing? && forall a :: a in pending ==> pending[a].authentic
      ensures addr in established ==> View() == old(View())
      ensures addr !in established && addr in old(pending) ==>
        Advanced(TakenUp(old(View()), addr), View(), q, opens, budget)
      ensures addr !in established && addr !in old(pending) ==>
        var window := WindowOf(attempts, digest);
        var sel := Selected(window, knock, old(replays.m), now);
        if Admits(old(pending), old(lastCreate), addr, len, now) && sel.Chosen? then
          sel.protocol < |window| &&
          Advanced(Admitted(old(View()), Started(old(nextId), addr, window, sel)), View(), q, opens, budget)
        else View() == old(View())
      ensures (addr !in established && addr !in old(pending) && Admits(old(pending), old(lastCreate), addr, len, now)
        && Junk(attempts)) ==>
        phase == Idle && pending == old(pending) && lastCreate == old(lastCreate)[addr := now]
    {
      hide Safe, ReplayCache.Valid, Sane, Takes, TakesAgain, Admits, Junk, Sound, Moved, Resumed, Selected, WindowOf;
      hide Started;
      route := Begin(addr, len, now, attempts, digest, knock);
      SafeInHand(maxSessions, View(), |replays.passed|);
      if phase.Advancing? {
        var again := if phase.p.authentic then opens else TakesAgain(attempts[0]);
        q := Advance(again, budget);
      } else {
        q := *;
      }
    }

    /** Back to the next datagram with the tables as they are: the handshake is already done, its session could not be
        built, or the session being shed is closed. */
    method Leave()
      requires Valid() && (phase.Advancing? ==> phase.p.authentic)
      modifies this`phase
      ensures Valid() && View() == Left(old(View()))
    {
      hide Safe, ReplayCache.Valid, Sane, Takes;
      LeaveKeepsSafe(maxSessions, View(), |replays.passed|);
      phase := Idle;
    }

    // ---- the read loop, publishing a session ----

    /** finishHandshake, its critical section. Neither an entry of the same address nor a full session table can turn
        the new session away there. */
    method Finish()
      requires Valid() && phase.Finishing?
      modifies this`pending, this`lastCreate, this`established, this`sessions, this`phase
      ensures Valid() && View() == Published(old(View()), old(phase).p)
      ensures lastCreate == old(lastCreate) - {old(phase).p.addr}
    {
      hide Safe, ReplayCache.Valid, Sane, Takes, Published;
      PublishKeepsSafe(maxSessions, View(), |replays.passed|);
      var p := phase.p;
      if p.addr in established || (maxSessions > 0 && |established| >= maxSessions) {
        assert false;
      }
      Publish(p);
    }

    method Publish(p: Pending)
      modifies this`pending, this`lastCreate, this`established, this`sessions, this`phase
      ensures View() == Published(old(View()), p) && phase.Offering? && lastCreate == old(lastCreate) - {p.addr}
    {
      pending := pending - {p.addr};
      lastCreate := lastCreate - {p.addr};
      established := established[p.addr := |sessions|];
      sessions := sessions + [Session(p.addr, p.id, Live)];
      phase := Offering(|sessions| - 1);
    }

    /** The end of finishHandshake: queue the session, or shed it when the accept backlog is full. */
    method Offer()
      requires Valid() && phase.Offering?
      modifies this`ready, this`phase
      ensures Valid() && View() == Offered(old(View()), old(phase).s)
    {
      hide Safe, ReplayCache.Valid, Sane, Takes;
      OfferKeepsSafe(maxSessions, View(), |replays.passed|);
      var s := phase.s;
      if |ready| < ACCEPT_BACKLOG {
        ready := ready + [s];
        phase := Idle;
      } else {
        phase := Shedding(s);
      }
    }

    // ---- steps of other threads, possible at any point of the read loop ----

    /** Accept: the oldest queued session. */
    method Accept() returns (s: nat)
      requires Valid() && |ready| > 0
      modifies this`ready
      ensures Valid() && View() == old(View()).(ready := old(ready)[1..]) && s == old(ready)[0]
    {
      AcceptKeepsSafe(maxSessions, View(), |replays.passed|);
      hide Safe, ReplayCache.Valid, Sane, Takes;
      s := ready[0];
      ready := ready[1..];
    }

    /** retransmit: delete a handshake that is done or too old. The key may by now belong to a newer handshake, or to
        the one the read loop has in hand. */
    method TimerDrop(addr: Addr)
      requires Valid()
      modifies this`pending, this`lastCreate
      ensures Valid() && View() == Dropped(old(View()), addr) && lastCreate == old(lastCreate) - {addr}
    {
      hide Safe, ReplayCache.Valid, Sane, Takes;
      DropKeepsSafe(maxSessions, View(), |replays.passed|, addr);
      pending := pending - {addr};
      lastCreate := lastCreate - {addr};
    }

    /** Close of a session, up to its callback; closeOnce lets only the first caller in. */
    method CloseBegin(s: nat) returns (first: bool)
      requires Valid() && s < |sessions|
      modifies this`sessions
      ensures Valid() && first == (old(sessions)[s].status == Live)
      ensures View() == if first then Marked(old(View()), s, Closing) else old(View())
    {
      hide Safe, ReplayCache.Valid, Sane, Takes;
      first := sessions[s].status == Live;
      if first {
        MarkKeepsSafe(maxSessions, View(), |replays.passed|, s);
        sessions := sessions[s := sessions[s].(status := Closing)];
      }
    }

    /** onClose: it deletes whatever the table holds for its address, and that is its own entry. */
    method CloseEnd(s: nat)
      requires Valid() && s < |sessions| && sessions[s].status == Closing
      modifies this`established, this`sessions
      ensures Valid() && View() == Closed(old(View()), s)
      ensures forall a :: a in old(established) && old(established)[a] != s ==>
        a in established && established[a] == old(established)[a]
      ensures forall a :: a in established ==> established[a] != s
    {
      hide ReplayCache.Valid, Sane, Takes;
      CloseKeepsSafe(maxSessions, View(), |replays.passed|, s);
      hide Safe;
      established := established - {sessions[s].addr};
      sessions := sessions[s := sessions[s].(status := Gone)];
    }
  }

  // ---- a flood of junk ----

  /** A datagram, and what the mux tries it with. */
  datatype Probe = Probe(addr: Addr, len: nat, time: int, attempts: seq<Attempt>, knock: Option<Key>)

  ghost predicate JunkProbe(p: Probe) {
    p.len >= MIN_FIRST_DATAGRAM && Junk(p.attempts) && forall i :: 0 <= i < |p.attempts| ==> Sane(p.attempts[i])
  }

  lemma ProbeIsSane(p: Probe)
    requires JunkProbe(p)
    ensures forall i :: 0 <= i < |p.attempts| ==> Sane(p.attempts[i]) && p.attempts[i].protocol.specs != []
  {
  }

  /** Probes from distinct addresses, none of which the tables hold, oldest first. */
  ghost predicate Flood(probes: seq<Probe>, known: set<Addr>, since: int) {
    && (forall i :: 0 <= i < |probes| ==> JunkProbe(probes[i]) && probes[i].addr !in known && since <= probes[i].time)
    && (forall i, j :: 0 <= i < j < |probes| ==> probes[i].addr != probes[j].addr && probes[i].time <= probes[j].time)
  }

  ghost function Sources(probes: seq<Probe>): set<Addr> {
    set i | 0 <= i < |probes| :: probes[i].addr
  }

  lemma NoSources()
    ensures Sources([]) == {}
  {
  }

  lemma OneMoreSource(probes: seq<Probe>, i: nat)
    requires i < |probes|
    ensures Sources(probes[..i + 1]) == Sources(probes[..i]) + {probes[i].addr}
    ensures (forall j :: 0 <= j < i ==> probes[j].addr != probes[i].addr) ==> probes[i].addr !in Sources(probes[..i])
  {
    var before, after := probes[..i], probes[..i + 1];
    assert forall j :: 0 <= j < i ==> before[j] == after[j] == probes[j];
    forall a ensures a in Sources(after) <==> a in Sources(before) + {probes[i].addr} {
      if a in Sources(before) {
        var j :| 0 <= j < i && before[j].addr == a;
        assert after[j].addr == a;
      }
      assert after[i] == probes[i];
    }
  }

  /** Junk cannot hold a slot, but it does leave memory behind: n junk datagrams from n addresses find the table of
      handshakes as it was and add n times of an attempt, which nothing but a handshake of the same address removes. */
  method Flooded(mux: ServerMux, probes: seq<Probe>, digest: Bytes -> Key)
    requires mux.Valid() && mux.phase == Idle
    requires |mux.pending| < MAX_PENDING_HANDSHAKES
    requires mux.maxSessions > 0 ==> |mux.established| + |mux.pending| < mux.maxSessions
    requires Flood(probes, mux.established.Keys + mux.pending.Keys + mux.lastCreate.Keys, mux.replays.clock)
    modifies mux, mux.replays
    ensures mux.Valid() && mux.phase == Idle
    ensures mux.pending == old(mux.pending) && mux.established == old(mux.established)
    ensures |mux.lastCreate| == |old(mux.lastCreate)| + |probes|
    ensures mux.lastCreate.Keys == old(mux.lastCreate).Keys + Sources(probes)
  {
    hide ServerMux.Valid, JunkProbe, Sources;
    assert Sources([]) == {} by { NoSources(); }
    for i := 0 to |probes|
      invariant mux.Valid() && mux.phase == Idle
      invariant mux.pending == old(mux.pending) && mux.established == old(mux.established)
      invariant |mux.lastCreate| == |old(mux.lastCreate)| + i
      invariant mux.lastCreate.Keys == old(mux.lastCreate).Keys + Sources(probes[..i])
      invariant i < |probes| ==> mux.replays.clock <= probes[i].time
    {
      OneMoreSource(probes, i);
      OneMoreKey(mux.lastCreate, probes[i].addr, probes[i].time);
      OneProbe(mux, probes[i], digest);
    }
    assert probes[..|probes|] == probes;
  }

  method OneProbe(mux: ServerMux, p: Probe, digest: Bytes -> Key)
    requires mux.Valid() && mux.phase == Idle && JunkProbe(p) && mux.replays.clock <= p.time
    requires |mux.pending| < MAX_PENDING_HANDSHAKES
    requires mux.maxSessions > 0 ==> |mux.established| + |mux.pending| < mux.maxSessions
    requires p.addr !in mux.established && p.addr !in mux.pending && p.addr !in mux.lastCreate
    modifies mux, mux.replays
    ensures mux.Valid() && mux.phase == Idle && mux.replays.clock <= p.time
    ensures mux.pending == old(mux.pending) && mux.established == old(mux.established)
    ensures mux.lastCreate == old(mux.lastCreate)[p.addr := p.time]
  {
    hide ServerMux.Valid, ServerMux.View, Sane, Junk, Advanced, Selected, Started, Admitted, WindowOf, TakenUp;
    ProbeIsSane(p);
    assert mux.Admits(mux.pending, mux.lastCreate, p.addr, p.len, p.time);
    hide ServerMux.Admits, ServerMux.Plausible, ServerMux.AtCap;
    var route, _ := mux.Datagram(p.addr, p.len, p.time, p.attempts, digest, p.knock, false, 0);
  }

  lemma OneMoreKey(m: map<Addr, int>, addr: Addr, time: int)
    requires addr !in m
    ensures m[addr := time].Keys == m.Keys + {addr} && |m[addr := time]| == |m| + 1
  {
    UpdatedKeys(m, addr, time);
    assert |m[addr := time].Keys| == |m.Keys| + 1;
  }

  datatype Route = ToSession(s: nat) | Ignored | Decoy | ToHandshake

  /** What advance decides about the handshake in hand. */
  datatype Verdict = Stop | GiveUp | Go(q: Pending)

  /** The branches of advance. A handshake is authentic once a client frame has opened. */
  method Judge(p: Pending, opens: bool, budget: nat) returns (v: Verdict)
    requires Sound(p)
    ensures v.GiveUp? <==> !p.authentic && !opens
    ensures v.Stop? <==> p.authentic && Done(p) && !p.primed
    ensures v.Go? ==> Moved(p, v.q, opens, budget) && Sound(v.q)
  {
    var q := p;
    if p.primed {
      q := SendOutgoing(p.(primed := false, recvOK := true, sent := false), budget);
    } else if Done(p) {
      return Stop;
    } else if p.steps[p.step] {
      q := SendOutgoing(p, budget);
    } else if opens {
      q := SendOutgoing(p.(authentic := true, recvOK := true, sent := false, step := p.step + 1), budget);
    } else if !p.recvOK && !p.sent {
      return GiveUp;
    }
    return Go(q);
  }

  /** sendOutgoing: all consecutive server steps, the last of which is kept for retransmission. */
  method SendOutgoing(p: Pending, budget: nat) returns (q: Pending)
    requires p.authentic
    ensures q == p.(step := q.step, sent := p.sent || p.step < q.step)
    ensures p.step <= q.step && (p.step < q.step ==> q.step <= |p.steps|)
    ensures forall i :: p.step <= i < q.step ==> p.steps[i]
    ensures q.step <= p.step + budget && (Done(q) || !q.steps[q.step] || q.step == p.step + budget)
  {
    q := p;
    while !Done(q) && q.steps[q.step] && q.step < p.step + budget
      invariant p.step <= q.step <= p.step + budget
      invariant q == p.(step := q.step, sent := p.sent || q.step > p.step)
      invariant p.step < q.step ==> q.step <= |p.steps|
      invariant forall i :: p.step <= i < q.step ==> p.steps[i]
      decreases p.step + budget - q.step
    {
      q := q.(sent := true, step := q.step + 1);
    }
  }
}
