/**
 The handshake of two network players: both sides send and check their version text and the
 checksum of the loaded image byte by byte, then exchange a latency and a step byte.
 */
module Handshake {

  import opened Bytes
  import opened Utils

  // ---- one side ----

  datatype Role = Server | Client

  /** What one side brings to the handshake. The latency is the index its user selected, -1 for none. */
  datatype Side = Side(role: Role, version: seq<byte>, crc: uint32, latency: int)

  /** The conversion of an int to an unsigned byte, then the upper clamp; the lower clamp compares a byte with 0. */
  function ClampedLatency(latency: int): byte {
    var b := (latency % 256) as byte;
    if b > 8 then 8 else b
  }

  /** The four bytes of a checksum, lowest first. */
  function CrcBytes(crc: uint32): seq<byte> {
    [(crc % 256) as byte, (crc / 0x100 % 256) as byte, (crc / 0x1_0000 % 256) as byte, (crc / 0x100_0000 % 256) as byte]
  }

  /** The bytes each side expects to see again from its peer. */
  function Compared(s: Side): (r: seq<byte>)
    ensures |r| == |s.version| + 4
  {
    s.version + CrcBytes(s.crc)
  }

  /** All bytes a side sends: the client's latency and both step bytes are dummies. */
  function Stream(s: Side): (r: seq<byte>)
    ensures |r| == |Compared(s)| + 2
  {
    Compared(s) + [if s.role == Server then ClampedLatency(s.latency) else 0, 0]
  }

  /** The client compares its version letters as signed characters, so letters from 128 on never agree. */
  predicate Agrees(s: Side, k: nat, b: byte)
    requires k < |Compared(s)|
  {
    b == Compared(s)[k] && (s.role == Client && k < |s.version| ==> b < 128)
  }

  datatype Status = Running | Accepted(latency: byte) | Rejected(at: nat) | Failed

  /** How far a side has come, and the latency byte it has received. */
  datatype Peer = Peer(sent: nat, got: nat, received: byte, status: Status)

  const FRESH: Peer := Peer(0, 0, 0, Running)

  predicate CanSend(s: Side, p: Peer) {
    p.status == Running && p.sent == p.got < |Stream(s)|
  }

  predicate CanReceive(p: Peer) {
    p.status == Running && p.sent == p.got + 1
  }

  /** The effect of receiving byte b. */
  function Receive(s: Side, p: Peer, b: byte): Peer
    requires CanReceive(p)
  {
    var k := p.got;
    if k < |Compared(s)| && !Agrees(s, k, b) then
      p.(got := k + 1, status := Rejected(k))
    else
      var received := if k == |Compared(s)| then b else p.received;
      var status := if k + 1 == |Stream(s)|
                    then Accepted(if s.role == Server then ClampedLatency(s.latency) else received)
                    else Running;
      p.(got := k + 1, received := received, status := status)
  }

  // ---- both sides, interleaved ----

  datatype World = World(server: Side, client: Side)

  predicate Proper(w: World) {
    w.server.role == Server && w.client.role == Client
  }

  datatype State = State(server: Peer, client: Peer, toServer: seq<byte>, toClient: seq<byte>)

  const START: State := State(FRESH, FRESH, [], [])

  /** A transport failure (a send error, a time-out, a missing image) can strike a running side at any time. */
  datatype Action = Send(who: Role) | Recv(who: Role) | Fail(who: Role)

  function PeerOf(st: State, who: Role): Peer { if who == Server then st.server else st.client }

  function SideOf(w: World, who: Role): Side { if who == Server then w.server else w.client }

  function Inbox(st: State, who: Role): seq<byte> { if who == Server then st.toServer else st.toClient }

  function Other(who: Role): Role { if who == Server then Client else Server }

  predicate Enabled(w: World, st: State, a: Action) {
    match a
    case Send(who) => CanSend(SideOf(w, who), PeerOf(st, who))
    case Recv(who) => CanReceive(PeerOf(st, who)) && Inbox(st, who) != []
    case Fail(who) => PeerOf(st, who).status == Running
  }

  function WithPeer(st: State, who: Role, p: Peer): State {
    if who == Server then st.(server := p) else st.(client := p)
  }

  function WithInbox(st: State, who: Role, bytes: seq<byte>): State {
    if who == Server then st.(toServer := bytes) else st.(toClient := bytes)
  }

  function Do(w: World, st: State, a: Action): State
    requires Enabled(w, st, a)
  {
    match a
    case Send(who) =>
      var p := PeerOf(st, who);
      var b := Stream(SideOf(w, who))[p.sent];
      WithInbox(WithPeer(st, who, p.(sent := p.sent + 1)), Other(who), Inbox(st, Other(who)) + [b])
    case Recv(who) =>
      var bytes := Inbox(st, who);
      WithInbox(WithPeer(st, who, Receive(SideOf(w, who), PeerOf(st, who), bytes[0])), who, bytes[1..])
    case Fail(who) => WithPeer(st, who, PeerOf(st, who).(status := Failed))
  }

  /** The state after performing the actions in order; None if one of them was not possible. */
  function Run(w: World, acts: seq<Action>): Option<State> {
    if acts == [] then Some(START)
    else
      var last := acts[|acts| - 1];
      match Run(w, acts[..|acts| - 1])
      case None => None
      case Some(st) => if Enabled(w, st, last) then Some(Do(w, st, last)) else None
  }

  predicate NoFailure(acts: seq<Action>) {
    forall a :: a in acts ==> !a.Fail?
  }

  // ---- what every step keeps ----

  /** A side sends one byte ahead of what it has received, and stops where its status says. */
  predicate SideInv(s: Side, p: Peer) {
    match p.status
    case Running => p.got <= p.sent <= p.got + 1 && p.got < |Stream(s)|
    case Failed => p.got <= p.sent <= p.got + 1 && p.got < |Stream(s)|
    case Accepted(l) =>
      p.sent == p.got == |Stream(s)| && l == if s.role == Server then ClampedLatency(s.latency) else p.received
    case Rejected(k) => p.sent == p.got == k + 1 <= |Compared(s)|
  }

  /**
   What s has received is a prefix of what its peer t has sent, the rest is in the channel, and only a rejected byte
   disagreed.
   */
  ghost predicate LinkInv(s: Side, p: Peer, t: Side, q: Peer, inbox: seq<byte>) {
    && p.got <= q.sent <= |Stream(t)|
    && inbox == Stream(t)[p.got..q.sent]
    && (forall k :: 0 <= k < p.got && k < |Compared(s)| ==> (Agrees(s, k, Stream(t)[k]) <==> p.status != Rejected(k)))
    && (p.got > |Compared(s)| ==> p.received == Stream(t)[|Compared(s)|])
  }

  ghost predicate Inv(w: World, st: State) {
    && SideInv(w.server, st.server) && SideInv(w.client, st.client)
    && LinkInv(w.server, st.server, w.client, st.client, st.toServer)
    && LinkInv(w.client, st.client, w.server, st.server, st.toClient)
  }

  lemma SendKeepsLinks(s: Side, p: Peer, t: Side, q: Peer, inS: seq<byte>, inT: seq<byte>)
    requires SideInv(s, p) && CanSend(s, p)
    requires LinkInv(s, p, t, q, inS) && LinkInv(t, q, s, p, inT)
    ensures var p' := p.(sent := p.sent + 1);
            SideInv(s, p') && LinkInv(s, p', t, q, inS) && LinkInv(t, q, s, p', inT + [Stream(s)[p.sent]])
  {
  }

  lemma ReceiveKeepsLinks(s: Side, p: Peer, t: Side, q: Peer, inS: seq<byte>, inT: seq<byte>)
    requires SideInv(s, p) && SideInv(t, q) && CanReceive(p) && inS != []
    requires LinkInv(s, p, t, q, inS) && LinkInv(t, q, s, p, inT)
    ensures var p' := Receive(s, p, inS[0]);
            SideInv(s, p') && LinkInv(s, p', t, q, inS[1..]) && LinkInv(t, q, s, p', inT)
  {
    hide Stream, Compared, Agrees, ClampedLatency;
    assert inS[0] == Stream(t)[p.got];
    assert inS[1..] == Stream(t)[p.got + 1..q.sent];
  }

  lemma FailKeepsLinks(s: Side, p: Peer, t: Side, q: Peer, inS: seq<byte>, inT: seq<byte>)
    requires SideInv(s, p) && p.status == Running
    requires LinkInv(s, p, t, q, inS) && LinkInv(t, q, s, p, inT)
    ensures var p' := p.(status := Failed);
            SideInv(s, p') && LinkInv(s, p', t, q, inS) && LinkInv(t, q, s, p', inT)
  {
  }

  lemma StepKeepsInv(w: World, st: State, a: Action)
    requires Inv(w, st) && Enabled(w, st, a)
    ensures Inv(w, Do(w, st, a))
  {
    hide SideInv, LinkInv;
    var s, p := SideOf(w, a.who), PeerOf(st, a.who);
    var t, q := SideOf(w, Other(a.who)), PeerOf(st, Other(a.who));
    match a
    case Send(who) => SendKeepsLinks(s, p, t, q, Inbox(st, who), Inbox(st, Other(who)));
    case Recv(who) => ReceiveKeepsLinks(s, p, t, q, Inbox(st, who), Inbox(st, Other(who)));
    case Fail(who) => FailKeepsLinks(s, p, t, q, Inbox(st, who), Inbox(st, Other(who)));
  }

  lemma {:induction false} RunKeepsInv(w: World, acts: seq<Action>)
    requires Run(w, acts).Some?
    ensures Inv(w, Run(w, acts).value)
  {
    if acts != [] {
      RunKeepsInv(w, acts[..|acts| - 1]);
      StepKeepsInv(w, Run(w, acts[..|acts| - 1]).value, acts[|acts| - 1]);
    }
  }

  // ---- agreement, over all interleavings and failures ----

  /** A side that accepts has seen its own compared bytes at the head of its peer's stream. */
  lemma AcceptedMeansEchoed(w: World, acts: seq<Action>, who: Role)
    requires Run(w, acts).Some? && PeerOf(Run(w, acts).value, who).status.Accepted?
    ensures Compared(SideOf(w, who)) <= Stream(SideOf(w, Other(who)))
  {
    RunKeepsInv(w, acts);
    var s, t := SideOf(w, who), SideOf(w, Other(who));
    assert forall k :: 0 <= k < |Compared(s)| ==> Agrees(s, k, Stream(t)[k]);
  }

  lemma CrcBytesDetermineCrc(a: uint32, b: uint32)
    requires CrcBytes(a) == CrcBytes(b)
    ensures a == b
  {
    FromBytes(a);
    FromBytes(b);
  }

  lemma FromBytes(a: uint32)
    ensures var s := CrcBytes(a);
            a as int == s[0] as int + 0x100 * s[1] as int + 0x1_0000 * s[2] as int + 0x100_0000 * s[3] as int
  {
    var n := a as int;
    assert n / 0x1_0000 == n / 0x100 / 0x100 && n / 0x100_0000 == n / 0x100 / 0x100 / 0x100;
  }

  /**
   With version texts of equal length, one acceptance means equal versions and checksums, and two mean equal
   latencies.
   */
  lemma Agreement(w: World, acts: seq<Action>, who: Role)
    requires Proper(w) && |w.server.version| == |w.client.version|
    requires Run(w, acts).Some? && PeerOf(Run(w, acts).value, who).status.Accepted?
    ensures w.server.version == w.client.version && w.server.crc == w.client.crc
    ensures PeerOf(Run(w, acts).value, who).status == Accepted(ClampedLatency(w.server.latency))
  {
    AcceptedMeansEchoed(w, acts, who);
    RunKeepsInv(w, acts);
    var s, t := w.server, w.client;
    var n, m := |s.version|, |Compared(s)|;
    assert Compared(s) == Stream(s)[..m] && Compared(t) == Stream(t)[..m];
    assert Compared(s) == Compared(t);
    assert s.version == Compared(s)[..n] && t.version == Compared(t)[..n];
    assert CrcBytes(s.crc) == Compared(s)[n..] && CrcBytes(t.crc) == Compared(t)[n..];
    CrcBytesDetermineCrc(s.crc, t.crc);
  }

  /** Exactly which selections are set as their clamp to 0..8; on the others the byte conversion comes in between. */
  lemma LatencyClampedExactlyWhen(latency: int)
    ensures (ClampedLatency(latency) as int == if latency < 0 then 0 else if latency > 8 then 8 else latency)
            <==> 0 <= latency < 256 || (latency < 0 && latency % 256 == 0) || (latency >= 256 && latency % 256 >= 8)
    ensures ClampedLatency(-1) == 8
  {
  }

  /** The client compares its version letters with signed characters, so with a letter from 128 on it never accepts. */
  lemma HighLettersNeverAccept(w: World, acts: seq<Action>, k: nat)
    requires Proper(w) && k < |w.client.version| && w.client.version[k] >= 128 && Run(w, acts).Some?
    ensures !Run(w, acts).value.client.status.Accepted?
  {
    RunKeepsInv(w, acts);
    var t := w.client;
    assert t.version[k] == Compared(t)[k];
    assert |Stream(w.server)| <= k || !Agrees(t, k, Stream(w.server)[k]) by { hide Stream; }
    hide Run;
  }

  // ---- liveness without transport failures ----

  /** Both sides' bytes can be judged alike: equal lengths, and letters the signed comparison does not spoil. */
  predicate Comparable(w: World) {
    && Proper(w)
    && |w.server.version| == |w.client.version|
    && forall b :: b in w.client.version ==> b < 128
  }

  /** Neither direction ever holds more than two bytes. */
  lemma AtMostTwoInFlight(w: World, acts: seq<Action>)
    requires Run(w, acts).Some?
    ensures |Run(w, acts).value.toServer| <= 2 && |Run(w, acts).value.toClient| <= 2
  {
    RunKeepsInv(w, acts);
  }

  predicate Finished(st: State) {
    !st.server.status.Running? && !st.client.status.Running?
  }

  lemma SameJudgement(w: World, k: nat)
    requires Comparable(w) && k < |Compared(w.server)|
    ensures Agrees(w.server, k, Stream(w.client)[k]) <==> Stream(w.server)[k] == Stream(w.client)[k]
    ensures Agrees(w.client, k, Stream(w.server)[k]) <==> Stream(w.server)[k] == Stream(w.client)[k]
  {
    if k < |w.client.version| {
      assert w.client.version[k] in w.client.version;
    }
  }

  lemma {:induction false} RunWithoutFailure(w: World, acts: seq<Action>)
    requires Run(w, acts).Some? && NoFailure(acts)
    ensures var st := Run(w, acts).value;
            && !st.server.status.Failed? && !st.client.status.Failed?
            && |acts| == st.server.sent + st.server.got + st.client.sent + st.client.got
  {
    if acts != [] {
      var before := acts[..|acts| - 1];
      assert acts[|acts| - 1] in acts && forall a :: a in before ==> a in acts;
      RunWithoutFailure(w, before);
      StepIsCounted(w, Run(w, before).value, acts[|acts| - 1]);
      hide Do, Enabled;
    }
  }

  lemma StepIsCounted(w: World, st: State, a: Action)
    requires Enabled(w, st, a) && !a.Fail? && !st.server.status.Failed? && !st.client.status.Failed?
    ensures var r := Do(w, st, a);
            && !r.server.status.Failed? && !r.client.status.Failed?
            && r.server.sent + r.server.got + r.client.sent + r.client.got
               == st.server.sent + st.server.got + st.client.sent + st.client.got + 1
  {
    hide Stream, Compared, Agrees, ClampedLatency;
  }

  /**
   A run without failures performs one action for each byte sent or received, so it is bounded by the bytes of the
   script.
   */
  lemma RunsAreBounded(w: World, acts: seq<Action>)
    requires Run(w, acts).Some? && NoFailure(acts)
    ensures |acts| <= 2 * |Stream(w.server)| + 2 * |Stream(w.client)|
  {
    RunWithoutFailure(w, acts);
    RunKeepsInv(w, acts);
  }

  /** A byte that one side rejected, the other has not received yet, or has rejected too. */
  lemma RejectionIsMutual(w: World, st: State, who: Role)
    requires Comparable(w) && Inv(w, st) && PeerOf(st, who).status.Rejected?
    ensures var k, q := PeerOf(st, who).status.at, PeerOf(st, Other(who)); q.got > k ==> q.status == Rejected(k)
  {
    SameJudgement(w, PeerOf(st, who).status.at);
    hide Stream, Compared, Agrees;
  }

  lemma InboxLengths(w: World, st: State)
    requires Inv(w, st)
    ensures |st.toServer| == st.client.sent - st.server.got && |st.toClient| == st.server.sent - st.client.got
  {
    hide Stream, Compared, Agrees;
  }

  /** Until both sides have finished, one of them can send or receive. */
  lemma NoDeadlock(w: World, acts: seq<Action>)
    requires Comparable(w) && Run(w, acts).Some? && NoFailure(acts)
    requires !Finished(Run(w, acts).value)
    ensures exists a: Action :: !a.Fail? && Enabled(w, Run(w, acts).value, a)
  {
    var st := Run(w, acts).value;
    RunKeepsInv(w, acts);
    RunWithoutFailure(w, acts);
    InboxLengths(w, st);
    if st.server.status.Rejected? { RejectionIsMutual(w, st, Server); }
    if st.client.status.Rejected? { RejectionIsMutual(w, st, Client); }
    hide Run, Stream, Compared, LinkInv, Agrees;
    assert Enabled(w, st, Send(Server)) || Enabled(w, st, Recv(Server))
        || Enabled(w, st, Send(Client)) || Enabled(w, st, Recv(Client));
  }

  /** Where two sequences first differ. */
  predicate FirstDifference(a: seq<byte>, b: seq<byte>, k: nat) {
    k < |a| && k < |b| && a[k] != b[k] && a[..k] == b[..k]
  }

  /** How every run ends: both accept the server's latency, or both reject at the first byte that differs. */
  lemma RunsEndTogether(w: World, acts: seq<Action>)
    requires Comparable(w) && Run(w, acts).Some? && NoFailure(acts)
    requires Finished(Run(w, acts).value)
    ensures var st := Run(w, acts).value;
            if Compared(w.server) == Compared(w.client) then
              st.server.status == st.client.status == Accepted(ClampedLatency(w.server.latency))
            else
              && st.server.status == st.client.status && st.server.status.Rejected?
              && FirstDifference(Compared(w.server), Compared(w.client), st.server.status.at)
  {
    RunKeepsInv(w, acts);
    RunWithoutFailure(w, acts);
    var st := Run(w, acts).value;
    var s, t := Compared(w.server), Compared(w.client);
    forall k: nat | k < |s| ensures Stream(w.server)[k] == s[k] && Stream(w.client)[k] == t[k] {}
    forall k: nat | k < |s|
      ensures Agrees(w.server, k, Stream(w.client)[k]) == Agrees(w.client, k, Stream(w.server)[k]) == (s[k] == t[k])
    {
      SameJudgement(w, k);
    }
    if st.server.status.Rejected? {
      assert s[st.server.status.at] != t[st.server.status.at];
    }
    if st.client.status.Rejected? {
      assert s[st.client.status.at] != t[st.client.status.at];
    }
  }

  // ---- version texts of different lengths ----

  /** The first n bytes of both sides, exchanged in lockstep. */
  function Rounds(n: nat): seq<Action> {
    if n == 0 then [] else Rounds(n - 1) + [Send(Server)] + [Send(Client)] + [Recv(Server)] + [Recv(Client)]
  }

  lemma RunSnoc(w: World, acts: seq<Action>, a: Action)
    requires Run(w, acts).Some? && Enabled(w, Run(w, acts).value, a)
    ensures Run(w, acts + [a]) == Some(Do(w, Run(w, acts).value, a))
  {
    assert (acts + [a])[..|acts|] == acts;
  }

  predicate InStep(st: State, n: nat) {
    && st.server.sent == st.server.got == st.client.sent == st.client.got == n
    && st.server.status == st.client.status == Running
    && st.toServer == st.toClient == []
  }

  lemma {:induction false} Lockstep(w: World, n: nat)
    requires n < |Stream(w.server)| && n < |Stream(w.client)|
    requires forall k :: 0 <= k < n && k < |Compared(w.server)| ==> Agrees(w.server, k, Stream(w.client)[k])
    requires forall k :: 0 <= k < n && k < |Compared(w.client)| ==> Agrees(w.client, k, Stream(w.server)[k])
    ensures Run(w, Rounds(n)).Some? && InStep(Run(w, Rounds(n)).value, n)
  {
    if n > 0 {
      Lockstep(w, n - 1);
      OneRound(w, Rounds(n - 1), n - 1);
    } else {
      assert Rounds(0) == [];
    }
    hide Run, InStep, Stream, Compared, Agrees;
  }

  lemma OneRound(w: World, acts: seq<Action>, n: nat)
    requires n + 1 < |Stream(w.server)| && n + 1 < |Stream(w.client)|
    requires Run(w, acts).Some? && InStep(Run(w, acts).value, n)
    requires n < |Compared(w.server)| ==> Agrees(w.server, n, Stream(w.client)[n])
    requires n < |Compared(w.client)| ==> Agrees(w.client, n, Stream(w.server)[n])
    ensures var r := Run(w, acts + [Send(Server)] + [Send(Client)] + [Recv(Server)] + [Recv(Client)]);
            r.Some? && InStep(r.value, n + 1)
  {
    var st1, st2, st3, st4 := FourSteps(w, Run(w, acts).value, n);
    hide *;
    RunSnoc(w, acts, Send(Server));
    RunSnoc(w, acts + [Send(Server)], Send(Client));
    RunSnoc(w, acts + [Send(Server)] + [Send(Client)], Recv(Server));
    RunSnoc(w, acts + [Send(Server)] + [Send(Client)] + [Recv(Server)], Recv(Client));
  }

  lemma FourSteps(w: World, st: State, n: nat) returns (st1: State, st2: State, st3: State, st4: State)
    requires n + 1 < |Stream(w.server)| && n + 1 < |Stream(w.client)| && InStep(st, n)
    requires n < |Compared(w.server)| ==> Agrees(w.server, n, Stream(w.client)[n])
    requires n < |Compared(w.client)| ==> Agrees(w.client, n, Stream(w.server)[n])
    ensures Enabled(w, st, Send(Server)) && st1 == Do(w, st, Send(Server))
    ensures Enabled(w, st1, Send(Client)) && st2 == Do(w, st1, Send(Client))
    ensures Enabled(w, st2, Recv(Server)) && st3 == Do(w, st2, Recv(Server))
    ensures Enabled(w, st3, Recv(Client)) && st4 == Do(w, st3, Recv(Client))
    ensures InStep(st4, n + 1)
  {
    hide Stream, Compared, Agrees;
    st1 := Do(w, st, Send(Server));
    st2 := Do(w, st1, Send(Client));
    assert st2.toServer == [Stream(w.client)[n]] && st2.toClient == [Stream(w.server)[n]];
    st3 := Do(w, st2, Recv(Server));
    st4 := Do(w, st3, Recv(Client));
  }

  /** The run brings this side to acceptance. */
  predicate AcceptsIn(w: World, acts: seq<Action>, who: Role) {
    Run(w, acts).Some? && PeerOf(Run(w, acts).value, who).status.Accepted?
  }

  /**
   What both scripts must look like for a side to accept: the peer has as many bytes to send, the side agrees with
   those it compares, and the peer does not reject before it has sent its share, which is one byte more than it has to
   read.
   */
  ghost predicate CanAccept(w: World, who: Role) {
    var s, t := SideOf(w, who), SideOf(w, Other(who));
    && |Stream(s)| <= |Stream(t)|
    && (forall k: nat :: k < |Compared(s)| ==> Agrees(s, k, Stream(t)[k]))
    && (forall k: nat :: k < |Stream(s)| - 1 && k < |Compared(t)| ==> Agrees(t, k, Stream(s)[k]))
  }

  /** Some run makes this side accept exactly when the scripts allow it. */
  lemma AcceptsExactlyWhen(w: World, who: Role)
    ensures (exists acts :: AcceptsIn(w, acts, who)) <==> CanAccept(w, who)
  {
    if CanAccept(w, who) {
      var acts := AcceptingRun(w, who);
      assert AcceptsIn(w, acts, who);
    }
    forall acts | AcceptsIn(w, acts, who) ensures CanAccept(w, who) {
      RunKeepsInv(w, acts);
      AcceptedSideCanAccept(w, Run(w, acts).value, who);
    }
  }

  lemma AcceptedSideCanAccept(w: World, st: State, who: Role)
    requires Inv(w, st) && PeerOf(st, who).status.Accepted?
    ensures CanAccept(w, who)
  {
    var s, t := SideOf(w, who), SideOf(w, Other(who));
    var p, q := PeerOf(st, who), PeerOf(st, Other(who));
    assert LinkInv(s, p, t, q, Inbox(st, who)) && LinkInv(t, q, s, p, Inbox(st, Other(who)));
    assert p.got == |Stream(s)| && |Stream(s)| <= q.sent;
    assert |Stream(s)| - 1 <= q.got && (q.status.Rejected? ==> |Stream(s)| - 1 <= q.status.at);
  }

  lemma LastByteAccepts(w: World, st: State, who: Role, n: nat)
    requires InStep(st, n) && n + 1 == |Stream(SideOf(w, who))| <= |Stream(SideOf(w, Other(who)))|
    ensures Enabled(w, st, Send(who))
    ensures var st1 := Do(w, st, Send(who));
            && Enabled(w, st1, Send(Other(who)))
            && var st2 := Do(w, st1, Send(Other(who)));
               Enabled(w, st2, Recv(who)) && PeerOf(Do(w, st2, Recv(who)), who).status.Accepted?
  {
  }

  /** All bytes but the last in lockstep, then the last of each side, and the receipt. */
  lemma AcceptingRun(w: World, who: Role) returns (acts: seq<Action>)
    requires CanAccept(w, who)
    ensures AcceptsIn(w, acts, who)
  {
    var n := |Stream(SideOf(w, who))| - 1;
    Lockstep(w, n);
    acts := Rounds(n);
    var st := Run(w, acts).value;
    LastByteAccepts(w, st, who, n);
    hide *;
    RunSnoc(w, acts, Send(who));
    RunSnoc(w, acts + [Send(who)], Send(Other(who)));
    RunSnoc(w, acts + [Send(who)] + [Send(Other(who))], Recv(who));
    acts := acts + [Send(who)] + [Send(Other(who))] + [Recv(who)];
  }

  predicate SameGame(w: World) {
    w.server.version == w.client.version && w.server.crc == w.client.crc
  }

  /**
   So a side can be brought to accept another game exactly when the version texts differ in length and the scripts
   allow it.
   */
  lemma DisagreesExactlyWhen(w: World, who: Role)
    requires Proper(w)
    ensures (exists acts :: AcceptsIn(w, acts, who) && !SameGame(w)) <==>
        CanAccept(w, who) && |w.server.version| != |w.client.version|
  {
    AcceptsExactlyWhen(w, who);
    hide CanAccept;
    forall acts | AcceptsIn(w, acts, who) && |w.server.version| == |w.client.version| ensures SameGame(w) {
      Agreement(w, acts, who);
    }
  }

  // ---- the version texts ----

  /** "VirtuaNES version " */
  const PRODUCT: seq<byte> := [86, 105, 114, 116, 117, 97, 78, 69, 83, 32, 118, 101, 114, 115, 105, 111, 110, 32]

  /** One hexadecimal digit of the version number, printed in decimal. */
  function Digits(n: nat): seq<byte>
    requires n < 16
  {
    if n < 10 then [48 + n as byte] else [49, 38 + n as byte]
  }

  /** The text both handlers make of a version number: its lowest three hexadecimal digits, a point behind the first. */
  function VersionText(version: nat): seq<byte> {
    Text(version / 0x100 % 16, version / 0x10 % 16, version % 16)
  }

  function Text(major: nat, minor: nat, patch: nat): seq<byte>
    requires major < 16 && minor < 16 && patch < 16
  {
    PRODUCT + Digits(major) + [46] + Digits(minor) + Digits(patch)
  }

  predicate DecimalDigits(version: nat) {
    version < 0x1000 && version / 0x100 % 16 < 10 && version / 0x10 % 16 < 10 && version % 16 < 10
  }

  lemma TextOfDecimals(major: nat, minor: nat, patch: nat)
    requires major < 10 && minor < 10 && patch < 10
    ensures Text(major, minor, patch) == PRODUCT + [48 + major as byte, 46, 48 + minor as byte, 48 + patch as byte]
  {
  }

  lemma FromDigits(version: nat)
    requires version < 0x1000
    ensures version == version / 0x100 % 16 * 0x100 + version / 0x10 % 16 * 0x10 + version % 16
  {
    assert version / 0x100 == version / 0x10 / 16;
  }

  /** Version numbers of decimal digits have texts of one length that determine them. */
  lemma TextTellsVersion(v: nat, v': nat)
    requires DecimalDigits(v) && DecimalDigits(v')
    ensures |VersionText(v)| == |VersionText(v')| == 22
    ensures VersionText(v) == VersionText(v') <==> v == v'
  {
    TextOfDecimals(v / 0x100 % 16, v / 0x10 % 16, v % 16);
    TextOfDecimals(v' / 0x100 % 16, v' / 0x10 % 16, v' % 16);
    if VersionText(v) == VersionText(v') {
      assert VersionText(v)[18..] == VersionText(v')[18..];
      FromDigits(v);
      FromDigits(v');
    }
    hide Text;
  }

  /**
   Between such versions the handshake does what it is for: whoever accepts plays the same version and the same image.
   */
  lemma DecimalVersionsAgree(w: World, acts: seq<Action>, who: Role, v: nat, v': nat)
    requires Proper(w) && w.server.version == VersionText(v) && w.client.version == VersionText(v')
    requires DecimalDigits(v) && DecimalDigits(v') && AcceptsIn(w, acts, who)
    ensures v == v' && w.server.crc == w.client.crc
    ensures PeerOf(Run(w, acts).value, who).status == Accepted(ClampedLatency(w.server.latency))
  {
    TextTellsVersion(v, v');
    hide VersionText;
    Agreement(w, acts, who);
  }

  /**
   With other digits it may fail: "0.91" is a prefix of "0.910", which is how version 0x09A prints, and the checksum
   behind the shorter text can imitate the rest of the longer one.
   */
  lemma OtherVersionsCanDisagree() returns (w: World, acts: seq<Action>)
    ensures Proper(w) && w.server.version == VersionText(0x091) && w.client.version == VersionText(0x09A)
    ensures w.server.version != w.client.version && w.server.crc != w.client.crc
    ensures AcceptsIn(w, acts, Server)
  {
    w := World(Side(Server, VersionText(0x091), 0x03020130, 0), Side(Client, VersionText(0x09A), 0x00030201, 0));
    TheTexts();
    TheChecksums();
    hide VersionText, CrcBytes;
    ImitatingStreams(w, 48, 1, 2, 3);
    Imitation(w);
    hide *;
    acts := AcceptingRun(w, Server);
  }

  lemma TheChecksums()
    ensures CrcBytes(0x03020130) == [48, 1, 2, 3] && CrcBytes(0x00030201) == [1, 2, 3, 0]
  {
  }

  /**
   One letter more on the client, and the server's checksum stands for that letter and most of the client's checksum.
   */
  lemma ImitatingStreams(w: World, x: byte, a: byte, b: byte, c: byte)
    requires Proper(w) && w.server.latency == 0 && w.client.version == w.server.version + [x]
    requires CrcBytes(w.server.crc) == [x, a, b, c] && CrcBytes(w.client.crc) == [a, b, c, 0]
    ensures Stream(w.server) <= Stream(w.client)
  {
    hide CrcBytes;
    var text := w.server.version;
    assert Stream(w.server) == text + [x, a, b, c, 0, 0];
    assert Stream(w.client) == text + [x, a, b, c, 0, 0, 0];
  }

  lemma Imitation(w: World)
    requires Proper(w) && Stream(w.server) <= Stream(w.client) && forall b :: b in w.client.version ==> b < 128
    ensures CanAccept(w, Server)
  {
    var s, t := w.server, w.client;
    forall k: nat | k < |Compared(s)| ensures Agrees(s, k, Stream(t)[k]) {
      assert Stream(t)[k] == Stream(s)[k] == Compared(s)[k];
    }
    forall k: nat | k < |Stream(s)| - 1 && k < |Compared(t)| ensures Agrees(t, k, Stream(s)[k]) {
      assert Stream(s)[k] == Stream(t)[k] == Compared(t)[k];
      if k < |t.version| { assert t.version[k] in t.version; }
    }
  }

  /** The text of a version number, letter by letter. */
  lemma TextIsSpelled()
    ensures var text, spelled := VersionText(0x097), "VirtuaNES version 0.97";
            |text| == |spelled| && forall i :: 0 <= i < |spelled| ==> text[i] as int == spelled[i] as int
  {
    assert 0x097 / 0x100 % 16 == 0 && 0x097 / 0x10 % 16 == 9 && 0x097 % 16 == 7;
    TextOfDecimals(0, 9, 7);
  }

  lemma TheTexts()
    ensures VersionText(0x09A) == VersionText(0x091) + [48]
    ensures forall b :: b in VersionText(0x09A) ==> b < 128
  {
    assert 0x091 / 0x100 % 16 == 0 && 0x091 / 0x10 % 16 == 9 && 0x091 % 16 == 1;
    assert 0x09A / 0x100 % 16 == 0 && 0x09A / 0x10 % 16 == 9 && 0x09A % 16 == 10;
    assert Text(0, 9, 10) == PRODUCT + [48, 46, 57, 49, 48];
    TextOfDecimals(0, 9, 1);
  }

  // ---- the two handlers ----

  /** A connection as one side sees it: bytes still to come in, bytes sent, and which of the coming calls will fail. */
  datatype Wire = Wire(inbox: seq<byte>, outbox: seq<byte>, faults: seq<bool>)

  function Sent(wire: Wire, b: byte): (Wire, bool) {
    var rest := if wire.faults == [] then [] else wire.faults[1..];
    if wire.faults != [] && wire.faults[0] then (wire.(faults := rest), true)
    else (wire.(faults := rest, outbox := wire.outbox + [b]), false)
  }

  /** Nothing arrives in time when the call fails or no byte is left. */
  function Received(wire: Wire): (Wire, Option<byte>) {
    var rest := if wire.faults == [] then [] else wire.faults[1..];
    if (wire.faults != [] && wire.faults[0]) || wire.inbox == [] then (wire.(faults := rest), None)
    else (wire.(faults := rest, inbox := wire.inbox[1..]), Some(wire.inbox[0]))
  }

  /** One byte each way: a send step and a receive step of the protocol, or a failure. */
  function Exchange(s: Side, p: Peer, wire: Wire): (Peer, Wire)
    requires CanSend(s, p)
  {
    var (w1, failed) := Sent(wire, Stream(s)[p.sent]);
    if failed then (p.(status := Failed), w1) else
      var (w2, b) := Received(w1);
      var q := p.(sent := p.sent + 1);
      if b.None? then (q.(status := Failed), w2) else (Receive(s, q, b.value), w2)
  }

  /** The first n exchanges of a side, or fewer if one of them ends the handshake. */
  function Exchanges(s: Side, wire: Wire, n: nat): (r: (Peer, Wire))
    requires n <= |Stream(s)|
    ensures r.0.status == Running ==> r.0.sent == r.0.got == n < |Stream(s)|
  {
    if n == 0 then (FRESH, wire) else
      var (p, w) := Exchanges(s, wire, n - 1);
      if p.status == Running then Exchange(s, p, w) else (p, w)
  }

  /** An exchange without failures is what the two steps of the interleaved protocol do to that side. */
  lemma ExchangeIsSendThenReceive(w: World, st: State, who: Role, wire: Wire)
    requires Enabled(w, st, Send(who)) && wire.inbox == Inbox(st, who) != [] && wire.faults == []
    ensures var mid := Do(w, st, Send(who));
            && Enabled(w, mid, Recv(who))
            && var r := Exchange(SideOf(w, who), PeerOf(st, who), wire);
               r.0 == PeerOf(Do(w, mid, Recv(who)), who) && r.1.inbox == Inbox(Do(w, mid, Recv(who)), who)
  {
  }

  class NetPlay {
    var inbox: seq<byte>
    var outbox: seq<byte>
    var faults: seq<bool>

    ghost function View(): Wire
      reads this
    {
      Wire(inbox, outbox, faults)
    }

    method NextFault() returns (fault: bool)
      modifies `faults
      ensures fault == (old(faults) != [] && old(faults)[0])
      ensures faults == if old(faults) == [] then [] else old(faults)[1..]
    {
      fault := faults != [] && faults[0];
      if faults != [] { faults := faults[1..]; }
    }

    method Send(b: byte) returns (failed: bool)
      modifies this
      ensures (View(), failed) == Sent(old(View()), b)
    {
      failed := NextFault();
      if !failed { outbox := outbox + [b]; }
    }

    method RecvTime() returns (b: Option<byte>)
      modifies this
      ensures (View(), b) == Received(old(View()))
    {
      var failed := NextFault();
      if failed || inbox == [] { return None; }
      b := Some(inbox[0]);
      inbox := inbox[1..];
    }
  }

  /** How a handler ends. Without a loaded image it breaks off between the version text and the checksum. */
  function Outcome(s: Side, wire: Wire, image: bool): (Status, Wire) {
    var (p, w) := Exchanges(s, wire, Planned(s, image));
    (if p.status == Running then Failed else p.status, w)
  }

  /** How many exchanges a handler comes to at most. */
  function Planned(s: Side, image: bool): nat {
    if image then |Stream(s)| else |s.version|
  }

  /** What n exchanges of these bytes that went well have done to the connection: every call of them succeeded. */
  predicate WentWell(stream: seq<byte>, wire: Wire, n: nat, w: Wire)
    requires n <= |stream|
  {
    && n <= |wire.inbox| && w.inbox == wire.inbox[n..] && w.outbox == wire.outbox + stream[..n]
    && (forall j :: 0 <= j < 2 * n && j < |wire.faults| ==> !wire.faults[j])
    && w.faults == if 2 * n <= |wire.faults| then wire.faults[2 * n..] else []
  }

  lemma NothingWent(stream: seq<byte>, wire: Wire)
    ensures WentWell(stream, wire, 0, wire)
  {
    assert wire.inbox[0..] == wire.inbox && wire.faults[0..] == wire.faults && wire.outbox + [] == wire.outbox;
  }

  /** One exchange more: a byte out, a byte in, two calls that did not fail. */
  predicate WentOnce(b: byte, w: Wire, v: Wire) {
    && v.outbox == w.outbox + [b] && w.inbox != [] && v.inbox == w.inbox[1..]
    && (forall j :: 0 <= j < 2 && j < |w.faults| ==> !w.faults[j])
    && v.faults == if 2 <= |w.faults| then w.faults[2..] else []
  }

  lemma WentOnceMore(stream: seq<byte>, wire: Wire, n: nat, w: Wire, v: Wire)
    requires n < |stream| && WentWell(stream, wire, n, w) && WentOnce(stream[n], w, v)
    ensures WentWell(stream, wire, n + 1, v)
  {
    FirstOfRest(wire.inbox, n + 1);
    TwoFewerFaults(wire.faults, n, w.faults);
    assert wire.outbox + stream[..n] + [stream[n]] == wire.outbox + stream[..n + 1];
  }

  lemma {:induction false} ExchangesGoWell(s: Side, wire: Wire, n: nat)
    requires n <= |Stream(s)|
    ensures var (p, w) := Exchanges(s, wire, n);
            p.status.Running? || p.status.Accepted? ==> WentWell(Stream(s), wire, n, w)
  {
    hide Exchange, WentWell, Stream, CanSend;
    if n == 0 {
      NothingWent(Stream(s), wire);
    } else {
      ExchangesGoWell(s, wire, n - 1);
      NotAcceptedBefore(s, wire, n - 1);
      var (p, w) := Exchanges(s, wire, n - 1);
      if p.status == Running {
        StillSending(s, p);
        OneGoesWell(s, wire, n - 1, p, w);
      }
    }
  }

  lemma OneGoesWell(s: Side, wire: Wire, n: nat, p: Peer, w: Wire)
    requires n < |Stream(s)| && WentWell(Stream(s), wire, n, w) && CanSend(s, p) && p.sent == n
    ensures var (q, v) := Exchange(s, p, w);
            q.status.Running? || q.status.Accepted? ==> WentWell(Stream(s), wire, n + 1, v)
  {
    hide Stream, Exchange, CanSend, WentWell, WentOnce;
    var (q, v) := Exchange(s, p, w);
    ExchangeUses(s, p, w);
    if q.status.Running? || q.status.Accepted? {
      WentOnceMore(Stream(s), wire, n, w, v);
    }
  }

  lemma ExchangeUses(s: Side, p: Peer, w: Wire)
    requires CanSend(s, p)
    ensures var (q, v) := Exchange(s, p, w);
            q.status.Running? || q.status.Accepted? ==> WentOnce(Stream(s)[p.sent], w, v)
  {
    hide Stream, Compared, Agrees, ClampedLatency;
  }

  lemma TwoFewerFaults(all: seq<bool>, n: nat, rest: seq<bool>)
    requires rest == if 2 * n <= |all| then all[2 * n..] else []
    ensures (if 2 <= |rest| then rest[2..] else []) == if 2 * (n + 1) <= |all| then all[2 * (n + 1)..] else []
    ensures forall j :: 2 * n <= j < 2 * n + 2 && j < |all| ==> j - 2 * n < |rest| && rest[j - 2 * n] == all[j]
  {
  }

  /** Nobody accepts before the last exchange. */
  lemma {:induction false} NotAcceptedBefore(s: Side, wire: Wire, n: nat)
    requires n < |Stream(s)|
    ensures !Exchanges(s, wire, n).0.status.Accepted?
  {
    if n > 0 {
      hide Stream, Compared, Agrees;
      NotAcceptedBefore(s, wire, n - 1);
    }
  }

  /**
   A handler that accepts had an image and no call that failed, and has sent its version text, the four bytes of its
   checksum, lowest first, the latency if it is the server, else 0, and a 0.
   */
  lemma AcceptedHasSent(s: Side, wire: Wire, image: bool)
    requires Outcome(s, wire, image).0.Accepted?
    ensures image && forall j :: 0 <= j < 2 * |s.version| + 12 && j < |wire.faults| ==> !wire.faults[j]
    ensures exists a: byte, b: byte, c: byte, d: byte ::
              && Outcome(s, wire, image).1.outbox
                 == wire.outbox
                    + (s.version + [a, b, c, d] + [if s.role == Server then ClampedLatency(s.latency) else 0, 0])
              && s.crc as int == a as int + 0x100 * b as int + 0x1_0000 * c as int + 0x100_0000 * d as int
  {
    if !image {
      NotAcceptedBefore(s, wire, |s.version|);
      assert false;
    }
    ExchangesGoWell(s, wire, |Stream(s)|);
    FromBytes(s.crc);
    var bytes := CrcBytes(s.crc);
    assert bytes == [bytes[0], bytes[1], bytes[2], bytes[3]];
    assert Stream(s)[..|Stream(s)|] == Stream(s);
    hide CrcBytes, ClampedLatency, Exchanges;
  }

  /** The first n bytes from the peer are there, and those that are compared agree. */
  ghost predicate Echoes(s: Side, inbox: seq<byte>, n: nat) {
    n <= |inbox| && forall k :: 0 <= k < n && k < |Compared(s)| ==> Agrees(s, k, inbox[k])
  }

  /** Where a side stands after n exchanges without faults: it goes on, or has accepted, as long as it saw echoes. */
  ghost predicate FollowsEchoes(s: Side, inbox: seq<byte>, n: nat, p: Peer, w: Wire) {
    if Echoes(s, inbox, n) then
      && n <= |inbox| && w.inbox == inbox[n..] && w.faults == [] && p.sent == p.got == n
      && (if n < |Stream(s)| then p.status == Running else p.status.Accepted?)
    else Stopped(s, inbox, n, p.status)
  }

  /** Why a side has stopped within n exchanges: nothing more came, or something that did not agree. */
  ghost predicate Stopped(s: Side, inbox: seq<byte>, n: nat, status: Status) {
    match status
    case Failed => |inbox| < n && Echoes(s, inbox, |inbox|)
    case Rejected(k) => k < n && DisagreesFirst(s, inbox, k)
    case _ => false
  }

  ghost predicate DisagreesFirst(s: Side, inbox: seq<byte>, k: nat) {
    k < |inbox| && k < |Compared(s)| && Echoes(s, inbox, k) && !Agrees(s, k, inbox[k])
  }

  lemma {:induction false} ExchangesFollowEchoes(s: Side, wire: Wire, n: nat)
    requires wire.faults == [] && n <= |Stream(s)|
    ensures var (p, w) := Exchanges(s, wire, n); FollowsEchoes(s, wire.inbox, n, p, w)
  {
    if n == 0 {
      hide Stream, Compared, Agrees;
      assert Exchanges(s, wire, 0) == (FRESH, wire) && wire.inbox[0..] == wire.inbox;
    } else {
      hide Exchange, Stream, FollowsEchoes;
      ExchangesFollowEchoes(s, wire, n - 1);
      var (p, w) := Exchanges(s, wire, n - 1);
      OneFurther(s, wire.inbox, n - 1, p, w);
    }
  }

  lemma OneFurther(s: Side, inbox: seq<byte>, n: nat, p: Peer, w: Wire)
    requires n < |Stream(s)| && FollowsEchoes(s, inbox, n, p, w)
    ensures if p.status == Running then
              CanSend(s, p) && var (q, v) := Exchange(s, p, w); FollowsEchoes(s, inbox, n + 1, q, v)
            else FollowsEchoes(s, inbox, n + 1, p, w)
  {
    OneMoreEcho(s, inbox, n);
    hide Exchange, Agrees, Stream, Compared, Echoes, CanSend;
    if !Echoes(s, inbox, n) {
      assert Stopped(s, inbox, n + 1, p.status);
    } else if n == |inbox| {
      assert !Echoes(s, inbox, n + 1);
    }
    if p.status == Running {
      StillSending(s, p);
      FaultlessExchange(s, p, w);
      FirstOfRest(inbox, n + 1);
    }
  }

  lemma StillSending(s: Side, p: Peer)
    requires p.status == Running && p.sent == p.got < |Stream(s)|
    ensures CanSend(s, p)
  {
  }

  lemma FirstOfRest(bytes: seq<byte>, n: nat)
    requires n > 0
    ensures n <= |bytes| ==> bytes[n - 1..][0] == bytes[n - 1] && bytes[n - 1..][1..] == bytes[n..]
  {
  }

  lemma OneMoreEcho(s: Side, inbox: seq<byte>, n: nat)
    ensures Echoes(s, inbox, n + 1) <==>
              Echoes(s, inbox, n) && n < |inbox| && (n < |Compared(s)| ==> Agrees(s, n, inbox[n]))
    ensures Echoes(s, inbox, n) ==> n <= |inbox|
  {
    hide Agrees, Compared;
  }

  /** Without faults an exchange fails only for want of a byte. */
  lemma FaultlessExchange(s: Side, p: Peer, w: Wire)
    requires CanSend(s, p) && w.faults == []
    ensures var (q, v) := Exchange(s, p, w);
            if w.inbox == [] then q.status == Failed
            else
              && v.inbox == w.inbox[1..] && v.faults == [] && q.sent == q.got == p.got + 1
              && (if p.got < |Compared(s)| && !Agrees(s, p.got, w.inbox[0]) then q.status == Rejected(p.got)
                  else if p.got + 1 < |Stream(s)| then q.status == Running else q.status.Accepted?)
  {
  }

  /**
   On a connection without faults a side accepts exactly the peers that echo its version and checksum and send two
   bytes more.
   */
  lemma AcceptsExactlyEchoes(s: Side, wire: Wire)
    requires wire.faults == []
    ensures Outcome(s, wire, true).0.Accepted? <==> Echoes(s, wire.inbox, |Stream(s)|)
  {
    ExchangesFollowEchoes(s, wire, |Stream(s)|);
  }

  /**
   Otherwise it rejects the peer at the first byte of its plan that does not agree, and has failed if the peer fell
   silent or the plan ended early for want of an image: then it has sent its version text and no more.
   */
  lemma EndsExactlyWhen(s: Side, wire: Wire, image: bool)
    requires wire.faults == []
    ensures var (status, w) := Outcome(s, wire, image); var planned := if image then |Stream(s)| else |s.version|;
            && (status.Accepted? <==> image && Echoes(s, wire.inbox, planned))
            && (forall k: nat :: status == Rejected(k) <==> k < planned && DisagreesFirst(s, wire.inbox, k))
            && (status == Failed <==>
                  || (|wire.inbox| < planned && Echoes(s, wire.inbox, |wire.inbox|))
                  || (!image && Echoes(s, wire.inbox, planned)))
            && (!image && Echoes(s, wire.inbox, planned) ==>
                  w.outbox == wire.outbox + s.version && w.inbox == wire.inbox[planned..])
  {
    var planned := Planned(s, image);
    PlannedWithin(s, image);
    ExchangesFollowEchoes(s, wire, planned);
    ExchangesGoWell(s, wire, planned);
    hide Exchanges, Stream, FollowsEchoes, DisagreesFirst, Echoes, WentWell;
    var (p, w) := Exchanges(s, wire, planned);
    Classified(s, wire.inbox, planned, p, w);
    if !image && Echoes(s, wire.inbox, planned) {
      TakenOver(s, wire, w);
    }
  }

  lemma PlannedWithin(s: Side, image: bool)
    ensures Planned(s, image) <= |Stream(s)| && (!image ==> Planned(s, image) < |Stream(s)|)
    ensures Stream(s)[..|s.version|] == s.version
  {
  }

  lemma TakenOver(s: Side, wire: Wire, w: Wire)
    requires |s.version| <= |Stream(s)| && Stream(s)[..|s.version|] == s.version
    requires WentWell(Stream(s), wire, |s.version|, w)
    ensures |s.version| <= |wire.inbox| && w.inbox == wire.inbox[|s.version|..] && w.outbox == wire.outbox + s.version
  {
    hide Stream;
  }

  lemma Classified(s: Side, inbox: seq<byte>, n: nat, p: Peer, w: Wire)
    requires n <= |Stream(s)| && FollowsEchoes(s, inbox, n, p, w)
    ensures p.status.Accepted? <==> n == |Stream(s)| && Echoes(s, inbox, n)
    ensures p.status == Running <==> n < |Stream(s)| && Echoes(s, inbox, n)
    ensures p.status == Failed <==> |inbox| < n && Echoes(s, inbox, |inbox|)
    ensures forall k: nat :: p.status == Rejected(k) <==> k < n && DisagreesFirst(s, inbox, k)
    ensures Echoes(s, inbox, n) ==> n <= |inbox|
  {
    hide Stream, Agrees, Compared;
    forall k: nat | DisagreesFirst(s, inbox, k)
      ensures !(k < n && Echoes(s, inbox, n)) && !(k < |inbox| && Echoes(s, inbox, |inbox|))
    {
    }
    if p.status.Rejected? {
      forall k: nat | DisagreesFirst(s, inbox, k) ensures k == p.status.at {
        OnlyFirst(s, inbox, k, p.status.at);
      }
    }
  }

  lemma OnlyFirst(s: Side, inbox: seq<byte>, k: nat, l: nat)
    requires DisagreesFirst(s, inbox, k) && DisagreesFirst(s, inbox, l)
    ensures k == l
  {
    hide Stream, Agrees, Compared;
  }

  lemma {:induction false} EndedStaysEnded(s: Side, wire: Wire, n: nat, m: nat)
    requires n <= m <= |Stream(s)| && Exchanges(s, wire, n).0.status != Running
    ensures Exchanges(s, wire, m) == Exchanges(s, wire, n)
    decreases m
  {
    if n < m { EndedStaysEnded(s, wire, n, m - 1); }
  }

  lemma LastExchange(s: Side, wire: Wire, n: nat)
    requires n < |Stream(s)|
    ensures Exchanges(s, wire, n).0.status == Running ==>
              Exchanges(s, wire, n + 1) == Exchange(s, Exchanges(s, wire, n).0, Exchanges(s, wire, n).1)
    ensures Exchanges(s, wire, n + 1).0.status != Running ==>
        Exchanges(s, wire, |Stream(s)|) == Exchanges(s, wire, n + 1)
  {
    hide Exchange;
    if Exchanges(s, wire, n + 1).0.status != Running {
      EndedStaysEnded(s, wire, n + 1, |Stream(s)|);
    }
  }

  /** Sends a byte and waits for one; None when either call fails. */
  method Trade(net: NetPlay, s: Side, ghost start: Wire, ghost p: Peer, b: byte) returns (databuf: Option<byte>)
    requires CanSend(s, p) && b == Stream(s)[p.sent]
    requires Exchanges(s, start, p.sent) == (p, net.View())
    modifies net
    ensures var r := Exchanges(s, start, p.sent + 1);
            && net.View() == r.1
            && r.0.status == (if databuf == None then Failed
                else Receive(s, p.(sent := p.sent + 1), databuf.value).status)
            && (databuf.Some? ==> r.0 == Receive(s, p.(sent := p.sent + 1), databuf.value))
  {
    LastExchange(s, start, p.sent);
    hide Exchanges, Stream, Compared;
    databuf := None;
    var failed := net.Send(b);
    if !failed { databuf := net.RecvTime(); }
  }

  /** Sends the bytes of the stream from one place to another and compares each with the byte received for it. */
  method CheckBytes(net: NetPlay, s: Side, ghost start: Wire, bytes: seq<byte>, first: nat) returns (status: Status)
    requires first + |bytes| <= |Compared(s)| && bytes == Compared(s)[first..first + |bytes|]
    requires Exchanges(s, start, first) == (Peer(first, first, 0, Running), net.View())
    modifies net
    ensures var n := first + |bytes|; status == Running ==>
        Exchanges(s, start, n) == (Peer(n, n, 0, Running), net.View())
    ensures status != Running ==> EndedBy(s, start, first + |bytes|, status, net.View())
    ensures status != Running ==> EndedBy(s, start, |Stream(s)|, status, net.View())
  {
    hide Exchanges, Agrees, EndedBy;
    for i := 0 to |bytes|
      invariant Exchanges(s, start, first + i) == (Peer(first + i, first + i, 0, Running), net.View())
    {
      var databuf := Trade(net, s, start, Peer(first + i, first + i, 0, Running), bytes[i]);
      if databuf == None {
        EndedAt(s, start, first + i + 1, first + |bytes|);
        return Failed;
      }
      if !Agrees(s, first + i, databuf.value) {
        EndedAt(s, start, first + i + 1, first + |bytes|);
        return Rejected(first + i);
      }
    }
    return Running;
  }

  /** After m exchanges, or as many of them as took place, the side stands at this status and wire. */
  ghost predicate EndedBy(s: Side, start: Wire, m: nat, status: Status, wire: Wire)
    requires m <= |Stream(s)|
  {
    Exchanges(s, start, m).0.status == status && Exchanges(s, start, m).1 == wire
  }

  lemma EndedAt(s: Side, start: Wire, k: nat, m: nat)
    requires k <= m <= |Stream(s)| && Exchanges(s, start, k).0.status != Running
    ensures EndedBy(s, start, m, Exchanges(s, start, k).0.status, Exchanges(s, start, k).1)
    ensures EndedBy(s, start, |Stream(s)|, Exchanges(s, start, k).0.status, Exchanges(s, start, k).1)
  {
    EndedStaysEnded(s, start, k, m);
    EndedStaysEnded(s, start, k, |Stream(s)|);
  }

  /** The last two exchanges: the server's latency one way, and a step byte each way. Nothing is compared. */
  method SettleLatency(net: NetPlay, s: Side, ghost start: Wire) returns (status: Status)
    requires var n := |Compared(s)|; Exchanges(s, start, n) == (Peer(n, n, 0, Running), net.View())
    modifies net
    ensures var r := Exchanges(s, start, |Stream(s)|); status == r.0.status && net.View() == r.1
  {
    ghost var n := |Compared(s)|;
    LastExchange(s, start, n);
    hide Exchanges;
    var serverLatency := 0;
    if s.role == Server {
      serverLatency := (s.latency % 256) as byte;
      if serverLatency > 8 { serverLatency := 8; }
    }
    var theirs := Trade(net, s, start, Peer(n, n, 0, Running), serverLatency);
    if theirs == None { return Failed; }
    if s.role == Client { serverLatency := theirs.value; }
    var step := Trade(net, s, start, Peer(n + 1, n + 1, theirs.value, Running), 0);
    if step == None { return Failed; }
    return Accepted(serverLatency);
  }

  lemma ComparedParts(s: Side)
    ensures s.version == Compared(s)[0..0 + |s.version|]
    ensures CrcBytes(s.crc) == Compared(s)[|s.version|..|s.version| + 4] && |CrcBytes(s.crc)| == 4
  {
  }

  lemma NothingExchanged(s: Side, wire: Wire)
    ensures Exchanges(s, wire, 0) == (Peer(0, 0, 0, Running), wire)
  {
  }

  /** What follows the version text: the image, its checksum, and the latency. */
  method ConfirmImage(net: NetPlay, s: Side, ghost start: Wire, image: bool) returns (status: Status)
    requires var n := |s.version|; Exchanges(s, start, n) == (Peer(n, n, 0, Running), net.View())
    modifies net
    ensures if image then EndedBy(s, start, |Stream(s)|, status, net.View())
            else status == Failed && net.View() == old(net.View())
  {
    hide Exchanges, Stream, Compared, CrcBytes;
    if !image { return Failed; }
    ComparedParts(s);
    status := CheckBytes(net, s, start, CrcBytes(s.crc), |s.version|);
    if status != Running { return; }
    status := SettleLatency(net, s, start);
  }

  /** The handler of either side, the exits on failure included. */
  method OnNetwork(net: NetPlay, s: Side, image: bool) returns (status: Status)
    modifies net
    ensures (status, net.View()) == Outcome(s, old(net.View()), image)
  {
    hide Exchanges, Stream, Compared, CrcBytes;
    ghost var start := net.View();
    ComparedParts(s);
    NothingExchanged(s, start);
    status := CheckBytes(net, s, start, s.version, 0);
    if status == Running {
      status := ConfirmImage(net, s, start, image);
    }
  }
}
