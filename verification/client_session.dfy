/** One run of `handleClient`, with the sockets taken out: the reads a connection delivers go
    in, the ordered list of sends and the registry afterwards come out. Each locked block is
    one atomic step and no other session runs in between. */
module ClientSession {
  import opened Wrappers
  import opened CppString
  import opened ClientRegistry
  import opened MessageDispatch

  /** What one `recv` call reports: the bytes it wrote (none is an orderly close by the peer),
      or a socket error. */
  datatype RecvResult = Received(bytes: string) | SocketError

  /** The value `recv` returns, `valread`. */
  function ValRead(r: RecvResult): int {
    match r
    case Received(bytes) => |bytes|
    case SocketError => -1
  }

  /** `recv` writes at most the length it is given, `sizeof(buffer) - 1`. */
  predicate FitsBuffer(r: RecvResult) {
    r.Received? ==> |r.bytes| <= MaxRead
  }

  predicate AllFit(received: seq<RecvResult>) {
    forall i :: 0 <= i < |received| ==> FitsBuffer(received[i])
  }

  /** One `send` call or one `broadcastMessage` call: the sockets written to, in order, and the text. */
  datatype Delivery = Delivery(targets: seq<int>, payload: string)

  /** The end of a session: everything sent, the registry afterwards, and the name the socket
      registered under (None when it closed before the handshake). */
  datatype SessionResult = SessionResult(trace: seq<Delivery>, registry: Registry, username: Option<string>)

  function Welcome(name: string): string { "Welcome, " + name + "!\n" }

  function JoinNotice(name: string): string { name + " has joined the chat.\n" }

  function LeaveNotice(name: string): string { name + " has left the chat.\n" }

  /** `broadcastMessage(payload, sender)` against the registry as it is when the lock is taken. */
  function Broadcast(reg: Registry, payload: string, sender: int): (d: Delivery)
    ensures d.payload == payload
    ensures forall t :: t in d.targets <==> t in reg.clients && t != sender
  {
    Delivery(Without(reg.clients, sender), payload)
  }

  /** The messages the `while` loop of `handleClient` handles: one per read, in read order,
      up to the first read that returns zero or less. A list that runs out is read as the
      end of the stream. */
  function Messages(received: seq<RecvResult>): (ms: seq<string>)
    requires AllFit(received)
    ensures |ms| <= |received|
    ensures forall i :: 0 <= i < |ms| ==> ValRead(received[i]) > 0 && ms[i] == ReadString(received[i].bytes)
    ensures |ms| < |received| ==> ValRead(received[|ms|]) <= 0
    ensures forall i :: 0 <= i < |ms| ==> |ms[i]| <= MaxRead && Nul !in ms[i]
  {
    if |received| == 0 || ValRead(received[0]) <= 0 then []
    else [ReadString(received[0].bytes)] + Messages(received[1..])
  }

  /** The broadcast one message from `name` causes: one, or none for a malformed command. */
  function Sent(reg: Registry, sock: int, name: string, message: string): seq<Delivery> {
    match Outgoing(name, message)
    case None => []
    case Some(p) => [Broadcast(reg, p, sock)]
  }

  /** The broadcasts the messages `msgs` from `name` cause, in order. */
  function Dispatch(reg: Registry, sock: int, name: string, msgs: seq<string>): (ds: seq<Delivery>)
    ensures |ds| <= |msgs|
    ensures forall i :: 0 <= i < |ds| ==> ds[i].targets == Without(reg.clients, sock)
  {
    if |msgs| == 0 then []
    else Sent(reg, sock, name, msgs[0]) + Dispatch(reg, sock, name, msgs[1..])
  }

  /** When no message is a malformed command, the i-th broadcast carries the i-th message. */
  lemma {:induction false} DispatchPayloads(reg: Registry, sock: int, name: string, msgs: seq<string>)
    requires forall j :: 0 <= j < |msgs| ==> Outgoing(name, msgs[j]).Some?
    ensures var ds := Dispatch(reg, sock, name, msgs);
            |ds| == |msgs| && forall i :: 0 <= i < |ds| ==> Some(ds[i].payload) == Outgoing(name, msgs[i])
    decreases |msgs|
  {
    if |msgs| > 0 {
      DispatchPayloads(reg, sock, name, msgs[1..]);
    }
  }

  /** The lines a run of messages from `name` puts on the wire, in order, whoever receives them:
      one per message that is not a malformed command. */
  function Lines(name: string, msgs: seq<string>): seq<string> {
    if |msgs| == 0 then []
    else
      OneLine(name, msgs[0]) + Lines(name, msgs[1..])
  }

  /** The broadcasts of a run of messages are exactly its lines, each sent once to the other
      clients, in order; malformed commands anywhere in the run are skipped. */
  lemma {:induction false} DispatchLines(reg: Registry, sock: int, name: string, msgs: seq<string>)
    ensures var ds := Dispatch(reg, sock, name, msgs);
            var ls := Lines(name, msgs);
            |ds| == |ls| && forall i :: 0 <= i < |ds| ==> ds[i] == Broadcast(reg, ls[i], sock)
    decreases |msgs|
  {
    if |msgs| > 0 {
      var rest := msgs[1..];
      DispatchLines(reg, sock, name, rest);
      var first := Sent(reg, sock, name, msgs[0]);
      var line := OneLine(name, msgs[0]);
      SentLine(reg, sock, name, msgs[0]);
      var ds := Dispatch(reg, sock, name, msgs);
      var ls := Lines(name, msgs);
      assert ds == first + Dispatch(reg, sock, name, rest);
      assert ls == line + Lines(name, rest);
      forall i | 0 <= i < |ds|
        ensures ds[i] == Broadcast(reg, ls[i], sock)
      {
        if i < |first| {
          assert ds[i] == first[i] && ls[i] == line[i];
        } else {
          assert ds[i] == Dispatch(reg, sock, name, rest)[i - |first|];
          assert ls[i] == Lines(name, rest)[i - |first|];
        }
      }
    }
  }

  /** The line of one message: none for a malformed command. */
  function OneLine(name: string, message: string): seq<string> {
    match Outgoing(name, message)
    case None => []
    case Some(p) => [p]
  }

  /** One message's broadcast carries its line, if it has one. */
  lemma SentLine(reg: Registry, sock: int, name: string, message: string)
    ensures var first := Sent(reg, sock, name, message);
            var line := OneLine(name, message);
            |first| == |line| && forall i :: 0 <= i < |first| ==> first[i] == Broadcast(reg, line[i], sock)
  {
  }

  /** Messages are broadcast in the order they were read. */
  lemma {:induction false} DispatchAppend(reg: Registry, sock: int, name: string, a: seq<string>, b: seq<string>)
    ensures Dispatch(reg, sock, name, a + b) == Dispatch(reg, sock, name, a) + Dispatch(reg, sock, name, b)
    decreases |a|
  {
    if |a| == 0 {
      assert a + b == b;
    } else {
      assert (a + b)[0] == a[0];
      assert (a + b)[1..] == a[1..] + b;
      DispatchAppend(reg, sock, name, a[1..], b);
    }
  }

  /** `handleClient` for socket `sock`, starting from registry `reg`, fed the results `received`. */
  function Session(reg: Registry, sock: int, received: seq<RecvResult>): (o: SessionResult)
    requires AllFit(received)
    ensures o.username.None? <==> |received| == 0 || ValRead(received[0]) <= 0
    ensures o.username.None? ==> o.trace == [] && o.registry == reg
    ensures o.username.Some? ==> |o.username.value| <= MaxRead && Nul !in o.username.value
    ensures o.username.Some? ==> o.registry == Deregister(reg, sock)
    ensures o.username.Some? ==> |o.trace| >= 3 && o.trace[0].targets == [sock]
    ensures forall i :: 1 <= i < |o.trace| ==> o.trace[i].targets == Without(reg.clients, sock)
  {
    if |received| == 0 || ValRead(received[0]) <= 0 then
      SessionResult([], reg, None)
    else
      var name := ReadString(received[0].bytes);
      DeregisterAfterRegister(reg, sock, name);
      SessionResult(Chatting(reg, sock, name, received[1..]), Deregister(Register(reg, sock, name), sock), Some(name))
  }

  /** Everything sent once the handshake read gave the name `name`: the welcome, the join
      notice, the message loop over `rest`, and the leave notice after deregistration. */
  function Chatting(reg: Registry, sock: int, name: string, rest: seq<RecvResult>): (trace: seq<Delivery>)
    requires AllFit(rest)
    ensures |trace| >= 3 && trace[0].targets == [sock]
    ensures trace[0].payload == "Welcome, " + name + "!\n"
    ensures trace[1].payload == name + " has joined the chat.\n"
    ensures trace[|trace| - 1].payload == name + " has left the chat.\n"
    ensures forall i :: 1 <= i < |trace| ==> trace[i].targets == Without(reg.clients, sock)
  {
    var joined := Register(reg, sock, name);
    var welcome := Delivery([sock], Welcome(name));
    var join := Broadcast(joined, JoinNotice(name), sock);
    var chat := Dispatch(joined, sock, name, Messages(rest));
    var left := Deregister(joined, sock);
    var leave := Broadcast(left, LeaveNotice(name), sock);
    SessionAudience(reg, sock, name);
    FramedTargets(welcome, join, chat, leave, Without(reg.clients, sock));
    [welcome, join] + chat + [leave]
  }

  /** A trace framed by a join and a leave notice starts with its first entry and the join,
      ends with the leave, and reaches `peers` after its first entry when each of its parts does. */
  lemma FramedTargets(first: Delivery, join: Delivery, chat: seq<Delivery>, leave: Delivery, peers: seq<int>)
    requires join.targets == peers && leave.targets == peers
    requires forall i :: 0 <= i < |chat| ==> chat[i].targets == peers
    ensures var trace := [first, join] + chat + [leave];
            && |trace| >= 3 && trace[0] == first && trace[1] == join && trace[|trace| - 1] == leave
            && forall i :: 1 <= i < |trace| ==> trace[i].targets == peers
  {
    var trace := [first, join] + chat + [leave];
    forall i | 1 <= i < |trace|
      ensures trace[i].targets == peers
    {
      if 2 <= i < |trace| - 1 {
        assert trace[i] == chat[i - 2];
      }
    }
  }

  /** Registering the socket does not change who else hears it, and neither does removing it
      again before the leave notice. */
  lemma SessionAudience(reg: Registry, sock: int, name: string)
    ensures Without(Register(reg, sock, name).clients, sock) == Without(reg.clients, sock)
    ensures Without(Deregister(Register(reg, sock, name), sock).clients, sock) == Without(reg.clients, sock)
  {
    WithoutSnoc(reg.clients, sock, sock);
    WithoutIdempotent(reg.clients, sock);
  }

  /** The whole trace of a session that completed its handshake: the welcome to the new socket
      alone, the join notice to the others, the message broadcasts in read order, and, after
      deregistration, the leave notice to the same others. */
  lemma SessionTrace(reg: Registry, sock: int, received: seq<RecvResult>)
    requires AllFit(received)
    requires |received| > 0 && ValRead(received[0]) > 0
    ensures var o := Session(reg, sock, received);
            var name := ReadString(received[0].bytes);
            var peers := Without(reg.clients, sock);
            && o.username == Some(name)
            && o.trace[0] == Delivery([sock], "Welcome, " + name + "!\n")
            && o.trace[1] == Delivery(peers, name + " has joined the chat.\n")
            && o.trace[2..|o.trace| - 1] == Dispatch(reg, sock, name, Messages(received[1..]))
            && o.trace[|o.trace| - 1] == Delivery(peers, name + " has left the chat.\n")
            && o.registry == Deregister(reg, sock)
  {
    var name := ReadString(received[0].bytes);
    DeregisterAfterRegister(reg, sock, name);
    DispatchSameAudience(reg, Register(reg, sock, name), sock, name, Messages(received[1..]));
  }

  /** Broadcasts only depend on the registry through the recipients it yields. */
  lemma {:induction false} DispatchSameAudience(r1: Registry, r2: Registry, sock: int, name: string, msgs: seq<string>)
    requires Without(r1.clients, sock) == Without(r2.clients, sock)
    ensures Dispatch(r1, sock, name, msgs) == Dispatch(r2, sock, name, msgs)
    decreases |msgs|
  {
    if |msgs| > 0 {
      DispatchSameAudience(r1, r2, sock, name, msgs[1..]);
    }
  }

  /** A socket that was not registered before its session is not registered after it, and
      the registry is back where it started. */
  lemma SessionRestoresRegistry(reg: Registry, sock: int, received: seq<RecvResult>)
    requires AllFit(received)
    requires sock !in reg.clients && sock !in reg.names
    ensures Session(reg, sock, received).registry == reg
  {
    DeregisterAbsent(reg, sock);
  }

  /** A session keeps the registry's list and map in agreement. */
  lemma SessionKeepsConsistent(reg: Registry, sock: int, received: seq<RecvResult>)
    requires AllFit(received)
    requires Consistent(reg)
    ensures Consistent(Session(reg, sock, received).registry)
  {
    if |received| > 0 && ValRead(received[0]) > 0 {
      SessionTrace(reg, sock, received);
    }
  }

}
