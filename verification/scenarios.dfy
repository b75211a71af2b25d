/** Concrete runs of the model, as the code behaves: a three-client chat, the `/msg` edge
    cases and an early close. */
module Scenarios {
  import opened Wrappers
  import opened CppString
  import opened ClientRegistry
  import opened MessageDispatch
  import opened ClientSession

  /** "/msg bob hello" from alice classifies as a command for "bob" and becomes a
      private-style line. */
  lemma PrivateCommandLine()
    ensures Classify("/msg bob hello") == Private("bob", "hello")
    ensures Outgoing("alice", "/msg bob hello") == Some("[Private from alice]: hello\n")
  {
    var m := MsgCommand + [' '] + "bob" + " " + "hello";
    assert "/msg bob hello" == m;
    assert Classify(m) == Private("bob", "hello") by {
      ClassifyPrivateRoundTrip(' ', "bob", "hello");
    }
    assert Outgoing("alice", m) == Some("[Private from " + "alice" + "]: " + "hello" + "\n") by {
      PrivatePayloadIgnoresRecipient("alice", ' ', "bob", "hello");
    }
    PrivateLineText();
  }

  /** The private-style line for alice's "hello", spelled out. */
  lemma PrivateLineText()
    ensures "[Private from " + "alice" + "]: " + "hello" + "\n" == "[Private from alice]: hello\n"
  {
  }

  /** "/msg bob hello" from alice reaches everyone but alice as a private-style line; "bob"
      only names the token that was skipped. */
  lemma PrivateCommandExample(reg: Registry, sock: int)
    ensures Classify("/msg bob hello") == Private("bob", "hello")
    ensures Outgoing("alice", "/msg bob hello") == Some("[Private from alice]: hello\n")
    ensures Dispatch(reg, sock, "alice", ["/msg bob hello"])
         == [Delivery(Without(reg.clients, sock), "[Private from alice]: hello\n")]
  {
    PrivateCommandLine();
    assert ["/msg bob hello"][1..] == [];
  }

  /** With bob (socket 2) and carol (socket 3) connected, alice's (socket 1) "/msg bob hello"
      reaches carol as well as bob. */
  lemma PrivateCommandReachesCarol(reg: Registry)
    requires reg == Registry([2, 3], map[2 := "bob", 3 := "carol"])
    ensures Dispatch(reg, 1, "alice", ["/msg bob hello"]) == [Delivery([2, 3], "[Private from alice]: hello\n")]
  {
    PrivateCommandExample(reg, 1);
    OthersOfAlice(reg);
  }

  /** Socket 1's peers in a registry holding bob (2) and carol (3). */
  lemma OthersOfAlice(reg: Registry)
    requires reg.clients == [2, 3]
    ensures Without(reg.clients, 1) == [2, 3]
  {
    var c := reg.clients;
    assert c[0] == 2 && c[1..] == [3];
    assert c[1..][0] == 3 && c[1..][1..] == [];
    assert Without(c[1..][1..], 1) == [];
    assert Without(c[1..], 1) == [3];
  }

  /** The fifth character is never checked: "/msgX a b" is a command with an empty recipient. */
  lemma UncheckedFifthCharacter()
    ensures Classify("/msgX a b") == Private("", "a b")
  {
    assert "/msgX a b" == MsgCommand + ['X'] + "" + " " + "a b";
    ClassifyPrivateRoundTrip('X', "", "a b");
  }

  /** "/msg hello" has no space at index 5 or later, so nothing is sent. */
  lemma CommandWithoutBodyDropped()
    ensures Outgoing("alice", "/msg hello") == None
  {
    assert StartsWithMsg("/msg hello");
    assert NoSpaceFrom5("/msg hello");
  }

  /** bob (socket 2) and carol (socket 3) are connected; alice (socket 1) joins, says "hi\n"
      and disconnects. The chat line keeps the client's own newline and gains another. */
  lemma AliceSaysHi(reg: Registry, received: seq<RecvResult>)
    requires reg == Registry([2, 3], map[2 := "bob", 3 := "carol"])
    requires received == [Received("alice"), Received("hi\n"), Received("")]
    ensures AllFit(received)
    ensures Session(reg, 1, received)
         == SessionResult(
              [ Delivery([1], "Welcome, " + "alice" + "!\n"),
                Delivery([2, 3], "alice" + " has joined the chat.\n"),
                Delivery([2, 3], "alice" + ": " + "hi\n" + "\n"),
                Delivery([2, 3], "alice" + " has left the chat.\n") ],
              Registry([2, 3], map[2 := "bob", 3 := "carol"]),
              Some("alice"))
  {
    AliceTrace(reg, received);
    var o := Session(reg, 1, received);
    assert o.trace == [o.trace[0], o.trace[1], o.trace[2], o.trace[3]];
  }

  /** The run above, entry by entry. */
  lemma AliceTrace(reg: Registry, received: seq<RecvResult>)
    requires reg == Registry([2, 3], map[2 := "bob", 3 := "carol"])
    requires received == [Received("alice"), Received("hi\n"), Received("")]
    ensures AllFit(received)
    ensures var o := Session(reg, 1, received);
            && o.registry == reg && o.username == Some("alice") && |o.trace| == 4
            && o.trace[0] == Delivery([1], "Welcome, " + "alice" + "!\n")
            && o.trace[1] == Delivery([2, 3], "alice" + " has joined the chat.\n")
            && o.trace[2] == Delivery([2, 3], "alice" + ": " + "hi\n" + "\n")
            && o.trace[3] == Delivery([2, 3], "alice" + " has left the chat.\n")
  {
    AliceFrame(reg, received);
    AliceMiddle(reg, received);
  }

  /** The registry, the name, and the welcome, join and leave entries of the run above. */
  lemma AliceFrame(reg: Registry, received: seq<RecvResult>)
    requires reg == Registry([2, 3], map[2 := "bob", 3 := "carol"])
    requires received == [Received("alice"), Received("hi\n"), Received("")]
    ensures AllFit(received)
    ensures var o := Session(reg, 1, received);
            && o.registry == reg && o.username == Some("alice") && |o.trace| >= 3
            && o.trace[0] == Delivery([1], "Welcome, " + "alice" + "!\n")
            && o.trace[1] == Delivery([2, 3], "alice" + " has joined the chat.\n")
            && o.trace[|o.trace| - 1] == Delivery([2, 3], "alice" + " has left the chat.\n")
  {
    assert AllFit(received);
    AliceName(received[0].bytes);
    OthersOfAlice(reg);
    SessionTrace(reg, 1, received);
    SessionRestoresRegistry(reg, 1, received);
  }

  /** The message part of the run above: one entry, alice's chat line. */
  lemma AliceMiddle(reg: Registry, received: seq<RecvResult>)
    requires reg == Registry([2, 3], map[2 := "bob", 3 := "carol"])
    requires received == [Received("alice"), Received("hi\n"), Received("")]
    ensures AllFit(received)
    ensures var o := Session(reg, 1, received);
            && |o.trace| == 4 && o.trace[2] == Delivery([2, 3], "alice" + ": " + "hi\n" + "\n")
  {
    assert AllFit(received);
    var o := Session(reg, 1, received);
    assert received[1..] == [Received("hi\n"), Received("")];
    AliceName(received[0].bytes);
    AliceChat(reg);
    SessionTrace(reg, 1, received);
    assert o.trace[2..|o.trace| - 1] == [Delivery([2, 3], "alice" + ": " + "hi\n" + "\n")];
  }

  /** The handshake read of the run above. */
  lemma AliceName(bytes: string)
    requires bytes == "alice"
    ensures |bytes| <= MaxRead && ReadString(bytes) == "alice"
  {
  }

  /** The message part of the run above: one read, one chat line to bob and carol. */
  lemma AliceChat(reg: Registry)
    requires reg == Registry([2, 3], map[2 := "bob", 3 := "carol"])
    ensures Without(reg.clients, 1) == [2, 3]
    ensures Messages([Received("hi\n"), Received("")]) == ["hi\n"]
    ensures Dispatch(reg, 1, "alice", ["hi\n"]) == [Delivery([2, 3], "alice" + ": " + "hi\n" + "\n")]
  {
    assert Without(reg.clients, 1) == [2, 3];
    var rest := [Received("hi\n"), Received("")];
    assert ReadString("hi\n") == "hi\n";
    assert Messages(rest) == ["hi\n"] by {
      assert rest[1..] == [Received("")];
    }
    assert !StartsWithMsg("hi\n");
    assert Outgoing("alice", "hi\n") == Some("alice" + ": " + "hi\n" + "\n");
    assert ["hi\n"][1..] == [];
  }

  /** A connection that closes before sending its name is never registered and hears nothing. */
  lemma EarlyClose(reg: Registry, sock: int)
    ensures Session(reg, sock, [Received("")]) == SessionResult([], reg, None)
    ensures Session(reg, sock, [SocketError, Received("late")]) == SessionResult([], reg, None)
  {
  }

}
