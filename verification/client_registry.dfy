/** The process-wide client registry of `server.cpp`: the `clients` vector of sockets and the
    `client_names` map from socket to display name. Each locked block of the source is one
    function here, so a registry value is always a state between two critical sections. */
module ClientRegistry {

  datatype Registry = Registry(clients: seq<int>, names: map<int, string>)

  /** `a` occurs in `b` in the same relative order, possibly with elements of `b` skipped. */
  ghost predicate Subseq(a: seq<int>, b: seq<int>)
    decreases |b|
  {
    || |a| == 0
    || (|b| > 0 && ((a[0] == b[0] && Subseq(a[1..], b[1..])) || Subseq(a, b[1..])))
  }

  /** The list without any occurrence of `x`, the others kept in order. This is both the
      erase-remove idiom that deregisters a socket and the filter `client_socket != sender_socket`
      that picks the recipients of a broadcast. */
  function Without(xs: seq<int>, x: int): (r: seq<int>)
    ensures forall y :: y in r <==> y in xs && y != x
  {
    if |xs| == 0 then []
    else if xs[0] == x then Without(xs[1..], x)
    else [xs[0]] + Without(xs[1..], x)
  }

  /** Every element other than `x` keeps its number of occurrences; `x` has none left. */
  lemma {:induction false} WithoutCounts(xs: seq<int>, x: int)
    ensures multiset(Without(xs, x)) == multiset(xs)[x := 0]
    decreases |xs|
  {
    if |xs| > 0 {
      WithoutCounts(xs[1..], x);
      assert xs == [xs[0]] + xs[1..];
    }
  }

  /** The elements that remain keep their relative order. */
  lemma {:induction false} WithoutKeepsOrder(xs: seq<int>, x: int)
    ensures Subseq(Without(xs, x), xs)
    decreases |xs|
  {
    if |xs| > 0 {
      WithoutKeepsOrder(xs[1..], x);
      var r := Without(xs, x);
      if xs[0] != x {
        assert r[0] == xs[0] && r[1..] == Without(xs[1..], x);
      }
    }
  }

  lemma {:induction false} WithoutAppend(a: seq<int>, b: seq<int>, x: int)
    ensures Without(a + b, x) == Without(a, x) + Without(b, x)
    decreases |a|
  {
    if |a| == 0 {
      assert a + b == b;
    } else {
      assert (a + b)[0] == a[0];
      assert (a + b)[1..] == a[1..] + b;
      WithoutAppend(a[1..], b, x);
    }
  }

  /** One more element at the end is kept exactly when it is not the removed one. */
  lemma WithoutSnoc(xs: seq<int>, y: int, x: int)
    ensures Without(xs + [y], x) == Without(xs, x) + (if y == x then [] else [y])
  {
    WithoutAppend(xs, [y], x);
    assert [y][1..] == [];
  }

  lemma {:induction false} WithoutAbsent(xs: seq<int>, x: int)
    requires x !in xs
    ensures Without(xs, x) == xs
    decreases |xs|
  {
    if |xs| > 0 {
      assert xs[0] != x;
      WithoutAbsent(xs[1..], x);
      assert xs == [xs[0]] + xs[1..];
    }
  }

  lemma WithoutIdempotent(xs: seq<int>, x: int)
    ensures Without(Without(xs, x), x) == Without(xs, x)
  {
    WithoutAbsent(Without(xs, x), x);
  }

  /** The loop of `broadcastMessage`: walk `clients` in order and keep every socket that is not
      the sender. */
  method SelectRecipients(clients: seq<int>, sender: int) returns (targets: seq<int>)
    ensures targets == Without(clients, sender)
    ensures forall t :: t in targets <==> t in clients && t != sender
  {
    targets := [];
    var i := 0;
    while i < |clients|
      invariant 0 <= i <= |clients|
      invariant targets == Without(clients[..i], sender)
    {
      var c := clients[i];
      WithoutSnoc(clients[..i], c, sender);
      assert clients[..i + 1] == clients[..i] + [c];
      if c != sender {
        targets := targets + [c];
      }
      i := i + 1;
    }
    assert clients[..i] == clients;
  }

  /** Every listed socket has a name and every named socket is listed. */
  predicate Consistent(reg: Registry) {
    && (forall s :: s in reg.clients ==> s in reg.names)
    && (forall s :: s in reg.names ==> s in reg.clients)
  }

  /** The first locked block of `handleClient`: `push_back` then `client_names[s] = name`.
      No check for a socket that is already present. */
  function Register(reg: Registry, sock: int, name: string): (r: Registry)
    ensures |r.clients| == |reg.clients| + 1
    ensures r.clients[..|reg.clients|] == reg.clients && r.clients[|reg.clients|] == sock
    ensures r.names.Keys == reg.names.Keys + {sock} && r.names[sock] == name
    ensures forall k :: k in reg.names && k != sock ==> r.names[k] == reg.names[k]
    ensures Consistent(reg) ==> Consistent(r)
  {
    Registry(reg.clients + [sock], reg.names[sock := name])
  }

  /** The last locked block of `handleClient`: erase-remove of the socket from `clients`
      and `client_names.erase(sock)`. */
  function Deregister(reg: Registry, sock: int): (r: Registry)
    ensures forall s :: s in r.clients <==> s in reg.clients && s != sock
    ensures multiset(r.clients) == multiset(reg.clients)[sock := 0]
    ensures Subseq(r.clients, reg.clients)
    ensures r.names.Keys == reg.names.Keys - {sock}
    ensures forall k :: k in r.names ==> r.names[k] == reg.names[k]
    ensures Consistent(reg) ==> Consistent(r)
  {
    WithoutCounts(reg.clients, sock);
    WithoutKeepsOrder(reg.clients, sock);
    Registry(Without(reg.clients, sock), reg.names - {sock})
  }

  /** Deregistering a socket that is not registered changes nothing. */
  lemma DeregisterAbsent(reg: Registry, sock: int)
    requires sock !in reg.clients && sock !in reg.names
    ensures Deregister(reg, sock) == reg
  {
    WithoutAbsent(reg.clients, sock);
    assert reg.names - {sock} == reg.names;
  }

  /** Teardown run twice leaves the registry as teardown run once. */
  lemma DeregisterIdempotent(reg: Registry, sock: int)
    ensures Deregister(Deregister(reg, sock), sock) == Deregister(reg, sock)
  {
    WithoutIdempotent(reg.clients, sock);
    assert reg.names - {sock} - {sock} == reg.names - {sock};
  }

  /** Deregistration undoes registration, whatever the socket had before. */
  lemma DeregisterAfterRegister(reg: Registry, sock: int, name: string)
    ensures Deregister(Register(reg, sock, name), sock) == Deregister(reg, sock)
  {
    WithoutAppend(reg.clients, [sock], sock);
    assert [sock][1..] == [];
    assert reg.names[sock := name] - {sock} == reg.names - {sock};
  }

  /** A socket that registers and then deregisters leaves the registry as it found it. */
  lemma RegisterDeregisterRoundTrip(reg: Registry, sock: int, name: string)
    requires sock !in reg.clients && sock !in reg.names
    ensures Deregister(Register(reg, sock, name), sock) == reg
  {
    DeregisterAfterRegister(reg, sock, name);
    DeregisterAbsent(reg, sock);
  }

}
