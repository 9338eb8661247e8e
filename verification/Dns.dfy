/** The sockets of the DNS resolver (src/network/dns.cc): entries are kept as long as something
    refers to them. Each method is a call from the resolver library, or a continuation that runs. */
module Dns {

  datatype Type = Tcp | Udp

  /** An entry of the socket table; `id` tells entries apart that come to have the same number. */
  datatype Entry = Entry(typ: Type, canRead: bool, canWrite: bool, pending: int, closed: bool, id: nat)

  type Sockets = map<nat, Entry>

  datatype Kind = Connecting | Reading | Writing | Closing

  /** A continuation that has not come to its end: it refers to the entry that had the number fd
      when it began. */
  datatype Operation = Operation(fd: nat, id: nat, kind: Kind)

  /** The part of the gate count that an entry accounts for. */
  function Share(e: Entry): int {
    e.pending + if e.closed then 1 else 0
  }

  ghost function GateSum(sockets: Sockets): int
    decreases |sockets|
  {
    if sockets == map[] then 0
    else
      var fd :| fd in sockets;
      Share(sockets[fd]) + GateSum(sockets - {fd})
  }

  lemma {:induction false} GateSumAt(sockets: Sockets, fd: nat)
    requires fd in sockets
    ensures GateSum(sockets) == Share(sockets[fd]) + GateSum(sockets - {fd})
    decreases |sockets|
  {
    var g :| g in sockets && GateSum(sockets) == Share(sockets[g]) + GateSum(sockets - {g});
    if g != fd {
      GateSumAt(sockets - {g}, fd);
      GateSumAt(sockets - {fd}, g);
      assert sockets - {g} - {fd} == sockets - {fd} - {g};
    }
  }

  lemma GateSumChanges(sockets: Sockets, fd: nat, e: Entry)
    ensures GateSum(sockets[fd := e]) == GateSum(sockets - {fd}) + Share(e)
    ensures fd in sockets ==> GateSum(sockets[fd := e]) == GateSum(sockets) - Share(sockets[fd]) + Share(e)
  {
    GateSumAt(sockets[fd := e], fd);
    assert sockets[fd := e] - {fd} == sockets - {fd};
    if fd in sockets {
      GateSumAt(sockets, fd);
    }
  }

  /** The operations that refer to an entry. */
  function References(ops: multiset<Operation>, fd: nat, id: nat): nat {
    ops[Operation(fd, id, Connecting)] + ops[Operation(fd, id, Reading)]
    + ops[Operation(fd, id, Writing)] + ops[Operation(fd, id, Closing)]
  }

  /** Each entry counts the operations that refer to it; a closed one counts one less. */
  ghost predicate Counted(sockets: Sockets, ops: multiset<Operation>) {
    forall fd :: fd in sockets ==> CountedAt(sockets[fd], fd, ops)
  }

  predicate CountedAt(e: Entry, fd: nat, ops: multiset<Operation>) {
    e.pending >= 0 && References(ops, fd, e.id) == Share(e)
  }

  /** Every operation refers to an entry that is still there. */
  ghost predicate Alive(sockets: Sockets, ops: multiset<Operation>) {
    forall op :: op in ops ==> RefersTo(sockets, op)
  }

  predicate RefersTo(sockets: Sockets, op: Operation) {
    op.fd in sockets && sockets[op.fd].id == op.id
  }

  class Resolver {
    var sockets: Sockets
    var gate: int
    var closed: bool
    var nextId: nat
    ghost var ops: multiset<Operation>

    constructor ()
      ensures Valid() && sockets == map[] && ops == multiset{} && gate == 0 && !closed
    {
      sockets, gate, closed, nextId, ops := map[], 0, false, 0, multiset{};
    }

    ghost predicate Valid()
      reads this
    {
      Counted(sockets, ops) && Alive(sockets, ops) && gate == GateSum(sockets)
    }

    method Use(fd: nat)
      requires fd in sockets
      modifies this`gate, this`sockets
      ensures gate == old(gate) + 1
      ensures sockets == Used(old(sockets), fd)
    {
      gate := gate + 1;
      sockets := sockets[fd := sockets[fd].(pending := sockets[fd].pending + 1)];
    }

    method Release(fd: nat)
      requires fd in sockets
      modifies this`gate, this`sockets
      ensures gate == old(gate) - 1
      ensures sockets == Released(old(sockets), fd)
    {
      var e := sockets[fd].(pending := sockets[fd].pending - 1);
      if e.pending < 0 {
        sockets := sockets - {fd};
      } else {
        sockets := sockets[fd := e];
      }
      gate := gate - 1;
    }

    /** The first number above that of entries that no entry has. */
    method NextFd() returns (fd: nat)
      ensures fd !in sockets && fd > |sockets| && forall g :: |sockets| < g < fd ==> g in sockets
    {
      fd := |sockets| + 1;
      ghost var rest := sockets.Keys;
      while fd in sockets
        invariant fd > |sockets| && forall g :: g in sockets && g >= fd ==> g in rest
        invariant forall g :: |sockets| < g < fd ==> g in sockets
        decreases |rest|
      {
        rest := rest - {fd};
        fd := fd + 1;
      }
    }

    method DoSocket(typ: Type) returns (fd: int)
      requires Valid()
      modifies this
      ensures Valid() && ops == old(ops) && gate == old(gate) && closed == old(closed)
      ensures old(closed) ==> fd == -1 && unchanged(this)
      ensures !old(closed) ==> fd > 0 && fd !in old(sockets) && fd in sockets && !sockets[fd].closed
      ensures !old(closed) ==> sockets == old(sockets)[fd := Entry(typ, false, false, 0, false, old(nextId))]
    {
      if closed {
        return -1;
      }
      fd := NextFd();
      var e := Entry(typ, false, false, 0, false, nextId);
      SocketAdded(sockets, ops, fd, e);
      sockets := sockets[fd := e];
      nextId := nextId + 1;
    }

    /** An operation on an entry begins, and its continuation will refer to the entry. */
    method Begin(fd: nat, kind: Kind, e: Entry)
      requires Valid() && fd in sockets && kind != Closing && SameBooks(e, sockets[fd])
      modifies this`gate, this`sockets, this`ops
      ensures Valid() && ops == old(ops) + multiset{Operation(fd, e.id, kind)} && gate == old(gate) + 1
      ensures sockets == Used(old(sockets)[fd := e], fd)
    {
      Began(sockets, ops, fd, e, kind);
      UsedAfter(sockets, fd, e);
      ops := ops + multiset{Operation(fd, e.id, kind)};
      sockets := sockets[fd := e];
      Use(fd);
    }

    method SetFlags(fd: nat, e: Entry)
      requires Valid() && fd in sockets && SameBooks(e, sockets[fd])
      modifies this`sockets
      ensures Valid() && sockets == old(sockets)[fd := e]
    {
      GateSumChanges(sockets, fd, e);
      sockets := sockets[fd := e];
    }

    /** A connection, which is there at once or will be, to an address that is understood or not. */
    method DoConnect(fd: nat, understood: bool, connection: Future) returns (r: Reply)
      requires Valid() && (fd in sockets ==> !sockets[fd].canRead && !sockets[fd].canWrite)
      modifies this
      ensures Valid() && closed == old(closed)
      ensures !OpenIn(closed, old(sockets), fd) || !understood ==> r == Error && unchanged(this)
      ensures OpenIn(closed, old(sockets), fd) && understood ==>
        var e := old(sockets[fd]);
        if e.typ == Tcp && connection == Pending
        then r == WouldBlock && ops == old(ops) + multiset{Operation(fd, e.id, Connecting)}
             && sockets == Used(old(sockets), fd)
        else r == (if e.typ == Tcp && connection == Fails then Error else Done) && ops == old(ops)
             && sockets == old(sockets)[fd := e.(canRead := true, canWrite := true)]
    {
      if closed || fd !in sockets || sockets[fd].closed || !understood {
        return Error;
      }
      if sockets[fd].typ == Tcp && connection == Pending {
        SameEntry(sockets, fd);
        Begin(fd, Connecting, sockets[fd]);
        return WouldBlock;
      }
      var failed := sockets[fd].typ == Tcp && connection == Fails;
      SetFlags(fd, sockets[fd].(canRead := true, canWrite := true));
      r := if failed then Error else Done;
    }

    /** A read: what is there, or an error, or else it waits, but not twice. At the end of a TCP stream every
        read is available and gives nothing, and the loop reads again without end. */
    method DoRecvfrom(fd: nat, data: Data) returns (r: Reply)
      requires Valid()
      modifies this
      ensures Valid() && closed == old(closed)
      ensures !OpenIn(closed, old(sockets), fd) ==> r == Error && unchanged(this)
      ensures OpenIn(closed, old(sockets), fd) ==>
        var e := old(sockets[fd]);
        if !e.canRead then r == WouldBlock && unchanged(this)
        else if data == Nothing && e.typ == Tcp then r == NoReturn && unchanged(this)
        else if data != NotYet then r == (if data == Failed then Error else Done) && unchanged(this)
        else r == WouldBlock && sockets == Used(old(sockets)[fd := e.(canRead := false)], fd)
             && ops == old(ops) + multiset{Operation(fd, e.id, Reading)}
    {
      if closed || fd !in sockets || sockets[fd].closed {
        return Error;
      }
      if !sockets[fd].canRead {
        return WouldBlock;
      }
      if data == Nothing && sockets[fd].typ == Tcp {
        return NoReturn;
      }
      if data != NotYet {
        return if data == Failed then Error else Done;
      }
      Begin(fd, Reading, sockets[fd].(canRead := false));
      r := WouldBlock;
    }

    /** A write, which is taken to succeed unless it fails at once. It is made on a closed entry as
        well. */
    method DoSendv(fd: nat, sent: Future) returns (r: Reply)
      requires Valid()
      modifies this
      ensures Valid() && closed == old(closed)
      ensures closed || fd !in old(sockets) ==> r == Error && unchanged(this)
      ensures !closed && fd in old(sockets) ==>
        var e := old(sockets[fd]);
        if e.typ == Tcp && !e.canWrite then r == WouldBlock && unchanged(this)
        else if sent != Pending then r == (if sent == Fails then Error else Done) && unchanged(this)
        else r == Done && sockets == Used(old(sockets)[fd := e.(canWrite := false)], fd)
             && ops == old(ops) + multiset{Operation(fd, e.id, Writing)}
    {
      if closed || fd !in sockets {
        return Error;
      }
      if sockets[fd].typ == Tcp && !sockets[fd].canWrite {
        return WouldBlock;
      }
      if sent != Pending {
        return if sent == Fails then Error else Done;
      }
      Begin(fd, Writing, sockets[fd].(canWrite := false));
      r := Done;
    }

    /** A continuation runs: first it uses the entry, which is there, and is the one it refers to. A
        read of a datagram that fails does not set the flag. */
    method Wake(op: Operation, succeeds: bool)
      requires Valid() && op in ops
      modifies this`sockets
      ensures Valid() && old(RefersTo(sockets, op)) && op.fd in sockets
      ensures var e := old(sockets[op.fd]);
              var e' := sockets[op.fd];
              && sockets == old(sockets)[op.fd := e'] && e' == e.(canRead := e'.canRead, canWrite := e'.canWrite)
              && (e'.canRead <==>
                    e.canRead || op.kind == Connecting || (op.kind == Reading && (e.typ == Tcp || succeeds)))
              && (e'.canWrite <==> e.canWrite || op.kind == Connecting || op.kind == Writing)
    {
      assert RefersTo(sockets, op);
      var e := sockets[op.fd];
      match op.kind
      case Connecting => SetFlags(op.fd, e.(canRead := true, canWrite := true));
      case Reading => SetFlags(op.fd, e.(canRead := e.canRead || e.typ == Tcp || succeeds));
      case Writing => SetFlags(op.fd, e.(canWrite := true));
      case Closing => SetFlags(op.fd, e);
    }

    /** Other calls may follow, until the continuation releases the entry: the entry goes when it is
        closed and nothing else refers to it, and only then. */
    method Finish(op: Operation)
      requires Valid() && op in ops
      modifies this`gate, this`sockets, this`ops
      ensures Valid() && ops == old(ops) - multiset{op} && gate == old(gate) - 1
      ensures old(RefersTo(sockets, op)) && sockets == Released(old(sockets), op.fd)
      ensures op.fd !in sockets <==> old(sockets[op.fd]).closed && References(ops, op.fd, op.id) == 0
    {
      assert RefersTo(sockets, op);
      Ended(sockets, ops, op);
      Release(op.fd);
      ops := ops - multiset{op};
    }

    /** Closes a socket. For TCP the entry is released when the output is closed, for UDP at once. */
    method DoClose(fd: nat) returns (found: bool)
      requires Valid()
      modifies this`gate, this`sockets, this`ops
      ensures Valid() && (found <==> fd in old(sockets))
      ensures !found || old(sockets[fd]).closed ==> unchanged(this)
      ensures found && !old(sockets[fd]).closed ==>
        var op := Operation(fd, old(sockets[fd]).id, Closing);
        && ops == (if old(sockets[fd]).typ == Tcp then old(ops) + multiset{op} else old(ops))
        && sockets == (if old(sockets[fd]).typ == Tcp then Marked(old(sockets), fd)
                       else Released(Marked(old(sockets), fd), fd))
        && (fd !in sockets <==> References(ops, fd, op.id) == 0)
    {
      if fd !in sockets {
        return false;
      }
      found := true;
      if sockets[fd].closed {
        return;
      }
      var op := Operation(fd, sockets[fd].id, Closing);
      MoreReferences(ops, fd, op.id, Closing);
      Mark(fd);
      if sockets[fd].typ == Udp {
        Restored(old(ops), op);
        Finish(op);
      }
    }

    /** Closes the resolver: all the sockets that there are, one after the other. */
    method Close()
      requires Valid()
      modifies this
      ensures Valid() && closed && AllClosed(sockets) && sockets.Keys <= old(sockets.Keys)
    {
      closed := true;
      var rest := sockets.Keys;
      while rest != {}
        invariant Valid() && closed && rest <= sockets.Keys <= old(sockets.Keys)
        invariant forall fd :: fd in sockets && fd !in rest ==> sockets[fd].closed
        decreases |rest|
      {
        var fd :| fd in rest;
        ghost var before := sockets;
        var found := DoClose(fd);
        OneClosed(before, sockets, fd);
        rest := rest - {fd};
      }
    }

    /** When everything is closed and every continuation has come to its end, no socket is left, and
        the gate can close. */
    lemma Drained()
      requires Valid() && AllClosed(sockets) && ops == multiset{}
      ensures sockets == map[] && gate == 0
    {
      NoneClosed(sockets);
      assert sockets.Keys == {};
    }

    /** Marks an entry as closed, which is a reference to it. */
    method Mark(fd: nat)
      requires Valid() && fd in sockets && !sockets[fd].closed
      modifies this`gate, this`sockets, this`ops
      ensures Valid() && sockets == Marked(old(sockets), fd)
      ensures ops == old(ops) + multiset{Operation(fd, old(sockets[fd]).id, Closing)}
    {
      Closed(sockets, ops, fd);
      ops := ops + multiset{Operation(fd, sockets[fd].id, Closing)};
      sockets := sockets[fd := sockets[fd].(closed := true)];
      gate := gate + 1;
    }
  }

  lemma Restored(ops: multiset<Operation>, op: Operation)
    ensures ops + multiset{op} - multiset{op} == ops
  {
  }

  function Marked(sockets: Sockets, fd: nat): Sockets
    requires fd in sockets
  {
    sockets[fd := sockets[fd].(closed := true)]
  }

  function Used(sockets: Sockets, fd: nat): Sockets
    requires fd in sockets
  {
    sockets[fd := sockets[fd].(pending := sockets[fd].pending + 1)]
  }

  lemma SameEntry(sockets: Sockets, fd: nat)
    requires fd in sockets
    ensures sockets[fd := sockets[fd]] == sockets
  {
  }

  lemma UsedAfter(sockets: Sockets, fd: nat, e: Entry)
    ensures Used(sockets[fd := e], fd) == sockets[fd := e.(pending := e.pending + 1)]
  {
  }

  /** A release counts one reference less and changes nothing else of the entry, or the entry goes. */
  lemma ReleasedAfter(sockets: Sockets, fd: nat, e: Entry)
    ensures Released(sockets[fd := e], fd)
            == if e.pending <= 0 then sockets - {fd} else sockets[fd := e.(pending := e.pending - 1)]
  {
  }

  /** Closing changes nothing of the entry but that it is closed. */
  lemma MarkedAfter(sockets: Sockets, fd: nat, e: Entry)
    ensures Marked(sockets[fd := e], fd) == sockets[fd := e.(closed := true)]
  {
  }

  /** A closed entry to which nothing refers would be gone. */
  lemma NoneClosed(sockets: Sockets)
    requires Counted(sockets, multiset{})
    ensures forall fd :: fd in sockets ==> !sockets[fd].closed
  {
    forall fd | fd in sockets ensures !sockets[fd].closed {
      assert CountedAt(sockets[fd], fd, multiset{});
    }
  }

  /** Closing one socket leaves the others. */
  lemma OneClosed(sockets: Sockets, sockets': Sockets, fd: nat)
    requires fd in sockets
    requires (sockets' == sockets && sockets[fd].closed) || sockets' == Marked(sockets, fd)
             || sockets' == Released(Marked(sockets, fd), fd)
    ensures sockets.Keys - {fd} <= sockets'.Keys <= sockets.Keys
    ensures forall g :: g in sockets' ==> if g == fd then sockets'[g].closed else sockets'[g] == sockets[g]
  {
  }

  lemma SocketAdded(sockets: Sockets, ops: multiset<Operation>, fd: nat, e: Entry)
    requires Counted(sockets, ops) && Alive(sockets, ops) && fd !in sockets && e.pending == 0 && !e.closed
    ensures Counted(sockets[fd := e], ops) && Alive(sockets[fd := e], ops)
    ensures GateSum(sockets[fd := e]) == GateSum(sockets)
  {
    NoReferences(sockets, ops, fd, e.id);
    GateSumChanges(sockets, fd, e);
    assert sockets - {fd} == sockets;
    var sockets' := sockets[fd := e];
    forall g | g in sockets' ensures CountedAt(sockets'[g], g, ops) {
      assert g != fd ==> CountedAt(sockets[g], g, ops);
    }
    forall op | op in ops ensures RefersTo(sockets', op) {
      assert RefersTo(sockets, op);
    }
  }

  predicate AllClosed(sockets: Sockets) {
    forall fd :: fd in sockets ==> sockets[fd].closed
  }

  /** What a call returns, unless it does not. */
  datatype Reply = Done | WouldBlock | Error | NoReturn

  /** What a read comes to at once. Nothing: the end of a TCP stream, or an empty datagram. */
  datatype Data = NotYet | Arrived | Nothing | Failed

  /** What a call of the network stack comes to at once. */
  datatype Future = Pending | Succeeds | Fails

  /** The resolver and the entry are open. */
  predicate OpenIn(closed: bool, sockets: Sockets, fd: nat) {
    !closed && fd in sockets && !sockets[fd].closed
  }

  /** Entries that differ at most in whether they can be read and written. */
  predicate SameBooks(e: Entry, f: Entry) {
    e.typ == f.typ && e.pending == f.pending && e.closed == f.closed && e.id == f.id
  }

  /** Only operations on fd differ. */
  ghost predicate OnlyAt(fd: nat, ops: multiset<Operation>, ops': multiset<Operation>) {
    forall op: Operation :: op.fd != fd ==> ops[op] == ops'[op]
  }

  /** One entry changes, along with the operations on it. */
  lemma EntryChanges(sockets: Sockets, ops: multiset<Operation>, fd: nat, e: Entry, ops': multiset<Operation>)
    requires Counted(sockets, ops) && Alive(sockets, ops) && fd in sockets && OnlyAt(fd, ops, ops')
    requires CountedAt(e, fd, ops') && forall op :: op in ops' && op.fd == fd ==> op.id == e.id
    ensures Counted(sockets[fd := e], ops') && Alive(sockets[fd := e], ops')
  {
    var sockets' := sockets[fd := e];
    forall g | g in sockets' ensures CountedAt(sockets'[g], g, ops') {
      if g != fd {
        assert CountedAt(sockets[g], g, ops);
        SameReferences(ops, ops', g, sockets[g].id, fd);
      }
    }
    forall op | op in ops' ensures RefersTo(sockets', op) {
      if op.fd != fd {
        assert op in ops && RefersTo(sockets, op);
      }
    }
  }

  /** One entry goes, when no operation refers to it any more. */
  lemma EntryGoes(sockets: Sockets, ops: multiset<Operation>, fd: nat, ops': multiset<Operation>)
    requires Counted(sockets, ops) && Alive(sockets, ops) && fd in sockets && OnlyAt(fd, ops, ops')
    requires forall op :: op in ops' ==> op.fd != fd
    ensures Counted(sockets - {fd}, ops') && Alive(sockets - {fd}, ops')
  {
    var sockets' := sockets - {fd};
    forall g | g in sockets' ensures CountedAt(sockets'[g], g, ops') {
      assert CountedAt(sockets[g], g, ops);
      SameReferences(ops, ops', g, sockets[g].id, fd);
    }
    forall op | op in ops' ensures RefersTo(sockets', op) {
      assert op in ops && RefersTo(sockets, op);
    }
  }

  lemma SameReferences(ops: multiset<Operation>, ops': multiset<Operation>, g: nat, id: nat, fd: nat)
    requires OnlyAt(fd, ops, ops') && g != fd
    ensures References(ops, g, id) == References(ops', g, id)
  {
  }

  /** All operations on an entry are counted. */
  lemma NotReferred(sockets: Sockets, ops: multiset<Operation>, fd: nat, op: Operation)
    requires Alive(sockets, ops) && fd in sockets && op in ops && op.fd == fd
    ensures op.id == sockets[fd].id && References(ops, fd, op.id) > 0
  {
    assert RefersTo(sockets, op);
    match op.kind
    case Connecting => assert op == Operation(fd, op.id, Connecting);
    case Reading => assert op == Operation(fd, op.id, Reading);
    case Writing => assert op == Operation(fd, op.id, Writing);
    case Closing => assert op == Operation(fd, op.id, Closing);
  }

  lemma Began(sockets: Sockets, ops: multiset<Operation>, fd: nat, e: Entry, kind: Kind)
    requires Counted(sockets, ops) && Alive(sockets, ops) && fd in sockets && SameBooks(e, sockets[fd])
    ensures var sockets' := sockets[fd := e.(pending := e.pending + 1)];
            var ops' := ops + multiset{Operation(fd, e.id, kind)};
            Counted(sockets', ops') && Alive(sockets', ops') && GateSum(sockets') == GateSum(sockets) + 1
  {
    var e' := e.(pending := e.pending + 1);
    var ops' := ops + multiset{Operation(fd, e.id, kind)};
    GateSumChanges(sockets, fd, e');
    assert CountedAt(sockets[fd], fd, ops);
    MoreReferences(ops, fd, e.id, kind);
    forall op | op in ops' && op.fd == fd ensures op.id == e.id {
      if op in ops {
        assert RefersTo(sockets, op);
      }
    }
    EntryChanges(sockets, ops, fd, e', ops');
  }

  lemma MoreReferences(ops: multiset<Operation>, fd: nat, id: nat, kind: Kind)
    ensures References(ops + multiset{Operation(fd, id, kind)}, fd, id) == References(ops, fd, id) + 1
  {
  }

  /** What the release of an entry leaves. */
  function Released(sockets: Sockets, fd: nat): Sockets
    requires fd in sockets
  {
    var e := sockets[fd].(pending := sockets[fd].pending - 1);
    if e.pending < 0 then sockets - {fd} else sockets[fd := e]
  }

  lemma Ended(sockets: Sockets, ops: multiset<Operation>, op: Operation)
    requires Counted(sockets, ops) && Alive(sockets, ops) && op in ops && RefersTo(sockets, op)
    ensures var sockets', ops' := Released(sockets, op.fd), ops - multiset{op};
            && Counted(sockets', ops') && Alive(sockets', ops') && GateSum(sockets') == GateSum(sockets) - 1
            && (op.fd !in sockets' <==> sockets[op.fd].closed && References(ops', op.fd, op.id) == 0)
  {
    var e, ops' := sockets[op.fd], ops - multiset{op};
    assert CountedAt(e, op.fd, ops);
    assert ops' + multiset{op} == ops;
    MoreReferences(ops', op.fd, op.id, op.kind);
    assert ops' + multiset{Operation(op.fd, op.id, op.kind)} == ops;
    ReleasedKeeps(sockets, ops, op.fd, ops');
  }

  /** One reference to an entry less. */
  lemma ReleasedKeeps(sockets: Sockets, ops: multiset<Operation>, fd: nat, ops': multiset<Operation>)
    requires Counted(sockets, ops) && Alive(sockets, ops) && fd in sockets && OnlyAt(fd, ops, ops') && ops' <= ops
    requires References(ops', fd, sockets[fd].id) == Share(sockets[fd]) - 1
    ensures Counted(Released(sockets, fd), ops') && Alive(Released(sockets, fd), ops')
    ensures GateSum(Released(sockets, fd)) == GateSum(sockets) - 1
    ensures fd !in Released(sockets, fd) <==> sockets[fd].pending == 0
  {
    var e := sockets[fd].(pending := sockets[fd].pending - 1);
    assert CountedAt(sockets[fd], fd, ops);
    forall op | op in ops' && op.fd == fd ensures op.id == e.id && References(ops', fd, e.id) > 0 {
      NotReferred(sockets, ops, fd, op);
      NotReferred(sockets, ops', fd, op);
    }
    GateSumAt(sockets, fd);
    if e.pending < 0 {
      EntryGoes(sockets, ops, fd, ops');
    } else {
      GateSumChanges(sockets, fd, e);
      EntryChanges(sockets, ops, fd, e, ops');
    }
  }

  lemma Closed(sockets: Sockets, ops: multiset<Operation>, fd: nat)
    requires Counted(sockets, ops) && Alive(sockets, ops) && fd in sockets && !sockets[fd].closed
    ensures var sockets' := sockets[fd := sockets[fd].(closed := true)];
            var ops' := ops + multiset{Operation(fd, sockets[fd].id, Closing)};
            && GateSum(sockets') == GateSum(sockets) + 1
            && Counted(sockets', ops') && Alive(sockets', ops')
            && References(ops, fd, sockets[fd].id) == sockets[fd].pending
  {
    var e := sockets[fd].(closed := true);
    var ops' := ops + multiset{Operation(fd, e.id, Closing)};
    assert CountedAt(sockets[fd], fd, ops);
    GateSumChanges(sockets, fd, e);
    MoreReferences(ops, fd, e.id, Closing);
    forall op | op in ops' && op.fd == fd ensures op.id == e.id {
      if op in ops {
        assert RefersTo(sockets, op);
      }
    }
    EntryChanges(sockets, ops, fd, e, ops');
  }

  lemma NoReferences(sockets: Sockets, ops: multiset<Operation>, fd: nat, id: nat)
    requires Alive(sockets, ops) && fd !in sockets
    ensures References(ops, fd, id) == 0
  {
    assert !RefersTo(sockets, Operation(fd, id, Connecting)) && !RefersTo(sockets, Operation(fd, id, Reading));
    assert !RefersTo(sockets, Operation(fd, id, Writing)) && !RefersTo(sockets, Operation(fd, id, Closing));
  }
}
