/**
 * The chat server: connection admission, the client registry it shares with
 * the application, the liveness sweep, and the routing of one received
 * envelope. Socket writes are appended to `writes` in the order the server
 * performs them.
 */
module Server {
  import opened Wrappers
  import opened Text
  import opened Messages
  import opened Users
  import opened Application

  /** One write to a client connection. */
  datatype Outgoing =
    | Deliver(target: Handle, response: ServerResponse)
    | Listing(target: Handle, names: seq<string>)

  /** The marker that opens (and, from the client, also closes) a registration request. */
  const RegistrationMarker := "<user>"

  predicate IsRegistrationRequest(message: string): (r: bool)
    ensures r <==> |message| >= 6 && message[..6] == "<user>"
  {
    StartsWith(message, RegistrationMarker)
  }

  /**
   * The user JSON carried by a registration read: the NUL-trimmed text with every
   * marker removed, or None when the text does not start with the marker.
   */
  function RegistrationPayload(raw: string): Option<string> {
    var message := TrimTrailingNul(raw);
    if IsRegistrationRequest(message) then Some(RemoveAll(message, RegistrationMarker)) else None
  }

  /**
   * What one registration attempt comes to. `Malformed` is a payload the
   * deserialiser rejects: the source lets that exception end the accept loop.
   */
  datatype Admission =
    | EmptyRead
    | NotRegistration
    | Malformed
    | AlreadyRegistered
    | Registered(user: UserRecord)

  /**
   * The decision `TryRegisterClient` takes, given whether the handle is already
   * registered: only a non-empty read of a marked payload that decodes can
   * register, with the user it decodes to, and never over an existing entry.
   */
  function Admit(size: nat, raw: string, decode: string -> Option<UserRecord>, present: bool): (r: Admission)
    ensures size == 0 <==> r == EmptyRead
    ensures r == NotRegistration <==> size != 0 && !StartsWith(TrimTrailingNul(raw), RegistrationMarker)
    ensures r.Registered? <==>
      && size != 0
      && StartsWith(TrimTrailingNul(raw), RegistrationMarker)
      && decode(RemoveAll(TrimTrailingNul(raw), RegistrationMarker)).Some?
      && !present
    ensures r.Registered? ==> decode(RemoveAll(TrimTrailingNul(raw), RegistrationMarker)) == Some(r.user)
    ensures r == Malformed <==>
      && size != 0
      && StartsWith(TrimTrailingNul(raw), RegistrationMarker)
      && decode(RemoveAll(TrimTrailingNul(raw), RegistrationMarker)).None?
    ensures r == AlreadyRegistered <==>
      && size != 0
      && StartsWith(TrimTrailingNul(raw), RegistrationMarker)
      && decode(RemoveAll(TrimTrailingNul(raw), RegistrationMarker)).Some?
      && present
  {
    if size == 0 then EmptyRead
    else
      match RegistrationPayload(raw)
      case None => NotRegistration
      case Some(json) =>
        match decode(json)
        case None => Malformed
        case Some(user) => if present then AlreadyRegistered else Registered(user)
  }

  /** The entries a group broadcast from `sender` reaches: every other id whose group equals the sender's. */
  function Members(users: seq<Entry>, sender: UserRecord): seq<Entry> {
    if users == [] then []
    else
      var last := users[|users| - 1];
      Members(users[..|users| - 1], sender)
        + (if last.user.id != sender.id && last.user.group == sender.group then [last] else [])
  }

  lemma MembersSnoc(init: seq<Entry>, x: Entry, sender: UserRecord)
    ensures Members(init + [x], sender)
         == Members(init, sender) + (if x.user.id != sender.id && x.user.group == sender.group then [x] else [])
  {
    assert (init + [x])[..|init|] == init;
  }


  /** The recipients of a broadcast are exactly the entries with another id and the sender's group. */
  lemma {:induction false} MembersExact(users: seq<Entry>, sender: UserRecord)
    ensures forall e :: e in Members(users, sender) <==>
      e in users && e.user.id != sender.id && e.user.group == sender.group
  {
    if users != [] {
      MembersExact(users[..|users| - 1], sender);
      assert users == users[..|users| - 1] + [users[|users| - 1]];
    }
  }

  function Handles(users: seq<Entry>): seq<Handle> {
    if users == [] then [] else Handles(users[..|users| - 1]) + [users[|users| - 1].handle]
  }

  lemma {:induction false} HandlesAt(users: seq<Entry>)
    ensures |Handles(users)| == |users|
    ensures forall i | 0 <= i < |users| :: Handles(users)[i] == users[i].handle
  {
    if users != [] {
      HandlesAt(users[..|users| - 1]);
    }
  }

  lemma HandlesSnoc(init: seq<Entry>, x: Entry)
    ensures Handles(init + [x]) == Handles(init) + [x.handle]
  {
    assert (init + [x])[..|init|] == init;
  }

  /** One step of the selection scan: the handles of members among the first i + 1 entries. */
  lemma SelectionStep(users: seq<Entry>, i: nat, sender: UserRecord)
    requires i < |users|
    ensures Handles(Members(users[..i + 1], sender))
         == Handles(Members(users[..i], sender))
            + (if users[i].user.id != sender.id && users[i].user.group == sender.group then [users[i].handle] else [])
  {
    assert users[..i + 1] == users[..i] + [users[i]];
    MembersSnoc(users[..i], users[i], sender);
    var before := Members(users[..i], sender);
    if users[i].user.id != sender.id && users[i].user.group == sender.group {
      HandlesSnoc(before, users[i]);
    } else {
      assert before + [] == before;
    }
  }

  /** The writes that hand `message`, unchanged, to each entry, tagged with that entry's own group. */
  function Deliveries(users: seq<Entry>, message: Message): seq<Outgoing> {
    if users == [] then []
    else
      var last := users[|users| - 1];
      Deliveries(users[..|users| - 1], message) + [Deliver(last.handle, ServerResponse(Status, message, last.user.group))]
  }

  lemma {:induction false} DeliveriesAt(users: seq<Entry>, message: Message)
    ensures |Deliveries(users, message)| == |users|
    ensures forall i | 0 <= i < |users| ::
      Deliveries(users, message)[i] == Deliver(users[i].handle, ServerResponse(Status, message, users[i].user.group))
  {
    if users != [] {
      DeliveriesAt(users[..|users| - 1], message);
    }
  }

  /** A broadcast member is a registered handle whose entry is its user's current view. */
  lemma MemberIsRegistered(clients: map<Handle, User>, order: seq<Handle>, sender: UserRecord, i: nat)
    requires forall k | k in order :: k in clients
    requires i < |Members(Snapshot(clients, order), sender)|
    ensures var e := Members(Snapshot(clients, order), sender)[i];
      e.handle in clients && e.user == View(clients[e.handle])
  {
    var ms := Members(Snapshot(clients, order), sender);
    MembersExact(Snapshot(clients, order), sender);
    assert ms[i] in ms;
    SnapshotEntry(clients, order, ms[i]);
  }

  /**
   * Over a whole enumeration of the registry, the broadcast recipients are
   * exactly the registered handles whose user has another id than the sender
   * and the sender's group.
   */
  lemma MembersOfRegistry(clients: map<Handle, User>, order: seq<Handle>, sender: UserRecord)
    requires IsSnapshot(order, clients.Keys)
    ensures forall k :: k in Handles(Members(Snapshot(clients, order), sender)) <==>
      k in clients && clients[k].id != sender.id && clients[k].group == sender.group
  {
    var snap := Snapshot(clients, order);
    var ms := Members(snap, sender);
    var hs := Handles(ms);
    MembersExact(snap, sender);
    HandlesAt(ms);
    forall k ensures k in hs <==> k in clients && clients[k].id != sender.id && clients[k].group == sender.group {
      if k in hs {
        var j :| 0 <= j < |hs| && hs[j] == k;
        SnapshotEntry(clients, order, ms[j]);
      }
      if k in clients && clients[k].id != sender.id && clients[k].group == sender.group {
        SnapshotHas(clients, order, k);
        var e := Entry(k, View(clients[k]));
        var j :| 0 <= j < |ms| && ms[j] == e;
        assert hs[j] == k;
      }
    }
  }

  /** members[j] is the handle of targets[j], a registered user whose current group is the one recorded for it. */
  predicate Addresses(clients: map<Handle, User>, members: seq<Handle>, targets: seq<Entry>)
    reads clients.Values
  {
    && |members| == |targets|
    && forall j | 0 <= j < |targets| ::
         members[j] == targets[j].handle && members[j] in clients && clients[members[j]].group == targets[j].user.group
  }

  /** The handles of a broadcast's members address those members, all of them registered. */
  lemma MembersAddressed(clients: map<Handle, User>, order: seq<Handle>, sender: UserRecord)
    requires forall k | k in order :: k in clients
    ensures var ms := Members(Snapshot(clients, order), sender);
      Addresses(clients, Handles(ms), ms)
  {
    var ms := Members(Snapshot(clients, order), sender);
    HandlesAt(ms);
    forall j | 0 <= j < |ms| ensures ms[j].handle in clients && ms[j].user.group == clients[ms[j].handle].group {
      MemberIsRegistered(clients, order, sender, j);
    }
  }

  lemma DeliveriesSnoc(init: seq<Entry>, x: Entry, message: Message)
    ensures Deliveries(init + [x], message)
         == Deliveries(init, message) + [Deliver(x.handle, ServerResponse(Status, message, x.user.group))]
  {
    assert (init + [x])[..|init|] == init;
  }

  /** DeliveriesSnoc, stated on consecutive prefixes of one sequence. */
  lemma DeliveriesPrefix(users: seq<Entry>, i: nat, message: Message)
    requires i < |users|
    ensures Deliveries(users[..i + 1], message)
         == Deliveries(users[..i], message) + [Deliver(users[i].handle, ServerResponse(Status, message, users[i].user.group))]
  {
    assert users[..i + 1] == users[..i] + [users[i]];
    DeliveriesSnoc(users[..i], users[i], message);
  }

  /**
   * Every write of a broadcast hands the original message to another member of
   * the sender's group, tagged with that (shared) group, and never to the sender.
   */
  lemma BroadcastOnlyToGroup(users: seq<Entry>, sender: Entry, message: Message)
    requires sender in users && DistinctHandles(users)
    ensures var ds := Deliveries(Members(users, sender.user), message);
      forall i | 0 <= i < |ds| ::
        && ds[i].Deliver?
        && ds[i].response == ServerResponse(Status, message, sender.user.group)
        && ds[i].target != sender.handle
        && exists e :: e in users && e.handle == ds[i].target && e.user.id != sender.user.id && e.user.group == sender.user.group
  {
    var ms := Members(users, sender.user);
    var ds := Deliveries(ms, message);
    MembersExact(users, sender.user);
    DeliveriesAt(ms, message);
    forall i | 0 <= i < |ds|
      ensures && ds[i].Deliver?
              && ds[i].response == ServerResponse(Status, message, sender.user.group)
              && ds[i].target != sender.handle
              && exists e :: e in users && e.handle == ds[i].target && e.user.id != sender.user.id && e.user.group == sender.user.group
    {
      var m := ms[i];
      assert ds[i] == Deliver(m.handle, ServerResponse(Status, message, m.user.group));
      assert m in ms;
      DistinctEntries(users, m, sender);
    }
  }

  /**
   * Over an enumeration of the whole registry, a registered sender's broadcast
   * never comes back to the sender and is tagged with the sender's group.
   */
  lemma RegistryBroadcastOnlyToGroup(registry: map<Handle, User>, order: seq<Handle>, sender: Handle, message: Message)
    requires IsSnapshot(order, registry.Keys) && sender in registry
    ensures var s := View(registry[sender]);
      var ds := Deliveries(Members(Snapshot(registry, order), s), message);
      forall i | 0 <= i < |ds| ::
        ds[i].Deliver? && ds[i].target != sender && ds[i].target in registry
        && ds[i].response == ServerResponse(Status, message, s.group)
  {
    var snap := Snapshot(registry, order);
    var ms := Members(snap, View(registry[sender]));
    SnapshotDistinct(registry, order);
    SnapshotHas(registry, order, sender);
    BroadcastOnlyToGroup(snap, Entry(sender, View(registry[sender])), message);
    DeliveriesAt(ms, message);
    MembersExact(snap, View(registry[sender]));
    forall i | 0 <= i < |ms| ensures ms[i].handle in registry {
      assert ms[i] in snap;
      SnapshotEntry(registry, order, ms[i]);
    }
  }

  /** Every other member of the sender's group receives the original message, tagged with its own group. */
  lemma BroadcastReachesGroup(users: seq<Entry>, sender: UserRecord, message: Message)
    ensures forall e | e in users && e.user.id != sender.id && e.user.group == sender.group ::
      Deliver(e.handle, ServerResponse(Status, message, e.user.group)) in Deliveries(Members(users, sender), message)
  {
    var ms := Members(users, sender);
    var ds := Deliveries(ms, message);
    MembersExact(users, sender);
    DeliveriesAt(ms, message);
    forall e | e in users && e.user.id != sender.id && e.user.group == sender.group
      ensures Deliver(e.handle, ServerResponse(Status, message, e.user.group)) in ds
    {
      var i :| 0 <= i < |ms| && ms[i] == e;
      assert ds[i] == Deliver(e.handle, ServerResponse(Status, message, e.user.group));
    }
  }

  /** The first entry named `name` in enumeration order, if any. */
  function FirstNamed(users: seq<Entry>, name: string): Option<Entry> {
    if users == [] then None
    else if users[0].user.name == name then Some(users[0])
    else FirstNamed(users[1..], name)
  }

  /** Direct-message resolution finds a user with the receiver's name, the earliest one, and fails only when none exists. */
  lemma {:induction false} FirstNamedExact(users: seq<Entry>, name: string)
    ensures FirstNamed(users, name).None? <==> forall e | e in users :: e.user.name != name
    ensures FirstNamed(users, name).Some? ==>
      exists i :: 0 <= i < |users| && users[i] == FirstNamed(users, name).value
        && users[i].user.name == name && forall j | 0 <= j < i :: users[j].user.name != name
  {
    if users != [] && users[0].user.name != name {
      FirstNamedExact(users[1..], name);
      assert users == [users[0]] + users[1..];
      if FirstNamed(users[1..], name).Some? {
        var i :| 0 <= i < |users[1..]| && users[1..][i] == FirstNamed(users, name).value
          && users[1..][i].user.name == name && forall j | 0 <= j < i :: users[1..][j].user.name != name;
        assert users[i + 1] == users[1..][i];
        forall j | 0 <= j < i + 1 ensures users[j].user.name != name {
          if j > 0 {
            assert users[j] == users[1..][j - 1];
          }
        }
      }
    }
  }

  /** What direct-message resolution finds is one of the entries searched. */
  lemma {:induction false} FirstNamedIn(users: seq<Entry>, name: string)
    ensures FirstNamed(users, name).Some? ==> FirstNamed(users, name).value in users
  {
    if users != [] && users[0].user.name != name {
      FirstNamedIn(users[1..], name);
    }
  }

  /** The registry a liveness sweep leaves: exactly the entries whose probe succeeded. */
  function Survivors(clients: map<Handle, User>, probe: Handle -> bool): map<Handle, User> {
    map k | k in clients && probe(k) :: clients[k]
  }

  /** After a sweep no failed handle is registered, every live one keeps its user, and no enumeration of what is left can route to a failed one. */
  lemma SweepEvicts(clients: map<Handle, User>, probe: Handle -> bool, order: seq<Handle>)
    requires IsSnapshot(order, Survivors(clients, probe).Keys)
    ensures forall k | k in clients && !probe(k) :: k !in Survivors(clients, probe)
    ensures forall k | k in clients && probe(k) :: k in Survivors(clients, probe) && Survivors(clients, probe)[k] == clients[k]
    ensures forall i | 0 <= i < |order| :: probe(order[i]) && order[i] in clients
  {
  }

  class ChatServer {
    const app: ChatApplication
    /** The server's registry; it holds the same `User` objects as `app.userRegistry`. */
    var clients: map<Handle, User>
    var writes: seq<Outgoing>

    ghost predicate Valid()
      reads this, app
    {
      clients == app.userRegistry && app.Valid()
    }

    constructor (app: ChatApplication)
      requires app.Valid() && app.userRegistry == map[]
      ensures Valid() && this.app == app && clients == map[] && writes == []
    {
      this.app := app;
      clients := map[];
      writes := [];
    }

    /**
     * Registration handshake on one accepted connection: a zero-size read, a
     * payload without the marker, a payload that does not decode, or a handle
     * already present registers nothing; otherwise a fresh user is added to
     * both registries and the command names are written back.
     */
    method TryRegisterClient(h: Handle, size: nat, raw: string, decode: string -> Option<UserRecord>)
      returns (outcome: Admission)
      requires Valid()
      modifies this, app
      ensures Valid() && app.groups == old(app.groups)
      ensures outcome == Admit(size, raw, decode, h in old(clients))
      ensures outcome.Registered? ==>
        && h in clients && fresh(clients[h]) && View(clients[h]) == outcome.user
        && clients == old(clients)[h := clients[h]]
        && writes == old(writes) + [Listing(h, CommandListing)]
      ensures !outcome.Registered? ==> clients == old(clients) && writes == old(writes)
    {
      if size == 0 {
        return EmptyRead;
      }
      var message := TrimTrailingNul(raw);
      if !IsRegistrationRequest(message) {
        return NotRegistration;
      }
      var jsonData := RemoveAll(message, RegistrationMarker);
      var decoded := decode(jsonData);
      if decoded.None? {
        return Malformed;
      }
      var record := decoded.value;
      if h in clients {
        return AlreadyRegistered;
      }
      var user := new User(record.id, record.name, record.group);
      clients := clients[h := user];
      app.userRegistry := app.userRegistry[h := user];
      writes := writes + [Listing(h, CommandListing)];
      return Registered(record);
    }

    /** The removal step of the connection manager: every handle whose probe fails leaves both registries. */
    method Sweep(probe: Handle -> bool, order: seq<Handle>)
      requires Valid() && IsSnapshot(order, clients.Keys)
      modifies this, app
      ensures Valid()
      ensures clients == Survivors(old(clients), probe)
      ensures writes == old(writes) && app.groups == old(app.groups)
    {
      var i := 0;
      while i < |order|
        invariant 0 <= i <= |order|
        invariant Valid() && writes == old(writes) && app.groups == old(app.groups)
        invariant clients == map k | k in old(clients) && (k in order[..i] ==> probe(k)) :: old(clients)[k]
      {
        var client := order[i];
        assert order[..i + 1] == order[..i] + [client];
        if !probe(client) {
          clients := clients - {client};
          app.userRegistry := app.userRegistry - {client};
        }
        i := i + 1;
      }
      assert order[..|order|] == order;
    }

    /** The direct-message target: the first registered client, in enumeration order, with the receiver's name. */
    method FindMessageTarget(message: Message, order: seq<Handle>) returns (target: Option<Handle>)
      requires IsSnapshot(order, clients.Keys)
      ensures var first := FirstNamed(Snapshot(clients, order), message.receiver);
        target.None? == first.None? && (target.Some? ==> target.value == first.value.handle)
      ensures target.None? <==> forall k | k in clients :: clients[k].name != message.receiver
      ensures target.Some? ==> target.value in clients && clients[target.value].name == message.receiver
    {
      ghost var snap := Snapshot(clients, order);
      var i := 0;
      while i < |order|
        invariant 0 <= i <= |order|
        invariant FirstNamed(snap, message.receiver) == FirstNamed(snap[i..], message.receiver)
        invariant forall j | 0 <= j < i :: clients[order[j]].name != message.receiver
      {
        var user := clients[order[i]];
        assert snap[i..] == [snap[i]] + snap[i + 1..];
        if message.receiver == user.name {
          target := Some(order[i]);
          return;
        }
        i := i + 1;
      }
      target := None;
      forall k | k in clients ensures clients[k].name != message.receiver {
        var j :| 0 <= j < |order| && order[j] == k;
      }
    }

    /** The handles of every other user (by id) whose group equals the sender's, in enumeration order. */
    method SelectGroupMembers(sender: Handle, order: seq<Handle>) returns (members: seq<Handle>)
      requires sender in clients && IsSnapshot(order, clients.Keys)
      ensures members == Handles(Members(Snapshot(clients, order), View(clients[sender])))
    {
      ghost var snap := Snapshot(clients, order);
      var user := clients[sender];
      members := [];
      var i := 0;
      while i < |order|
        invariant 0 <= i <= |order|
        invariant members == Handles(Members(snap[..i], View(user)))
      {
        var groupClient := order[i];
        var groupUser := clients[groupClient];
        assert snap[i] == Entry(groupClient, View(groupUser));
        SelectionStep(snap, i, View(user));
        if groupUser.id != user.id && groupUser.group == user.group {
          members := members + [groupClient];
        }
        i := i + 1;
      }
      assert snap[..|order|] == snap;
    }

    /** A command: a known token runs its handler and replies to the sender alone; an unknown one does nothing. */
    method RouteCommand(sender: Handle, message: Message, order: seq<Handle>)
      requires Valid() && sender in clients && IsSnapshot(order, clients.Keys)
      modifies this`writes, app`groups, clients[sender]
      ensures Valid()
      ensures forall k | k in clients && k != sender :: clients[k].group == old(clients[k].group)
      ensures var token := FirstWord(message.text);
        if token in Commands() then
          var o := Execute(Commands()[token], message.text, clients[sender].id, old(Snapshot(clients, order)), |clients|,
                           app.hostAddress, GroupState(old(clients[sender].group), old(app.groups)));
          && clients[sender].group == o.state.group && app.groups == o.state.groups
          && writes == old(writes) + [Deliver(sender, ServerResponse(Status,
                Message(Status, ServerName, clients[sender].name, o.result.text, Command), o.state.group))]
        else
          writes == old(writes) && clients[sender].group == old(clients[sender].group) && app.groups == old(app.groups)
    {
      var user := clients[sender];
      var cmd := FirstWord(message.text);
      if cmd in Commands() {
        var result := app.Dispatch(sender, Commands()[cmd], message.text, order);
        var group := user.group;
        writes := writes + [Deliver(sender, ServerResponse(Status,
          Message(Status, ServerName, user.name, result.text, Command), group))];
      }
    }

    /** A group broadcast: the envelope goes, unchanged, to every other member of the sender's group. */
    method RouteBroadcast(sender: Handle, message: Message, order: seq<Handle>)
      requires sender in clients && IsSnapshot(order, clients.Keys)
      modifies this`writes
      ensures writes == old(writes) + Deliveries(Members(old(Snapshot(clients, order)), old(View(clients[sender]))), message)
    {
      var user := clients[sender];
      var members := SelectGroupMembers(sender, order);
      ghost var targets := Members(Snapshot(clients, order), View(user));
      MembersAddressed(clients, order, View(user));
      SendToEach(members, targets, message);
    }

    /** Writes the envelope to each handle in turn, tagged with that user's current group. */
    method SendToEach(members: seq<Handle>, ghost targets: seq<Entry>, message: Message)
      requires Addresses(clients, members, targets)
      modifies this`writes
      ensures writes == old(writes) + Deliveries(targets, message)
    {
      var i := 0;
      while i < |members|
        invariant 0 <= i <= |members|
        invariant writes == old(writes) + Deliveries(targets[..i], message)
      {
        var member := members[i];
        var group := clients[member].group;
        DeliveriesPrefix(targets, i, message);
        writes := writes + [Deliver(member, ServerResponse(Status, message, group))];
        i := i + 1;
      }
      assert targets[..|members|] == targets;
    }

    /** A direct message: the envelope goes, unchanged, to the first user with the receiver's name, or nowhere. */
    method RouteDirect(message: Message, order: seq<Handle>)
      requires IsSnapshot(order, clients.Keys)
      modifies this`writes
      ensures writes == old(writes) + match FirstNamed(old(Snapshot(clients, order)), message.receiver)
                                      case None => []
                                      case Some(e) => Deliveries([e], message)
    {
      var target := FindMessageTarget(message, order);
      if target.Some? {
        ghost var e := FirstNamed(Snapshot(clients, order), message.receiver).value;
        FirstNamedIn(Snapshot(clients, order), message.receiver);
        SnapshotEntry(clients, order, e);
        var group := clients[target.value].group;
        assert [e][..0] == [];
        writes := writes + [Deliver(target.value, ServerResponse(Status, message, group))];
      }
    }

    /**
     * The body of the message pump for one envelope read from `sender`, by
     * kind: `Command`, `GroupBroadcast`, and the default branch (`SingleReceiver`).
     */
    method Route(sender: Handle, message: Message, order: seq<Handle>)
      requires Valid() && sender in clients && IsSnapshot(order, clients.Keys)
      modifies this`writes, app`groups, clients[sender]
      ensures Valid()
      ensures forall k | k in clients && k != sender :: clients[k].group == old(clients[k].group)
      ensures message.messageType == Command ==>
        var token := FirstWord(message.text);
        if token in Commands() then
          var o := Execute(Commands()[token], message.text, clients[sender].id, old(Snapshot(clients, order)), |clients|,
                           app.hostAddress, GroupState(old(clients[sender].group), old(app.groups)));
          && clients[sender].group == o.state.group && app.groups == o.state.groups
          && writes == old(writes) + [Deliver(sender, ServerResponse(Status,
                Message(Status, ServerName, clients[sender].name, o.result.text, Command), o.state.group))]
        else
          writes == old(writes) && clients[sender].group == old(clients[sender].group) && app.groups == old(app.groups)
      ensures message.messageType != Command ==>
        clients[sender].group == old(clients[sender].group) && app.groups == old(app.groups)
      ensures message.messageType == GroupBroadcast ==>
        writes == old(writes) + Deliveries(Members(old(Snapshot(clients, order)), old(View(clients[sender]))), message)
      ensures message.messageType == SingleReceiver ==>
        writes == old(writes) + match FirstNamed(old(Snapshot(clients, order)), message.receiver)
                                case None => []
                                case Some(e) => Deliveries([e], message)
    {
      match message.messageType
      case Command => RouteCommand(sender, message, order);
      case GroupBroadcast => RouteBroadcast(sender, message, order);
      case SingleReceiver => RouteDirect(message, order);
    }
  }
}
