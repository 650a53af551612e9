/**
 * The chat application: the user registry shared with the server, the set of
 * group names ever joined, and the fixed table of five command handlers.
 */
module Application {
  import opened Text
  import opened Messages
  import opened Users

  /** The five handlers of the command table. */
  datatype Cmd = Help | Host | ListUsers | JoinGroup | LeaveGroup

  /** The command table: name to handler. */
  function Commands(): (m: map<string, Cmd>)
    ensures m.Keys == {"help", "host", "users", "joingroup", "leavegroup"}
    ensures m["help"] == Help && m["host"] == Host && m["users"] == ListUsers
    ensures m["joingroup"] == JoinGroup && m["leavegroup"] == LeaveGroup
  {
    map["help" := Help, "host" := Host, "users" := ListUsers, "joingroup" := JoinGroup, "leavegroup" := LeaveGroup]
  }

  /** The table's names in insertion order, as sent to a client when it registers. */
  const CommandListing: seq<string> := ["help", "host", "users", "joingroup", "leavegroup"]

  /** The table has exactly five names, each of them once in the listing, and five distinct handlers. */
  lemma CommandTableExact()
    ensures Commands().Keys == {"help", "host", "users", "joingroup", "leavegroup"}
    ensures |CommandListing| == |Commands()| == 5
    ensures forall i | 0 <= i < |CommandListing| :: CommandListing[i] in Commands()
    ensures forall i, j | 0 <= i < j < |CommandListing| :: CommandListing[i] != CommandListing[j]
    ensures forall c: Cmd :: c in Commands().Values
  {
    var m := Commands();
    assert m["help"] == Help && m["host"] == Host && m["users"] == ListUsers;
    assert m["joingroup"] == JoinGroup && m["leavegroup"] == LeaveGroup;
    assert m.Keys == {"help", "host", "users", "joingroup", "leavegroup"};
    forall c: Cmd ensures c in m.Values {
      match c
      case Help => assert m["help"] == c;
      case Host => assert m["host"] == c;
      case ListUsers => assert m["users"] == c;
      case JoinGroup => assert m["joingroup"] == c;
      case LeaveGroup => assert m["leavegroup"] == c;
    }
  }

  /** A direct-message request starts with '@'. */
  predicate IsMessageRequest(command: string)
    ensures IsMessageRequest(command) <==> |command| > 0 && command[0] == '@'
  {
    StartsWith(command, "@")
  }

  /** A group-message request starts with "G@". */
  predicate IsGroupMessageRequest(command: string)
    ensures IsGroupMessageRequest(command) <==> |command| >= 2 && command[0] == 'G' && command[1] == '@'
  {
    StartsWith(command, "G@")
  }

  /** `StringBuilder.AppendLine`'s terminator (`Environment.NewLine`, here its Unix value). */
  const NewLine := "\n"

  /** The lines `help` appends, one per command, in table order. */
  const HelpLines: seq<string> := [
    "'help" + "' - Displays a list of all commands",
    "'host" + "' - Displays the host IP address",
    "'users" + "' - Displays a list of all active users",
    "'joingroup" + " <group>' - Adds user to group, or creates group if not valid",
    "'leavegroup" + "' - Removes user from current group"]

  /** Line i of the help text documents the i-th name of the table, quoted. */
  lemma HelpNamesEveryCommand()
    ensures |HelpLines| == |CommandListing|
    ensures forall i | 0 <= i < |CommandListing| :: "'" + CommandListing[i] <= HelpLines[i]
  {
    PrefixOf("'help", "' - Displays a list of all commands");
    PrefixOf("'host", "' - Displays the host IP address");
    PrefixOf("'users", "' - Displays a list of all active users");
    PrefixOf("'joingroup", " <group>' - Adds user to group, or creates group if not valid");
    PrefixOf("'leavegroup", "' - Removes user from current group");
    assert "'" + CommandListing[0] == "'help";
    assert "'" + CommandListing[1] == "'host";
    assert "'" + CommandListing[2] == "'users";
    assert "'" + CommandListing[3] == "'joingroup";
    assert "'" + CommandListing[4] == "'leavegroup";
  }

  /** Appends each of `lines`, in order, to `builder`. */
  function AppendLines(builder: string, lines: seq<string>): string {
    if lines == [] then builder
    else AppendLine(AppendLines(builder, lines[..|lines| - 1]), lines[|lines| - 1])
  }

  /** The lines read front to back, each followed by the terminator. */
  function Joined(lines: seq<string>): string {
    if lines == [] then [] else lines[0] + NewLine + Joined(lines[1..])
  }

  lemma {:induction false} JoinedSnoc(init: seq<string>, last: string)
    ensures Joined(init + [last]) == Joined(init) + last + NewLine
  {
    if init == [] {
      assert init + [last] == [last];
    } else {
      assert (init + [last])[1..] == init[1..] + [last];
      JoinedSnoc(init[1..], last);
    }
  }

  /** Appending the lines one by one leaves the builder followed by every line, in order, each terminated. */
  lemma {:induction false} AppendLinesJoined(builder: string, lines: seq<string>)
    ensures AppendLines(builder, lines) == builder + Joined(lines)
  {
    if lines != [] {
      var init, last := lines[..|lines| - 1], lines[|lines| - 1];
      AppendLinesJoined(builder, init);
      JoinedSnoc(init, last);
      assert lines == init + [last];
    }
  }

  const HelpText := AppendLines("", HelpLines)

  function HostText(host: string): string {
    "Host:[" + host + "]"
  }

  const OnlyUserText := "You are the only active user at this time!"

  /** The entries `users` lists for the caller: every entry whose id differs from the caller's, in order. */
  function Others(users: seq<Entry>, callerId: string): seq<Entry> {
    if users == [] then []
    else
      var last := users[|users| - 1];
      Others(users[..|users| - 1], callerId) + (if last.user.id != callerId then [last] else [])
  }

  /** Exactly the entries with another id are listed, so the caller (and only who shares its id) never is. */
  lemma {:induction false} OthersExact(users: seq<Entry>, callerId: string)
    ensures forall e :: e in Others(users, callerId) <==> e in users && e.user.id != callerId
  {
    if users != [] {
      OthersExact(users[..|users| - 1], callerId);
      assert users == users[..|users| - 1] + [users[|users| - 1]];
    }
  }

  lemma OthersSnoc(init: seq<Entry>, x: Entry, callerId: string)
    ensures Others(init + [x], callerId) == Others(init, callerId) + (if x.user.id != callerId then [x] else [])
  {
    assert (init + [x])[..|init|] == init;
  }

  /** Listing keeps the enumeration order and never repeats a handle the snapshot does not repeat. */
  lemma {:induction false} OthersDistinct(users: seq<Entry>, callerId: string)
    requires DistinctHandles(users)
    ensures DistinctHandles(Others(users, callerId))
  {
    if users != [] {
      var init := users[..|users| - 1];
      OthersDistinct(init, callerId);
      OthersExact(init, callerId);
      var last := users[|users| - 1];
      var oi := Others(init, callerId);
      forall i | 0 <= i < |oi| ensures oi[i].handle != last.handle {
        assert oi[i] in init;
        var k :| 0 <= k < |init| && init[k] == oi[i];
        assert users[k] == oi[i];
      }
      assert users == init + [last];
      OthersSnoc(init, last, callerId);
    }
  }

  /** `StringBuilder.AppendLine(line)` on the text built so far. */
  function AppendLine(builder: string, line: string): string {
    builder + line + NewLine
  }

  /** Appends one "@Name" line per entry, in order, to `builder`. */
  function ListLines(builder: string, users: seq<Entry>): string {
    if users == [] then builder
    else AppendLine(ListLines(builder, users[..|users| - 1]), "@" + users[|users| - 1].user.name)
  }

  lemma ListLinesSnoc(builder: string, init: seq<Entry>, x: Entry)
    ensures ListLines(builder, init + [x]) == AppendLine(ListLines(builder, init), "@" + x.user.name)
  {
    assert (init + [x])[..|init|] == init;
  }

  /** One more entry of the enumeration adds its line exactly when its id is not the caller's. */
  lemma ListingStep(builder: string, users: seq<Entry>, i: nat, callerId: string)
    requires i < |users|
    ensures var before := ListLines(builder, Others(users[..i], callerId));
      ListLines(builder, Others(users[..i + 1], callerId))
        == if users[i].user.id != callerId then AppendLine(before, "@" + users[i].user.name) else before
  {
    assert users[..i + 1] == users[..i] + [users[i]];
    OthersSnoc(users[..i], users[i], callerId);
    var others := Others(users[..i], callerId);
    if users[i].user.id != callerId {
      ListLinesSnoc(builder, others, users[i]);
    } else {
      assert others + [] == others;
    }
  }

  const ActiveUsersHeader := AppendLine("", "\nActive Users:")

  /** The reply of `users` for a caller, given the registry's entries and its size. */
  function UsersText(users: seq<Entry>, callerId: string, count: nat): string {
    if count <= 1 then OnlyUserText else ListLines(ActiveUsersHeader, Others(users, callerId))
  }

  /** The part of the state a handler may change: the caller's group and the set of group names. */
  datatype GroupState = GroupState(group: string, groups: set<string>)

  datatype Outcome = Outcome(result: CommandResult, state: GroupState)

  /** `joingroup` reads its group name from this index of the whole command text. */
  const JoinPrefixLength := 10

  function JoinGroupEffect(cmd: string, st: GroupState): Outcome {
    if |cmd| <= JoinPrefixLength then Outcome(CommandResult(false, "Invalid Group!"), st)
    else
      var group := cmd[JoinPrefixLength..];
      Outcome(CommandResult(true, "Joined Group [" + group + "]"), GroupState(group, st.groups + {group}))
  }

  function LeaveGroupEffect(st: GroupState): Outcome {
    if st.group == "" then Outcome(CommandResult(true, "You are not in a group!"), st)
    else Outcome(CommandResult(true, "You have left your group [" + st.group + "]"), GroupState("", st.groups))
  }

  /** The effect of running handler `name` on the caller's command text. */
  function Execute(name: Cmd, cmd: string, callerId: string, users: seq<Entry>, count: nat, host: string, st: GroupState): Outcome {
    match name
    case Help => Outcome(CommandResult(true, HelpText), st)
    case Host => Outcome(CommandResult(true, HostText(host)), st)
    case ListUsers => Outcome(CommandResult(true, UsersText(users, callerId, count)), st)
    case JoinGroup => JoinGroupEffect(cmd, st)
    case LeaveGroup => LeaveGroupEffect(st)
  }

  /** `joingroup g` names the text after "joingroup "; a missing or empty name is rejected and changes nothing. */
  lemma JoinGroupArgument(rest: string, st: GroupState)
    ensures JoinGroupEffect("joingroup", st) == Outcome(CommandResult(false, "Invalid Group!"), st)
    ensures var o := JoinGroupEffect("joingroup " + rest, st);
      if rest == "" then o == Outcome(CommandResult(false, "Invalid Group!"), st)
      else o.result == CommandResult(true, "Joined Group [" + rest + "]") && o.state == GroupState(rest, st.groups + {rest})
  {
    assert ("joingroup " + rest)[JoinPrefixLength..] == rest;
  }

  /** Repeating a `joingroup` leaves the state where the first one put it and repeats its reply. */
  lemma JoinGroupIdempotent(cmd: string, st: GroupState)
    ensures var first := JoinGroupEffect(cmd, st);
      JoinGroupEffect(cmd, first.state) == first
  {
  }

  /** `leavegroup` clears the group, keeps the set of names, and is a no-op once the group is empty. */
  lemma LeaveGroupClears(st: GroupState)
    ensures LeaveGroupEffect(st).state == GroupState("", st.groups)
    ensures st.group != "" ==> LeaveGroupEffect(st).result == CommandResult(true, "You have left your group [" + st.group + "]")
    ensures LeaveGroupEffect(LeaveGroupEffect(st).state) == Outcome(CommandResult(true, "You are not in a group!"), GroupState("", st.groups))
  {
  }

  /** `help`, `host` and `users` change no state. */
  lemma ReadOnlyHandlers(name: Cmd, cmd: string, callerId: string, users: seq<Entry>, count: nat, host: string, st: GroupState)
    requires name == Help || name == Host || name == ListUsers
    ensures Execute(name, cmd, callerId, users, count, host, st).state == st
  {
  }

  class ChatApplication {
    /** The server's bind address, resolved once at start-up. */
    const hostAddress: string
    var userRegistry: map<Handle, User>
    var groups: set<string>

    ghost predicate Valid()
      reads this
    {
      Injective(userRegistry)
    }

    constructor (hostAddress: string)
      ensures Valid()
      ensures this.hostAddress == hostAddress && userRegistry == map[] && groups == {}
    {
      this.hostAddress := hostAddress;
      userRegistry := map[];
      groups := {};
    }

    /** `help`: succeeds with the help text, one line per table entry, whoever asks. */
    function ShowCommands(client: Handle, cmd: string): (r: CommandResult)
      ensures r.result && r.text == Joined(HelpLines)
    {
      AppendLinesJoined("", HelpLines);
      CommandResult(true, HelpText)
    }

    /** `host`: succeeds with the server's address in brackets after "Host:", whoever asks. */
    function ShowHost(client: Handle, cmd: string): (r: CommandResult)
      ensures r.result && |r.text| == |hostAddress| + 7
      ensures r.text[..6] == "Host:[" && r.text[6..|r.text| - 1] == hostAddress && r.text[|r.text| - 1] == ']'
    {
      CommandResult(true, HostText(hostAddress))
    }

    /** Lists every other user by name, building the text line by line over the registry's values. */
    method ShowUsers(client: Handle, cmd: string, order: seq<Handle>) returns (r: CommandResult)
      requires client in userRegistry
      requires IsSnapshot(order, userRegistry.Keys)
      ensures r == CommandResult(true, UsersText(Snapshot(userRegistry, order), userRegistry[client].id, |userRegistry|))
    {
      if |userRegistry| <= 1 {
        return CommandResult(true, OnlyUserText);
      }
      ghost var snap := Snapshot(userRegistry, order);
      var callerId := userRegistry[client].id;
      var builder := ActiveUsersHeader;
      var i := 0;
      while i < |order|
        invariant 0 <= i <= |order|
        invariant builder == ListLines(ActiveUsersHeader, Others(snap[..i], callerId))
      {
        var user := userRegistry[order[i]];
        assert snap[i] == Entry(order[i], View(user));
        ListingStep(ActiveUsersHeader, snap, i, callerId);
        if user.id != callerId {
          builder := AppendLine(builder, "@" + user.name);
        }
        i := i + 1;
      }
      assert snap[..|order|] == snap;
      return CommandResult(true, builder);
    }

    method TryJoinGroup(client: Handle, cmd: string) returns (r: CommandResult)
      requires Valid() && client in userRegistry
      modifies this`groups, userRegistry[client]
      ensures Outcome(r, GroupState(userRegistry[client].group, groups))
           == JoinGroupEffect(cmd, GroupState(old(userRegistry[client].group), old(groups)))
      ensures forall k | k in userRegistry && k != client :: userRegistry[k].group == old(userRegistry[k].group)
    {
      if |cmd| <= JoinPrefixLength {
        return CommandResult(false, "Invalid Group!");
      }
      var group := cmd[JoinPrefixLength..];
      userRegistry[client].group := group;
      groups := groups + {group};
      return CommandResult(true, "Joined Group [" + group + "]");
    }

    method TryLeaveGroup(client: Handle, cmd: string) returns (r: CommandResult)
      requires Valid() && client in userRegistry
      modifies userRegistry[client]
      ensures Outcome(r, GroupState(userRegistry[client].group, groups))
           == LeaveGroupEffect(GroupState(old(userRegistry[client].group), groups))
      ensures forall k | k in userRegistry && k != client :: userRegistry[k].group == old(userRegistry[k].group)
    {
      var user := userRegistry[client];
      if user.group == "" {
        return CommandResult(true, "You are not in a group!");
      }
      var oldGroup := user.group;
      user.group := "";
      return CommandResult(true, "You have left your group [" + oldGroup + "]");
    }

    /** Runs the handler the table maps a command name to. */
    method Dispatch(client: Handle, name: Cmd, cmd: string, order: seq<Handle>) returns (r: CommandResult)
      requires Valid() && client in userRegistry
      requires IsSnapshot(order, userRegistry.Keys)
      modifies this`groups, userRegistry[client]
      ensures Outcome(r, GroupState(userRegistry[client].group, groups))
           == Execute(name, cmd, userRegistry[client].id, old(Snapshot(userRegistry, order)), |userRegistry|,
                      hostAddress, GroupState(old(userRegistry[client].group), old(groups)))
      ensures forall k | k in userRegistry && k != client :: userRegistry[k].group == old(userRegistry[k].group)
    {
      match name
      case Help => r := ShowCommands(client, cmd);
      case Host => r := ShowHost(client, cmd);
      case ListUsers => r := ShowUsers(client, cmd, order);
      case JoinGroup => r := TryJoinGroup(client, cmd);
      case LeaveGroup => r := TryLeaveGroup(client, cmd);
    }
  }
}
