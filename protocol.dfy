/**
 * How the client and the server fit together: the registration frame the
 * client writes is the one the server accepts, the command listing the
 * server sends is the table it dispatches on, and what a group broadcast
 * reaches in two small rooms.
 */
module Protocol {
  import opened Wrappers
  import opened Text
  import opened Messages
  import opened Users
  import opened Application
  import opened Server
  import opened Client

  /** The registration text the client writes: the user JSON between two markers. */
  function RegistrationFrame(json: string): (r: string)
    ensures |r| == |json| + 2 * |RegistrationMarker|
    ensures IsRegistrationRequest(r) && r[|r| - 1] == '>'
  {
    RegistrationMarker + json + RegistrationMarker
  }

  /**
   * The server recovers exactly the client's JSON from a framed registration
   * read into a zero-filled buffer, provided the JSON does not itself contain
   * the marker.
   */
  lemma RegistrationRoundTrip(json: string, padding: nat)
    requires !Occurs(json, RegistrationMarker)
    ensures RegistrationPayload(RegistrationFrame(json) + Nuls(padding)) == Some(json)
  {
    var frame := RegistrationFrame(json);
    TrimUndoesPadding(frame, padding);
    assert RegistrationMarker[0] !in RegistrationMarker[1..];
    RemoveAllFramed(json, RegistrationMarker);
  }

  /** A framed registration from an unregistered handle is admitted with the user its JSON decodes to. */
  lemma FramedRegistrationAdmitted(json: string, padding: nat, size: nat, decode: string -> Option<UserRecord>)
    requires !Occurs(json, RegistrationMarker) && size != 0 && decode(json).Some?
    ensures Admit(size, RegistrationFrame(json) + Nuls(padding), decode, false) == Registered(decode(json).value)
    ensures Admit(size, RegistrationFrame(json) + Nuls(padding), decode, true) == AlreadyRegistered
  {
    RegistrationRoundTrip(json, padding);
  }

  /** A client holding the server's listing recognises exactly the commands the server's table dispatches. */
  lemma ListingMatchesTable(command: string)
    ensures IsCommand(command, CommandListing) <==> FirstWord(command) in Commands()
  {
    CommandTableExact();
  }

  /**
   * Every command envelope a registered client writes, after it has taken in
   * the listing, names a handler of the server's table, so it is answered.
   */
  lemma SentCommandsAreKnown(input: string, group: string, username: string)
    requires Classify(input, group, CommandListing, username).Send?
    requires Classify(input, group, CommandListing, username).message.messageType == Command
    ensures FirstWord(Classify(input, group, CommandListing, username).message.text) in Commands()
  {
    ListingMatchesTable(input);
  }

  /** Alice and Bob are in "cs101", Carol is in no group. */
  function Room(): seq<Entry> {
    [ Entry(1, UserRecord("1", "alice", "cs101")),
      Entry(2, UserRecord("2", "bob", "cs101")),
      Entry(3, UserRecord("3", "carol", "")) ]
  }

  /** The broadcast selection over the room, one entry at a time. */
  lemma RoomMembers(sender: UserRecord)
    ensures Members(Room(), sender)
         == Members([], sender)
            + (if Room()[0].user.id != sender.id && Room()[0].user.group == sender.group then [Room()[0]] else [])
            + (if Room()[1].user.id != sender.id && Room()[1].user.group == sender.group then [Room()[1]] else [])
            + (if Room()[2].user.id != sender.id && Room()[2].user.group == sender.group then [Room()[2]] else [])
  {
    var r := Room();
    assert [r[0]] == [] + [r[0]];
    assert [r[0], r[1]] == [r[0]] + [r[1]];
    assert r == [r[0], r[1]] + [r[2]];
    MembersSnoc([], r[0], sender);
    MembersSnoc([r[0]], r[1], sender);
    MembersSnoc([r[0], r[1]], r[2], sender);
  }

  /** Alice's broadcast reaches Bob alone, tagged with his group; Carol and Alice herself get nothing. */
  lemma GroupBroadcastScenario(message: Message)
    ensures Members(Room(), Room()[0].user) == [Room()[1]]
    ensures Deliveries(Members(Room(), Room()[0].user), message) == [Deliver(2, ServerResponse(Status, message, "cs101"))]
  {
    var r := Room();
    RoomMembers(r[0].user);
    assert Members(r, r[0].user) == [r[1]];
    DeliveriesSnoc([], r[1], message);
    assert [] + [r[1]] == [r[1]];
  }

  /**
   * A sender outside every group still reaches every other user outside every
   * group: the broadcast compares group names, and "" equals "".
   */
  lemma UngroupedBroadcastScenario()
    ensures Members(Room(), Room()[2].user) == []
    ensures Members(Room() + [Entry(4, UserRecord("4", "dave", ""))], Room()[2].user)
         == [Entry(4, UserRecord("4", "dave", ""))]
  {
    var r := Room();
    RoomMembers(r[2].user);
    var d := Entry(4, UserRecord("4", "dave", ""));
    MembersSnoc(r, d, r[2].user);
  }
}
