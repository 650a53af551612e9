/**
 * The chat client's side of the conversation: how one line typed at the
 * prompt is classified (a local directive, a server command, a direct
 * message or a group message), the envelope it becomes, and how the client
 * takes in the command listing and the server's responses.
 */
module Client {
  import opened Wrappers
  import opened Text
  import opened Messages
  import opened Application

  /** `IsCommand`: the line's command token is one of the names received at registration. */
  predicate IsCommand(command: string, commands: seq<string>): (r: bool)
    ensures r <==> exists w | w in commands :: ' ' !in w && (w == command || w + " " <= command)
  {
    TokenIn(command, commands);
    FirstWord(command) in commands
  }

  /** A command is recognised by its first word alone, whatever follows the first space. */
  lemma IsCommandToken(word: string, rest: string, commands: seq<string>)
    requires ' ' !in word
    ensures IsCommand(word, commands) <==> word in commands
    ensures IsCommand(word + " " + rest, commands) <==> word in commands
  {
    FirstWordOf(word, rest);
  }

  /** The prompt's group tag: the group followed by '@', or nothing outside a group. */
  function PromptPrefix(group: string): (r: string)
    ensures r == [] <==> group == []
    ensures r != [] ==> r[..|r| - 1] == group && r[|r| - 1] == '@'
  {
    if group == [] then group else group + "@"
  }

  /** The prefix that turns a typed line into a group message: "G@group:", or nothing outside a group. */
  function GroupHandle(group: string): (r: string)
    ensures r == [] <==> group == []
    ensures r != [] ==> |r| == |group| + 3 && r[..2] == "G@" && r[2..|r| - 1] == group && r[|r| - 1] == ':'
  {
    if group == [] then group else "G@" + group + ":"
  }

  /** What the client does with one typed line. */
  datatype Action =
    | Skip                    // nothing: an empty line, or a message that could not be split
    | ShowIp                  // "ip": print the local endpoint
    | ClearScreen             // "clear": redraw the banner
    | Exit                    // "exit": leave the session
    | Send(message: Message)  // write this envelope to the server

  /** The envelope `SendCommand` writes: addressed to the server, the typed line as its text. */
  function CommandMessage(username: string, command: string): (r: Message)
    ensures r.messageType == Command && r.receiver == ServerName
    ensures r.status == Status && r.sender == username && r.text == command
  {
    Message(Status, username, ServerName, command, Command)
  }

  /**
   * The "@receiver text" branch: split at the first space, drop the '@' from
   * the first segment; None when there is no space (the second segment is missing).
   */
  function DirectMessage(input: string, username: string): (r: Option<Message>)
    requires IsMessageRequest(input)
    ensures r.None? <==> ' ' !in input
    ensures r.Some? ==> r.value.status == Status && r.value.sender == username && r.value.messageType == SingleReceiver
    ensures r.Some? ==> input == "@" + r.value.receiver + " " + r.value.text && ' ' !in r.value.receiver
  {
    match SplitFirst(input, ' ')
    case None => None
    case Some((head, text)) =>
      assert input[0] == head[0];
      assert input == "@" + head[1..] + " " + text;
      Some(Message(Status, username, head[1..], text, SingleReceiver))
  }

  /**
   * The group branch, on the qualified line: split at the first ':', drop the
   * "G@" from the first segment; None when there is no ':'.
   */
  function GroupMessage(qualified: string, username: string): (r: Option<Message>)
    requires IsGroupMessageRequest(qualified)
    ensures r.None? <==> ':' !in qualified
    ensures r.Some? ==> r.value.status == Status && r.value.sender == username && r.value.messageType == GroupBroadcast
    ensures r.Some? ==> qualified == "G@" + r.value.receiver + ":" + r.value.text && ':' !in r.value.receiver
  {
    match SplitFirst(qualified, ':')
    case None => None
    case Some((head, text)) =>
      assert qualified[..2] == head[..2];
      assert qualified == "G@" + head[2..] + ":" + text;
      Some(Message(Status, username, head[2..], text, GroupBroadcast))
  }

  /** Sends the message when the split produced one, and nothing otherwise. */
  function SendIfAny(message: Option<Message>): (r: Action)
    ensures r.Send? <==> message.Some?
    ensures r.Send? ==> r.message == message.value
  {
    match message
    case None => Skip
    case Some(m) => Send(m)
  }

  /**
   * The branch chain of the prompt loop, in its order: empty line, the three
   * local directives, a server command, "@receiver text", and finally the
   * group form of the line qualified with the current group's handle.
   */
  function Classify(input: string, group: string, commands: seq<string>, username: string): (r: Action)
    ensures r.Send? ==> input != [] && input != "ip" && input != "clear" && input != "exit"
    ensures r.Send? ==> r.message.status == Status && r.message.sender == username
    ensures r.Send? && r.message.messageType == Command ==> r.message.text == input && IsCommand(input, commands)
    ensures r.Send? && r.message.messageType == SingleReceiver ==>
      input == "@" + r.message.receiver + " " + r.message.text && ' ' !in r.message.receiver
    ensures r.Send? && r.message.messageType == GroupBroadcast ==>
      GroupHandle(group) + input == "G@" + r.message.receiver + ":" + r.message.text && ':' !in r.message.receiver
  {
    if input == [] then Skip
    else if input == "ip" then ShowIp
    else if input == "clear" then ClearScreen
    else if input == "exit" then Exit
    else if IsCommand(input, commands) then Send(CommandMessage(username, input))
    else if IsMessageRequest(input) then SendIfAny(DirectMessage(input, username))
    else if IsGroupMessageRequest(GroupHandle(group) + input) then SendIfAny(GroupMessage(GroupHandle(group) + input, username))
    else Skip
  }

  /** The local directives never reach the server. */
  lemma DirectivesStayLocal(group: string, commands: seq<string>, username: string)
    ensures Classify("ip", group, commands, username) == ShowIp
    ensures Classify("clear", group, commands, username) == ClearScreen
    ensures Classify("exit", group, commands, username) == Exit
    ensures Classify("", group, commands, username) == Skip
  {
  }

  /** A known command goes to the server as a command, even when it also looks like a message. */
  lemma CommandPriority(input: string, group: string, commands: seq<string>, username: string)
    requires input != [] && input != "ip" && input != "clear" && input != "exit"
    requires IsCommand(input, commands)
    ensures Classify(input, group, commands, username) == Send(CommandMessage(username, input))
  {
  }

  /** "@name text" becomes a direct message to `name` carrying `text`, spaces and all. */
  lemma DirectMessageSplit(name: string, text: string, group: string, commands: seq<string>, username: string)
    requires ' ' !in name && "@" + name !in commands
    ensures Classify("@" + name + " " + text, group, commands, username)
         == Send(Message(Status, username, name, text, SingleReceiver))
  {
    var input := "@" + name + " " + text;
    var head := "@" + name;
    assert input == head + " " + text;
    assert ' ' !in head;
    FirstWordOf(head, text);
    assert input == head + [' '] + text;
    SplitFirstOf(head, ' ', text);
    assert head[1..] == name;
    assert input[0] == '@';
  }

  /** "@name" with no space is dropped: the split has no second segment. */
  lemma DirectWithoutSpaceSendsNothing(name: string, group: string, commands: seq<string>, username: string)
    requires ' ' !in name && "@" + name !in commands
    ensures Classify("@" + name, group, commands, username) == Skip
  {
    var input := "@" + name;
    assert ' ' !in input;
    FirstWordOf(input, "");
    assert input[0] == '@';
    assert input != "ip" && input != "clear" && input != "exit";
  }

  /**
   * Inside a group whose name has no ':', any line that is neither a directive,
   * a command nor a direct message goes to that group with the whole line as its text.
   */
  lemma GroupMessageSplit(input: string, group: string, commands: seq<string>, username: string)
    requires group != [] && ':' !in group
    requires input != [] && input != "ip" && input != "clear" && input != "exit"
    requires !IsCommand(input, commands) && !IsMessageRequest(input)
    ensures Classify(input, group, commands, username) == Send(Message(Status, username, group, input, GroupBroadcast))
  {
    var head := "G@" + group;
    assert GroupHandle(group) + input == head + [':'] + input;
    assert ':' !in head by {
      assert head == ['G', '@'] + group;
    }
    SplitFirstOf(head, ':', input);
    assert IsGroupMessageRequest(GroupHandle(group) + input);
    assert head[2..] == group;
  }

  /** Outside a group the line itself can still be written in group form "G@name:text". */
  lemma UngroupedGroupSyntax(name: string, text: string, commands: seq<string>, username: string)
    requires ':' !in name && !IsCommand("G@" + name + ":" + text, commands)
    ensures Classify("G@" + name + ":" + text, [], commands, username)
         == Send(Message(Status, username, name, text, GroupBroadcast))
  {
    var input := "G@" + name + ":" + text;
    var head := "G@" + name;
    assert input == head + [':'] + text;
    assert ':' !in head by {
      assert head == ['G', '@'] + name;
    }
    SplitFirstOf(head, ':', text);
    assert input[0] == 'G' && input[1] == '@';
    assert input != "ip" && input != "clear" && input != "exit" by {
      assert "ip"[0] == 'i' && "clear"[0] == 'c' && "exit"[0] == 'e';
    }
    assert !IsMessageRequest(input);
    assert GroupHandle([]) + input == input;
    assert IsGroupMessageRequest(input);
    assert head[2..] == name;
    assert GroupMessage(input, username) == Some(Message(Status, username, name, text, GroupBroadcast));
  }

  /** A response as printed: a command reply shows its text alone, anything else "<sender>: text". */
  function Display(message: Message): (r: string)
    ensures message.messageType == Command ==> r == message.text
    ensures message.messageType != Command ==>
      |r| == |message.sender| + |message.text| + 4 
      && r[..|message.sender| + 2] == "<" + message.sender + ">"
      && r[|message.sender| + 2..|message.sender| + 4] == ": "
      && r[|r| - |message.text|..] == message.text
  {
    if message.messageType == Command then message.text
    else "<" + message.sender + ">: " + message.text
  }

  class ChatClient {
    /** The group the server last reported for this client; "" outside a group. */
    var group: string
    /** The command names received at registration. */
    var commands: seq<string>
    /** The envelopes written to the server, oldest first. */
    var sent: seq<Message>

    constructor()
      ensures group == [] && commands == [] && sent == []
    {
      group := [];
      commands := [];
      sent := [];
    }

    /**
     * Takes in the command listing read after registration: a zero-size read
     * fails the session; a listing that decodes to null adds nothing.
     */
    method ReceiveCommandListing(size: nat, listing: Option<seq<string>>) returns (ok: bool)
      modifies this`commands
      ensures ok <==> size != 0
      ensures commands == if ok && listing.Some? then old(commands) + listing.value else old(commands)
    {
      if size == 0 {
        return false;
      }
      if listing.Some? {
        commands := commands + listing.value;
      }
      return true;
    }

    /** One pass of the prompt loop's write half: classify the line and write the envelope, if any. */
    method HandleInput(username: string, input: string) returns (action: Action)
      modifies this`sent
      ensures action == Classify(input, group, commands, username)
      ensures sent == if action.Send? then old(sent) + [action.message] else old(sent)
    {
      action := Classify(input, group, commands, username);
      if action.Send? {
        sent := sent + [action.message];
      }
    }

    /**
     * One pass of the prompt loop's read half: a zero-size read is skipped;
     * otherwise the message is shown and the client adopts the response's group.
     */
    method ReceiveResponse(size: nat, response: ServerResponse) returns (shown: Option<string>)
      modifies this`group
      ensures size == 0 ==> shown == None && group == old(group)
      ensures size != 0 ==> shown == Some(Display(response.message)) && group == response.group
    {
      if size == 0 {
        return None;
      }
      shown := Some(Display(response.message));
      group := response.group;
    }
  }
}
