/**
 * The wire envelope. `Message` is an immutable positional record in the
 * source, so a datatype: its fields read back what was constructed, equality
 * is structural, and forwarding a value cannot alter it.
 */
module Messages {

  /** The three kinds of envelope; the server's `default:` branch is `SingleReceiver`. */
  datatype MessageType = Command | SingleReceiver | GroupBroadcast

  datatype Message = Message(status: int, sender: string, receiver: string, text: string, messageType: MessageType)

  /** The protocol version tag every envelope carries. */
  const Status := 1

  /** The receiver name a client puts on a command; also the sender name of every command reply. */
  const ServerName := "SERVER"

  /**
   * What the server writes to a client: the envelope together with the
   * recipient's current group, from which the client refreshes its own.
   */
  datatype ServerResponse = ServerResponse(status: int, message: Message, group: string)

  /** What a command handler returns. */
  datatype CommandResult = CommandResult(result: bool, text: string)
}
