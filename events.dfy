/**
 * What the relay sends back through the realtime transport. Each outbound
 * event carries its destination: every connected client (`io.emit`) or one
 * socket (`io.to(id).emit`, or `socket.emit` for the socket that raised the
 * event being handled).
 */
module Events {
  /** A transport-assigned connection id; the transport never hands out an empty one. */
  type SocketId = s: string | s != "" witness "0"

  type Username = string

  datatype Dest = Everyone | Socket(id: SocketId)

  /** The body of `receiveMessage` and `messageSent`. */
  datatype Payload = Payload(from: string, to: string, message: string, timestamp: string)

  datatype Event =
    | UserList(names: seq<Username>)
    | ReceiveMessage(payload: Payload)
    | MessageSent(payload: Payload)
    | Error(text: string)

  datatype Emit = Emit(dest: Dest, event: Event)
}
