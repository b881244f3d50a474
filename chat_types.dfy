/** The record shapes of the chat client: a message, a contact and the decoded socket event.
    Timestamps are integer milliseconds since the epoch (a JavaScript `Date` reduced to `getTime()`). */
module ChatTypes {

  datatype Option<+T> = None | Some(value: T)

  /** One message of a conversation. `from` is the sender's display name, or "You" for outbound messages. */
  datatype ChatMessage = ChatMessage(from: string, message: string, timestamp: int)

  /** The aggregate display state of one conversation partner; `name` is the key. */
  datatype Contact = Contact(name: string, lastMessage: string, unreadCount: int, lastMessageTime: int)

  /** The payload `{ message: { from, message } }` of an inbound socket event, once decoded. */
  datatype IncomingEvent = IncomingEvent(from: string, message: string)
}
