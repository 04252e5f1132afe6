/** Values exchanged between the chat server, its connections and the identity
    service: patches broadcast to clients, handler errors, and the answers of
    the identity service, which the model receives as inputs. */
module Protocol {

  datatype Option<+T> = None | Some(value: T)

  /** Account ids handed out by the identity service. They are positive, so a
      set `userId` is always truthy in the server's checks. */
  type UserId = n: nat | 0 < n witness 1

  /** A timestamp taken with `new Date()`; the model treats it as an input. */
  type Time = int

  /** `{$ref: ['usersById', id]}`: a reference to a user node of the graph. */
  datatype Ref = UsersById(id: UserId)

  /** The object appended by `messages: {$push: ...}`. `system` false stands
      for the key being absent (ordinary chat messages carry no flag). */
  datatype Message = Message(from: Ref, at: Time, system: bool, content: string)

  /** A broadcast patch: an optional `messages.$push` and an optional
      `users.$set` holding the presence list. */
  datatype Delta = Delta(messages: Option<Message>, users: Option<seq<Ref>>)

  /** One `socket.send(event, delta)` to the socket registered under `to`. */
  datatype Delivery = Delivery(to: nat, event: string, delta: Delta)

  /** A snapshot of one registered connection: its registry id, its session
      key ("" while unset) and its user id (None while unauthenticated). */
  datatype Conn = Conn(id: nat, key: string, userId: Option<UserId>)

  /** The patch `auth!` hands back to its caller:
      `{key: {$set: key}, userId: {$set: userId}}`. */
  datatype Session = Session(key: string, userId: UserId)

  /** Errors a route handler throws: `AUTH_FAILED` ("Authentication
      Failed"), `AUTH_REQUIRED` ("Authentication Required"), or an error
      raised by the identity service or while reading its answer, passed
      through unchanged with its message. */
  datatype HandlerError = AuthFailed | AuthRequired | ServiceError(message: string)

  /** The result of a route handler: a value, or the error it threw. */
  datatype Outcome<+T> = Ok(value: T) | Fail(error: HandlerError)

  /** Answer of `GET /keys/me {key}`: the owner of the key, or the error the
      request raised, including the `TypeError` raised by an answer that
      lacks `data` or `data.target`. */
  datatype KeyAnswer = KeyOwner(id: UserId) | KeyRejected(message: string)

  /** Parameters of `POST /authentication/login`. */
  datatype LoginRequest = LoginRequest(username: string, password: string, communityId: int, deviceInfo: string)

  /** Answer of `POST /authentication/login`: a session key, a rejected
      request, or a successful response without `data`, whose reading raises
      a `TypeError` with the given message. */
  datatype LoginAnswer =
    | LoginKey(key: string)
    | LoginRejected(message: string)
    | LoginMalformed(message: string)

  /** Every broadcast is sent as the `pave` event. */
  const PaveEvent := "pave"
  const JoinedText := "joined the chat."
  const LeftText := "left the chat."
  const CommunityId := 2
  const DeviceInfo := "Pave Demo"
}
