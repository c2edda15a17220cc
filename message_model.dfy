/**
 * The message schema: trimmed `name`, `email` (also lower-cased and
 * matched against the registration pattern) and `message`, the `read`,
 * `reply` and `repliedAt` defaults, and automatic timestamps. The email is
 * indexed but not unique.
 */
module MessageModel {
  import opened Wrappers
  import opened Text
  import opened Validators
  import RegistrationModel

  /** A stored message; `body` is the `message` path, timestamps are milliseconds. */
  datatype Message = Message(
    id: nat,
    name: string,
    email: string,
    body: string,
    read: bool,
    reply: Option<string>,
    repliedAt: Option<int>,
    createdAt: int,
    updatedAt: int)

  const NameRequired := "Name is required"
  const EmailRequired := "Email is required"
  const EmailInvalid := "Please enter a valid email"
  const BodyRequired := "Message is required"

  /** `new Message({ name, email, message })` at time `now`: the setters and the defaults. */
  function Create(id: nat, name: string, email: string, body: string, now: int): (m: Message)
    ensures !m.read && m.reply.None? && m.repliedAt.None?
    ensures m.createdAt == now && m.updatedAt == now
    ensures m.name == Trim(name) && m.body == Trim(body)
  {
    Message(id, Trim(name), Lower(Trim(email)), Trim(body), false, None, None, now, now)
  }

  /** One optional error per path, in schema order. */
  function PathErrors(m: Message): seq<Option<string>> {
    [ RegistrationModel.RequiredError(m.name, NameRequired),
      RegistrationModel.PatternError(m.email, MatchesEmail(m.email), EmailRequired, EmailInvalid),
      RegistrationModel.RequiredError(m.body, BodyRequired) ]
  }

  /** The messages of the validation error `create` throws, or none. */
  function ValidationErrors(m: Message): seq<string> {
    RegistrationModel.Messages(PathErrors(m))
  }

  /** What the schema demands of a stored message. */
  predicate IsValid(m: Message) {
    m.name != [] && MatchesEmail(m.email) && m.body != []
  }

  /** Validation passes exactly when name and body are non-empty after trimming and the email matches. */
  lemma ValidIffNoErrors(m: Message)
    ensures ValidationErrors(m) == [] <==> IsValid(m)
  {
    var e := PathErrors(m);
    RegistrationModel.MessagesEmptyIff(e);
    assert (forall k :: 0 <= k < |e| ==> e[k].None?) <==> e[0].None? && e[1].None? && e[2].None?;
  }
}
