/**
 * The Express API over the two collections: registrations (an array in
 * insertion order whose emails are unique) and messages (a map from id to
 * message). Every handler becomes a step function from the old store to an
 * outcome and the new store; `class Api` holds the store and runs them.
 */
module Server {
  import opened Wrappers
  import opened Text
  import opened Seqs
  import opened RegistrationModel
  import MessageModel

  type Message = MessageModel.Message

  /** The fields of a `POST /api/messages` body; `None` is an absent field. */
  datatype MessageBody = MessageBody(name: Option<string>, email: Option<string>, message: Option<string>)

  /** What a handler answers: one case per distinct response the source sends. */
  datatype Outcome =
    | DatabaseUnavailable
    | MissingRegistrationFields(fields: seq<string>)
    | EmailAlreadyRegistered
    | RegistrationInvalid(details: seq<string>)
    | RegistrationCreated(registration: Registration)
    | RegistrationList(registrations: seq<Registration>)
    | MessageFieldsRequired
    | MessageInvalid(details: seq<string>)
    | MessageCreated(message: Message)
    | MessageList(messages: seq<Message>)
    | MessageUpdated(message: Message)
    | MessageDeleted
    | MessageNotFound

  /** The HTTP status code of each outcome. */
  function Status(o: Outcome): int {
    match o
    case DatabaseUnavailable => 503
    case MissingRegistrationFields(_) => 400
    case EmailAlreadyRegistered => 400
    case RegistrationInvalid(_) => 400
    case MessageFieldsRequired => 400
    case MessageInvalid(_) => 400
    case MessageNotFound => 404
    case RegistrationCreated(_) => 201
    case MessageCreated(_) => 201
    case _ => 200
  }

  /** The `error` text of the response body, for the outcomes that carry one. */
  function ErrorText(o: Outcome): Option<string> {
    match o
    case DatabaseUnavailable => Some("Database not connected. Please try again later.")
    case MissingRegistrationFields(_) => Some("Missing required fields")
    case EmailAlreadyRegistered => Some("Email already registered")
    case RegistrationInvalid(_) => Some("Validation error")
    case MessageFieldsRequired => Some("Name, email, and message are required")
    case MessageInvalid(_) => Some("Validation error")
    case MessageNotFound => Some("Message not found")
    case _ => None
  }

  /** Every answer with an error text has a 4xx or 5xx status, and every other answer a 2xx one. */
  lemma ErrorsHaveErrorStatus(o: Outcome)
    ensures ErrorText(o).Some? <==> Status(o) >= 400
    ensures ErrorText(o).None? <==> 200 <= Status(o) < 300
  {
  }

  /** `new Registration({ ... })` from a request body: the setters applied to every path. */
  function ApplicantOf(body: map<Field, string>): (a: Applicant)
    ensures a.institution.Some? <==> Institution in body
  {
    Cast(
      FieldValue(body, FullName), FieldValue(body, Email), FieldValue(body, Phone),
      if Institution in body then Some(body[Institution]) else None,
      FieldValue(body, Address), FieldValue(body, City), FieldValue(body, State), FieldValue(body, ZipCode))
  }

  /**
   * The order of the checks in `POST /api/register`, given the request as
   * the handler has it: the blank required fields, the record the setters
   * produced, and the messages `validateSync()` reports for it.
   */
  function RegisterDecision(
    connected: bool, regs: seq<Registration>, id: nat,
    missing: seq<Field>, applicant: Applicant, errors: seq<string>, now: int)
    : (res: (Outcome, seq<Registration>))
    ensures res.1 == regs || (res.0.RegistrationCreated? && res.1 == regs + [res.0.registration])
  {
    if !connected then (DatabaseUnavailable, regs)
    else if missing != [] then (MissingRegistrationFields(FieldNames(missing)), regs)
    else if EmailTaken(regs, applicant.email) then (EmailAlreadyRegistered, regs)
    else if errors != [] then (RegistrationInvalid(errors), regs)
    else (RegistrationCreated(Registration(id, applicant, now)), regs + [Registration(id, applicant, now)])
  }

  /**
   * `POST /api/register`: the connection gate, the required-field check,
   * the duplicate-email lookup (with the query email cast like the stored
   * ones), schema validation, then the insert with `createdAt` = now.
   */
  function RegisterStep(connected: bool, regs: seq<Registration>, id: nat, body: map<Field, string>, now: int)
    : (res: (Outcome, seq<Registration>))
    ensures res.1 == regs || (res.0.RegistrationCreated? && res.1 == regs + [res.0.registration])
  {
    var applicant := ApplicantOf(body);
    RegisterDecision(connected, regs, id, MissingFields(body), applicant, ValidationErrors(applicant), now)
  }

  /**
   * The refusals come in order: 503 while disconnected, then 400 with the
   * missing field names, then 400 for an email already stored; none of
   * them changes the collection.
   */
  lemma RegisterRefusals(connected: bool, regs: seq<Registration>, id: nat, body: map<Field, string>, now: int)
    ensures !connected ==> RegisterStep(connected, regs, id, body, now) == (DatabaseUnavailable, regs)
    ensures connected && MissingFields(body) != [] ==>
      RegisterStep(connected, regs, id, body, now) == (MissingRegistrationFields(FieldNames(MissingFields(body))), regs)
    ensures connected && MissingFields(body) == [] && EmailTaken(regs, ApplicantOf(body).email) ==>
      RegisterStep(connected, regs, id, body, now) == (EmailAlreadyRegistered, regs)
  {
  }

  /** The decision stores a record exactly when every check passes, and a refusal for invalid data lists its messages. */
  lemma DecisionAcceptance(
    connected: bool, regs: seq<Registration>, id: nat,
    missing: seq<Field>, applicant: Applicant, errors: seq<string>, now: int)
    ensures var res := RegisterDecision(connected, regs, id, missing, applicant, errors, now);
      res.0.RegistrationCreated? <==> connected && missing == [] && !EmailTaken(regs, applicant.email) && errors == []
    ensures var res := RegisterDecision(connected, regs, id, missing, applicant, errors, now);
      res.0.RegistrationCreated? ==>
        res.0.registration == Registration(id, applicant, now) && res.1 == regs + [res.0.registration]
    ensures var res := RegisterDecision(connected, regs, id, missing, applicant, errors, now);
      res.0.RegistrationInvalid? ==> res.0.details == errors && errors != []
  {
  }

  /**
   * A registration is stored exactly when the database is connected, no
   * required field is blank, the normalised email is new and the schema
   * accepts the cast record; it is then appended with the given id and
   * time. A schema refusal lists the validators' messages.
   */
  lemma RegisterAcceptance(connected: bool, regs: seq<Registration>, id: nat, body: map<Field, string>, now: int)
    ensures var res := RegisterStep(connected, regs, id, body, now);
      res.0.RegistrationCreated? <==>
        connected && MissingFields(body) == [] && !EmailTaken(regs, ApplicantOf(body).email) && IsValid(ApplicantOf(body))
    ensures var res := RegisterStep(connected, regs, id, body, now);
      res.0.RegistrationCreated? ==>
        res.0.registration == Registration(id, ApplicantOf(body), now) && res.1 == regs + [res.0.registration]
    ensures var res := RegisterStep(connected, regs, id, body, now);
      res.0.RegistrationInvalid? ==> res.0.details == ValidationErrors(ApplicantOf(body)) && res.0.details != []
  {
    var applicant := ApplicantOf(body);
    ValidIffNoErrors(applicant);
    DecisionAcceptance(connected, regs, id, MissingFields(body), applicant, ValidationErrors(applicant), now);
  }

  /** Whatever the request, the decision keeps the stored emails unique. */
  lemma DecisionKeepsEmailsUnique(
    connected: bool, regs: seq<Registration>, id: nat,
    missing: seq<Field>, applicant: Applicant, errors: seq<string>, now: int)
    requires EmailsUnique(regs)
    ensures EmailsUnique(RegisterDecision(connected, regs, id, missing, applicant, errors, now).1)
  {
    var res := RegisterDecision(connected, regs, id, missing, applicant, errors, now);
    if res.0.RegistrationCreated? {
      AppendKeepsUnique(regs, res.0.registration);
    }
  }

  /** The unique index holds across every registration request. */
  lemma RegisterKeepsEmailsUnique(connected: bool, regs: seq<Registration>, id: nat, body: map<Field, string>, now: int)
    requires EmailsUnique(regs)
    ensures EmailsUnique(RegisterStep(connected, regs, id, body, now).1)
  {
    var applicant := ApplicantOf(body);
    DecisionKeepsEmailsUnique(connected, regs, id, MissingFields(body), applicant, ValidationErrors(applicant), now);
  }

  /** A registration whose normalised email is already stored is never stored a second time. */
  lemma DuplicateNeverStored(connected: bool, regs: seq<Registration>, id: nat, body: map<Field, string>, now: int)
    requires EmailTaken(regs, ApplicantOf(body).email)
    ensures RegisterStep(connected, regs, id, body, now).1 == regs
  {
  }

  /** JavaScript truthiness of a string-valued body field. */
  predicate Truthy(v: Option<string>) {
    v.Some? && v.value != ""
  }

  /** `Message.create({ name, email, message })` from a body that passed the presence check. */
  function MessageOf(id: nat, body: MessageBody, now: int): (m: Message)
    ensures m.id == id && !m.read && m.reply.None? && m.repliedAt.None?
    ensures m.createdAt == now && m.updatedAt == now
  {
    MessageModel.Create(id, body.name.GetOr(""), body.email.GetOr(""), body.message.GetOr(""), now)
  }

  /** The presence check of the handler: name, email and message are all truthy. */
  predicate AllPresent(body: MessageBody) {
    Truthy(body.name) && Truthy(body.email) && Truthy(body.message)
  }

  /**
   * The order of the checks in `POST /api/messages`, given the presence
   * check, the message `create` builds and the messages its validation
   * reports.
   */
  function PostMessageDecision(
    connected: bool, msgs: map<nat, Message>, id: nat, present: bool, m: Message, errors: seq<string>)
    : (res: (Outcome, map<nat, Message>))
    ensures res.1 == msgs || (res.0.MessageCreated? && res.1 == msgs[id := res.0.message])
  {
    if !connected then (DatabaseUnavailable, msgs)
    else if !present then (MessageFieldsRequired, msgs)
    else if errors != [] then (MessageInvalid(errors), msgs)
    else (MessageCreated(m), msgs[id := m])
  }

  /**
   * `POST /api/messages`: the connection gate, the presence check of name,
   * email and message, schema validation, then the insert with the
   * defaults. Existing messages play no part: emails need not be unique.
   */
  function PostMessageStep(connected: bool, msgs: map<nat, Message>, id: nat, body: MessageBody, now: int)
    : (res: (Outcome, map<nat, Message>))
    ensures res.1 == msgs || (res.0.MessageCreated? && res.1 == msgs[id := res.0.message])
  {
    var m := MessageOf(id, body, now);
    PostMessageDecision(connected, msgs, id, AllPresent(body), m, MessageModel.ValidationErrors(m))
  }

  /** 503 while disconnected, then 400 when a field is absent or empty; neither stores anything. */
  lemma PostMessageRefusals(connected: bool, msgs: map<nat, Message>, id: nat, body: MessageBody, now: int)
    ensures !connected ==> PostMessageStep(connected, msgs, id, body, now) == (DatabaseUnavailable, msgs)
    ensures connected && !AllPresent(body) ==> PostMessageStep(connected, msgs, id, body, now) == (MessageFieldsRequired, msgs)
  {
  }

  /**
   * A message is stored exactly when the database is connected, all three
   * fields are present and the schema accepts the created message; it is
   * stored under the given id with the defaults. A schema refusal lists
   * the validators' messages.
   */
  lemma PostMessageAcceptance(connected: bool, msgs: map<nat, Message>, id: nat, body: MessageBody, now: int)
    ensures var res := PostMessageStep(connected, msgs, id, body, now);
      res.0.MessageCreated? <==> connected && AllPresent(body) && MessageModel.IsValid(MessageOf(id, body, now))
    ensures var res := PostMessageStep(connected, msgs, id, body, now);
      res.0.MessageCreated? ==> res.0.message == MessageOf(id, body, now) && res.1 == msgs[id := res.0.message]
    ensures var res := PostMessageStep(connected, msgs, id, body, now);
      res.0.MessageInvalid? ==>
        res.0.details == MessageModel.ValidationErrors(MessageOf(id, body, now)) && res.0.details != []
  {
    MessageModel.ValidIffNoErrors(MessageOf(id, body, now));
  }

  /**
   * The email of a message is not unique: whether a message is accepted,
   * and what is stored, does not depend on the messages already there.
   */
  lemma MessageOutcomeIgnoresStore(connected: bool, msgs1: map<nat, Message>, msgs2: map<nat, Message>, id: nat, body: MessageBody, now: int)
    ensures PostMessageStep(connected, msgs1, id, body, now).0 == PostMessageStep(connected, msgs2, id, body, now).0
  {
  }

  /** Everything a message was created with: id, submitted fields and creation time. */
  predicate SameSubmission(a: Message, b: Message) {
    a.id == b.id && a.name == b.name && a.email == b.email && a.body == b.body && a.createdAt == b.createdAt
  }

  /**
   * `PATCH /api/messages/:id/read`: sets `read` on the addressed message
   * (and its `updatedAt`), or answers 404 and changes nothing. A body without
   * `read` (`None`) updates only `updatedAt`, because Mongoose strips an
   * `undefined` key from the update.
   */
  function MarkReadStep(msgs: map<nat, Message>, id: nat, read: Option<bool>, now: int): (res: (Outcome, map<nat, Message>))
    ensures id !in msgs ==> res == (MessageNotFound, msgs)
    ensures id in msgs ==> res.1.Keys == msgs.Keys && res.0 == MessageUpdated(res.1[id])
    ensures id in msgs && read.Some? ==> res.1[id].read == read.value
    ensures id in msgs && read.None? ==> res.1[id].read == msgs[id].read
    ensures id in msgs ==> res.1[id].updatedAt == now && SameSubmission(res.1[id], msgs[id])
    ensures id in msgs ==> res.1[id].reply == msgs[id].reply && res.1[id].repliedAt == msgs[id].repliedAt
    ensures forall k :: k in msgs && k != id ==> k in res.1 && res.1[k] == msgs[k]
  {
    if id !in msgs then (MessageNotFound, msgs)
    else
      var m := msgs[id].(read := read.GetOr(msgs[id].read), updatedAt := now);
      (MessageUpdated(m), msgs[id := m])
  }

  /** Marking a message twice with the same body (at the same time) is marking it once. */
  lemma {:induction false} MarkReadIdempotent(msgs: map<nat, Message>, id: nat, read: Option<bool>, now: int)
    ensures MarkReadStep(MarkReadStep(msgs, id, read, now).1, id, read, now) == MarkReadStep(msgs, id, read, now)
  {
    var once := MarkReadStep(msgs, id, read, now);
    if id in msgs {
      assert once.1[id].(read := read.GetOr(once.1[id].read), updatedAt := now) == once.1[id];
      assert once.1[id := once.1[id]] == once.1;
    }
  }

  /**
   * `POST /api/messages/:id/reply`: stores the reply and the reply time and
   * marks the message read, or answers 404 and changes nothing. A body
   * without `reply` (`None`) keeps the stored reply but still sets
   * `repliedAt` and `read`.
   */
  function ReplyStep(msgs: map<nat, Message>, id: nat, reply: Option<string>, now: int): (res: (Outcome, map<nat, Message>))
    ensures id !in msgs ==> res == (MessageNotFound, msgs)
    ensures id in msgs ==> res.1.Keys == msgs.Keys && res.0 == MessageUpdated(res.1[id])
    ensures id in msgs ==> res.1[id].read && res.1[id].repliedAt == Some(now)
    ensures id in msgs && reply.Some? ==> res.1[id].reply == reply
    ensures id in msgs && reply.None? ==> res.1[id].reply == msgs[id].reply
    ensures id in msgs ==> SameSubmission(res.1[id], msgs[id]) && res.1[id].updatedAt == now
    ensures forall k :: k in msgs && k != id ==> k in res.1 && res.1[k] == msgs[k]
  {
    if id !in msgs then (MessageNotFound, msgs)
    else
      var m := msgs[id].(reply := if reply.Some? then reply else msgs[id].reply,
                         repliedAt := Some(now), read := true, updatedAt := now);
      (MessageUpdated(m), msgs[id := m])
  }

  /** A reply forces `read`: the outcome is the same whatever the flag was before. */
  lemma ReplyIgnoresReadFlag(msgs: map<nat, Message>, id: nat, reply: Option<string>, now: int, before: bool)
    requires id in msgs
    ensures ReplyStep(msgs[id := msgs[id].(read := before)], id, reply, now) == ReplyStep(msgs, id, reply, now)
  {
    var flipped := msgs[id := msgs[id].(read := before)];
    assert ReplyStep(flipped, id, reply, now).1 == ReplyStep(msgs, id, reply, now).1;
  }

  /** `DELETE /api/messages/:id`: removes exactly the addressed message, or answers 404 and changes nothing. */
  function DeleteStep(msgs: map<nat, Message>, id: nat): (res: (Outcome, map<nat, Message>))
    ensures id !in msgs ==> res == (MessageNotFound, msgs)
    ensures id in msgs ==> res.0 == MessageDeleted && res.1.Keys == msgs.Keys - {id}
    ensures forall k :: k in res.1 ==> k in msgs && res.1[k] == msgs[k]
  {
    if id !in msgs then (MessageNotFound, msgs) else (MessageDeleted, msgs - {id})
  }

  function RegistrationTime(r: Registration): int { r.createdAt }

  function MessageTime(m: Message): int { m.createdAt }

  /** Every stored message sits under its own id. */
  predicate IdsMatch(msgs: map<nat, Message>) {
    forall k :: k in msgs ==> msgs[k].id == k
  }

  /** The messages with ids below `n`, in increasing id order: the collection's insertion order. */
  function InIdOrder(msgs: map<nat, Message>, n: nat): (r: seq<Message>)
    requires IdsMatch(msgs)
    ensures forall k :: 0 <= k < |r| ==> r[k].id < n && r[k].id in msgs && msgs[r[k].id] == r[k]
    ensures forall id :: id in msgs && id < n ==> msgs[id] in r
    ensures forall i, j :: 0 <= i < j < |r| ==> r[i].id < r[j].id
    decreases n
  {
    if n == 0 then []
    else InIdOrder(msgs, n - 1) + (if n - 1 in msgs then [msgs[n - 1]] else [])
  }

  /** Sorting the messages in insertion order loses none and adds none. */
  lemma ListingComplete(msgs: map<nat, Message>, n: nat)
    requires IdsMatch(msgs) && forall k :: k in msgs ==> k < n
    ensures var listed := SortNewestFirst(InIdOrder(msgs, n), MessageTime);
      forall k :: 0 <= k < |listed| ==> listed[k] in msgs.Values
    ensures var listed := SortNewestFirst(InIdOrder(msgs, n), MessageTime);
      forall id :: id in msgs ==> msgs[id] in listed
  {
    var stored := InIdOrder(msgs, n);
    var listed := SortNewestFirst(stored, MessageTime);
    forall k | 0 <= k < |listed| ensures listed[k] in msgs.Values {
      assert listed[k] in multiset(stored);
      var i :| 0 <= i < |stored| && stored[i] == listed[k];
      assert msgs[stored[i].id] == listed[k];
    }
    forall id | id in msgs ensures msgs[id] in listed {
      assert msgs[id] in multiset(stored);
    }
  }

  /** The registrations as the collection keeps them: valid, unique emails, ids increasing and below the counter. */
  ghost predicate RegistrationsConsistent(regs: seq<Registration>, nextId: nat) {
    && EmailsUnique(regs)
    && (forall i :: 0 <= i < |regs| ==> regs[i].id < nextId && IsValid(regs[i].applicant))
    && (forall i, j :: 0 <= i < j < |regs| ==> regs[i].id < regs[j].id)
  }

  /** The messages as the collection keeps them: valid, stored under their own ids, ids below the counter. */
  ghost predicate MessagesConsistent(msgs: map<nat, Message>, nextId: nat) {
    && IdsMatch(msgs)
    && (forall k :: k in msgs ==> k < nextId && MessageModel.IsValid(msgs[k]))
  }

  /** Appending a valid registration with a new email under the counter's id keeps the registrations consistent. */
  lemma {:induction false} AppendKeepsConsistent(regs: seq<Registration>, nextId: nat, r: Registration)
    requires RegistrationsConsistent(regs, nextId)
    requires r.id == nextId && IsValid(r.applicant) && !EmailTaken(regs, r.applicant.email)
    ensures RegistrationsConsistent(regs + [r], nextId + 1)
  {
    var rs := regs + [r];
    AppendKeepsUnique(regs, r);
    forall i | 0 <= i < |rs| ensures rs[i].id < nextId + 1 && IsValid(rs[i].applicant) {
      if i < |regs| {
        assert rs[i] == regs[i];
      }
    }
    forall i, j | 0 <= i < j < |rs| ensures rs[i].id < rs[j].id {
      assert rs[i] == regs[i];
      if j < |regs| {
        assert rs[j] == regs[j];
      }
    }
  }

  /** A record that passed validation, stored under the counter's id, keeps the registrations consistent. */
  lemma {:induction false} DecisionKeepsConsistent(
    connected: bool, regs: seq<Registration>, nextId: nat,
    missing: seq<Field>, applicant: Applicant, errors: seq<string>, now: int)
    requires RegistrationsConsistent(regs, nextId)
    requires errors == [] ==> IsValid(applicant)
    ensures RegistrationsConsistent(RegisterDecision(connected, regs, nextId, missing, applicant, errors, now).1, nextId + 1)
  {
    var res := RegisterDecision(connected, regs, nextId, missing, applicant, errors, now);
    if res.0.RegistrationCreated? {
      AppendKeepsConsistent(regs, nextId, res.0.registration);
    } else {
      assert res.1 == regs;
    }
  }

  /** Registering keeps the registrations consistent once the counter moves past the new id. */
  lemma RegisterKeepsConsistent(regs: seq<Registration>, nextId: nat, connected: bool, body: map<Field, string>, now: int)
    requires RegistrationsConsistent(regs, nextId)
    ensures RegistrationsConsistent(RegisterStep(connected, regs, nextId, body, now).1, nextId + 1)
  {
    var applicant := ApplicantOf(body);
    ValidIffNoErrors(applicant);
    DecisionKeepsConsistent(connected, regs, nextId, MissingFields(body), applicant, ValidationErrors(applicant), now);
  }

  /** Storing a valid message under the counter's id keeps the messages consistent. */
  lemma {:induction false} InsertKeepsConsistent(msgs: map<nat, Message>, nextId: nat, m: Message)
    requires MessagesConsistent(msgs, nextId)
    requires m.id == nextId && MessageModel.IsValid(m)
    ensures MessagesConsistent(msgs[nextId := m], nextId + 1)
  {
    var ms := msgs[nextId := m];
    forall k | k in ms ensures ms[k].id == k && k < nextId + 1 && MessageModel.IsValid(ms[k]) {
      if k != nextId {
        assert ms[k] == msgs[k];
      }
    }
  }

  /** Accepting only a message that passed validation, under the counter's id, keeps the messages consistent. */
  lemma {:induction false} PostDecisionKeepsConsistent(
    connected: bool, msgs: map<nat, Message>, nextId: nat, present: bool, m: Message, errors: seq<string>)
    requires MessagesConsistent(msgs, nextId)
    requires m.id == nextId && (errors == [] ==> MessageModel.IsValid(m))
    ensures MessagesConsistent(PostMessageDecision(connected, msgs, nextId, present, m, errors).1, nextId + 1)
  {
    var res := PostMessageDecision(connected, msgs, nextId, present, m, errors);
    if res.0.MessageCreated? {
      InsertKeepsConsistent(msgs, nextId, m);
    } else {
      assert res.1 == msgs;
    }
  }

  /** Posting a message keeps the messages consistent once the counter moves past the new id. */
  lemma PostMessageKeepsConsistent(msgs: map<nat, Message>, nextId: nat, connected: bool, body: MessageBody, now: int)
    requires MessagesConsistent(msgs, nextId)
    ensures MessagesConsistent(PostMessageStep(connected, msgs, nextId, body, now).1, nextId + 1)
  {
    var m := MessageOf(nextId, body, now);
    MessageModel.ValidIffNoErrors(m);
    PostDecisionKeepsConsistent(connected, msgs, nextId, AllPresent(body), m, MessageModel.ValidationErrors(m));
  }

  /** Changing only flags, reply and timestamps of one message keeps the messages consistent. */
  lemma {:induction false} ReplaceKeepsConsistent(msgs: map<nat, Message>, nextId: nat, id: nat, m: Message)
    requires MessagesConsistent(msgs, nextId)
    requires id in msgs && SameSubmission(m, msgs[id])
    ensures MessagesConsistent(msgs[id := m], nextId)
  {
    var ms := msgs[id := m];
    forall k | k in ms ensures ms[k].id == k && k < nextId && MessageModel.IsValid(ms[k]) {
      if k != id {
        assert ms[k] == msgs[k];
      } else {
        assert MessageModel.IsValid(msgs[id]);
      }
    }
  }

  /** The server: its connection flag, the two collections, and the id counter. */
  class Api {
    var isConnected: bool
    var registrations: seq<Registration>
    var messages: map<nat, Message>
    var nextId: nat

    ghost predicate Valid()
      reads this
    {
      RegistrationsConsistent(registrations, nextId) && MessagesConsistent(messages, nextId)
    }

    /** The server starts before the database connection succeeds, with empty collections. */
    constructor ()
      ensures Valid()
      ensures !isConnected && registrations == [] && messages == map[] && nextId == 0
    {
      isConnected := false;
      registrations := [];
      messages := map[];
      nextId := 0;
    }

    /** `connectDB()` succeeded: the flag the handlers consult is raised. */
    method ConnectDatabase()
      requires Valid()
      modifies this
      ensures Valid()
      ensures isConnected
      ensures unchanged(this`registrations, this`messages, this`nextId)
    {
      isConnected := true;
    }

    /**
     * `POST /api/register`: the body cast by the schema's setters and
     * validated (both pure), then the handler's checks in order.
     */
    method Register(body: map<Field, string>, now: int) returns (out: Outcome)
      requires Valid()
      modifies this
      ensures Valid()
      ensures (out, registrations) == RegisterStep(old(isConnected), old(registrations), old(nextId), body, now)
      ensures nextId == if out.RegistrationCreated? then old(nextId) + 1 else old(nextId)
      ensures unchanged(this`isConnected, this`messages)
    {
      var applicant := ApplicantOf(body);
      ValidIffNoErrors(applicant);
      out := CheckAndSave(MissingFields(body), applicant, ValidationErrors(applicant), now);
    }

    /**
     * The connection gate, the missing-field answer, the `findOne` on the
     * cast email, the validation answer, and `save()` under a fresh id.
     */
    method CheckAndSave(missing: seq<Field>, applicant: Applicant, errors: seq<string>, now: int) returns (out: Outcome)
      requires Valid()
      requires errors == [] ==> IsValid(applicant)
      modifies this
      ensures Valid()
      ensures (out, registrations) ==
        RegisterDecision(old(isConnected), old(registrations), old(nextId), missing, applicant, errors, now)
      ensures nextId == if out.RegistrationCreated? then old(nextId) + 1 else old(nextId)
      ensures unchanged(this`isConnected, this`messages)
    {
      if !isConnected {
        return DatabaseUnavailable;
      }
      if |missing| > 0 {
        return MissingRegistrationFields(FieldNames(missing));
      }
      if EmailTaken(registrations, applicant.email) {
        return EmailAlreadyRegistered;
      }
      if |errors| > 0 {
        return RegistrationInvalid(errors);
      }
      var record := Registration(nextId, applicant, now);
      AppendKeepsConsistent(registrations, nextId, record);
      registrations := registrations + [record];
      nextId := nextId + 1;
      out := RegistrationCreated(record);
    }

    /** `GET /api/registrations`: the whole collection, newest first. */
    method ListRegistrations() returns (out: Outcome)
      ensures !isConnected ==> out == DatabaseUnavailable
      ensures isConnected ==> out.RegistrationList?
      ensures isConnected ==> NewestFirst(out.registrations, RegistrationTime)
      ensures isConnected ==> multiset(out.registrations) == multiset(registrations)
    {
      if !isConnected {
        return DatabaseUnavailable;
      }
      out := RegistrationList(SortNewestFirst(registrations, RegistrationTime));
    }

    /** `POST /api/messages`: the message built and validated (both pure), then the handler's checks. */
    method PostMessage(body: MessageBody, now: int) returns (out: Outcome)
      requires Valid()
      modifies this
      ensures Valid()
      ensures (out, messages) == PostMessageStep(old(isConnected), old(messages), old(nextId), body, now)
      ensures nextId == if out.MessageCreated? then old(nextId) + 1 else old(nextId)
      ensures unchanged(this`isConnected, this`registrations)
    {
      var m := MessageOf(nextId, body, now);
      MessageModel.ValidIffNoErrors(m);
      out := CheckAndCreate(AllPresent(body), m, MessageModel.ValidationErrors(m));
    }

    /** The connection gate, the presence answer, the validation answer, and the insert under a fresh id. */
    method CheckAndCreate(present: bool, m: Message, errors: seq<string>) returns (out: Outcome)
      requires Valid()
      requires m.id == nextId && (errors == [] ==> MessageModel.IsValid(m))
      modifies this
      ensures Valid()
      ensures (out, messages) == PostMessageDecision(old(isConnected), old(messages), old(nextId), present, m, errors)
      ensures nextId == if out.MessageCreated? then old(nextId) + 1 else old(nextId)
      ensures unchanged(this`isConnected, this`registrations)
    {
      if !isConnected {
        return DatabaseUnavailable;
      }
      if !present {
        return MessageFieldsRequired;
      }
      if |errors| > 0 {
        return MessageInvalid(errors);
      }
      InsertKeepsConsistent(messages, nextId, m);
      messages := messages[nextId := m];
      nextId := nextId + 1;
      out := MessageCreated(m);
    }

    /** `GET /api/messages` (no connection gate): every stored message, newest first. */
    method ListMessages() returns (out: Outcome)
      requires Valid()
      ensures out.MessageList?
      ensures NewestFirst(out.messages, MessageTime)
      ensures forall k :: 0 <= k < |out.messages| ==> out.messages[k] in messages.Values
      ensures forall id :: id in messages ==> messages[id] in out.messages
      ensures multiset(out.messages) == multiset(InIdOrder(messages, nextId))
    {
      ListingComplete(messages, nextId);
      out := MessageList(SortNewestFirst(InIdOrder(messages, nextId), MessageTime));
    }

    /** `PATCH /api/messages/:id/read`. */
    method MarkRead(id: nat, read: Option<bool>, now: int) returns (out: Outcome)
      requires Valid()
      modifies this
      ensures Valid()
      ensures (out, messages) == MarkReadStep(old(messages), id, read, now)
      ensures unchanged(this`isConnected, this`registrations, this`nextId)
    {
      if id !in messages {
        return MessageNotFound;
      }
      var m := messages[id].(read := read.GetOr(messages[id].read), updatedAt := now);
      ReplaceKeepsConsistent(messages, nextId, id, m);
      messages := messages[id := m];
      out := MessageUpdated(m);
    }

    /** `DELETE /api/messages/:id`. */
    method Delete(id: nat) returns (out: Outcome)
      requires Valid()
      modifies this
      ensures Valid()
      ensures (out, messages) == DeleteStep(old(messages), id)
      ensures unchanged(this`isConnected, this`registrations, this`nextId)
    {
      if id !in messages {
        return MessageNotFound;
      }
      messages := messages - {id};
      out := MessageDeleted;
    }

    /** `POST /api/messages/:id/reply`. */
    method Reply(id: nat, reply: Option<string>, now: int) returns (out: Outcome)
      requires Valid()
      modifies this
      ensures Valid()
      ensures (out, messages) == ReplyStep(old(messages), id, reply, now)
      ensures unchanged(this`isConnected, this`registrations, this`nextId)
    {
      if id !in messages {
        return MessageNotFound;
      }
      var m := messages[id].(reply := if reply.Some? then reply else messages[id].reply,
                             repliedAt := Some(now), read := true, updatedAt := now);
      ReplaceKeepsConsistent(messages, nextId, id, m);
      messages := messages[id := m];
      out := MessageUpdated(m);
    }
  }
}
