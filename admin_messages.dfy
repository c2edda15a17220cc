/**
 * The admin messages page: the fetched list of messages, the search over
 * it, the unread count, marking a message read when it is opened, and
 * deleting one after confirmation. The PATCH and DELETE requests are
 * parameters: how the server answered.
 */
module AdminMessages {
  import opened Wrappers
  import opened Text
  import opened Seqs

  /** A message as the page receives it; `_id` is a string here. */
  datatype Entry = Entry(
    id: string,
    name: string,
    email: string,
    body: string,
    read: bool,
    reply: Option<string>,
    createdAt: string)

  /** The search: the query, ignoring case, occurs in the sender's name, email or message. */
  predicate Matches(m: Entry, query: string) {
    IncludesIgnoringCase(m.name, query) || IncludesIgnoringCase(m.email, query) || IncludesIgnoringCase(m.body, query)
  }

  /**
   * `filteredMessages`: exactly the messages that match, in their
   * original order.
   */
  function FilterMessages(msgs: seq<Entry>, query: string): (r: seq<Entry>)
    ensures SubsequenceOf(r, msgs)
    ensures forall m :: m in r <==> m in msgs && Matches(m, query)
  {
    var p := m => Matches(m, query);
    FilterIsSubsequence(msgs, p);
    forall m ensures m in Filter(msgs, p) <==> m in msgs && p(m) {
      FilterMember(msgs, p, m);
    }
    Filter(msgs, p)
  }

  /** An empty search shows every message. */
  lemma EmptyQueryKeepsAll(msgs: seq<Entry>)
    ensures FilterMessages(msgs, "") == msgs
  {
    var p := m => Matches(m, "");
    forall k | 0 <= k < |msgs| ensures p(msgs[k]) {
      EmptyQueryIncluded(msgs[k].name);
    }
    FilterAll(msgs, p);
  }

  predicate IsUnread(m: Entry) { !m.read }

  /** `unreadCount`: the number of messages not yet read, never more than the total. */
  function UnreadCount(msgs: seq<Entry>): (n: nat)
    ensures n <= |msgs|
  {
    |Filter(msgs, IsUnread)|
  }

  /** The count is zero exactly when every message has been read. */
  lemma NoUnreadIff(msgs: seq<Entry>)
    ensures UnreadCount(msgs) == 0 <==> forall k :: 0 <= k < |msgs| ==> msgs[k].read
  {
    var unread := Filter(msgs, IsUnread);
    if k :| 0 <= k < |msgs| && !msgs[k].read {
      assert msgs[k] in unread;
    }
    if unread != [] {
      var k :| 0 <= k < |msgs| && msgs[k] == unread[0];
    }
  }

  /**
   * `prevMessages.map(msg => msg._id === id ? { ...msg, read } : msg)`:
   * every message with that id gets the flag; the others, and the order,
   * stay as they were.
   */
  function SetRead(msgs: seq<Entry>, id: string, read: bool): (r: seq<Entry>)
    ensures |r| == |msgs|
    ensures forall k :: 0 <= k < |msgs| && msgs[k].id == id ==> r[k] == msgs[k].(read := read)
    ensures forall k :: 0 <= k < |msgs| && msgs[k].id != id ==> r[k] == msgs[k]
    decreases |msgs|
  {
    if msgs == [] then []
    else [if msgs[0].id == id then msgs[0].(read := read) else msgs[0]] + SetRead(msgs[1..], id, read)
  }

  /** Setting the same flag again changes nothing more. */
  lemma SetReadIdempotent(msgs: seq<Entry>, id: string, read: bool)
    ensures SetRead(SetRead(msgs, id, read), id, read) == SetRead(msgs, id, read)
  {
  }

  /** Marking a message read never raises the unread count, and lowers it when that message was unread. */
  lemma {:induction false} MarkReadLowersUnread(msgs: seq<Entry>, id: string)
    ensures UnreadCount(SetRead(msgs, id, true)) <= UnreadCount(msgs)
    ensures (exists k :: 0 <= k < |msgs| && msgs[k].id == id && !msgs[k].read) ==>
      UnreadCount(SetRead(msgs, id, true)) < UnreadCount(msgs)
    decreases |msgs|
  {
    if msgs != [] {
      var r := SetRead(msgs, id, true);
      MarkReadLowersUnread(msgs[1..], id);
      assert r[1..] == SetRead(msgs[1..], id, true);
      assert Filter(r, IsUnread) == (if IsUnread(r[0]) then [r[0]] else []) + Filter(r[1..], IsUnread);
      if k :| 0 <= k < |msgs| && msgs[k].id == id && !msgs[k].read {
        if k > 0 {
          assert msgs[1..][k - 1] == msgs[k];
        }
      }
    }
  }

  /** `messages.filter(m => m._id !== id)`: no message with that id is left; the others stay, in order. */
  function RemoveId(msgs: seq<Entry>, id: string): (r: seq<Entry>)
    ensures SubsequenceOf(r, msgs)
    ensures forall m :: m in r <==> m in msgs && m.id != id
  {
    var p := (m: Entry) => m.id != id;
    FilterIsSubsequence(msgs, p);
    forall m ensures m in Filter(msgs, p) <==> m in msgs && p(m) {
      FilterMember(msgs, p, m);
    }
    Filter(msgs, p)
  }

  /** How the server answered a request the page sent. */
  datatype Answer = Ok | NotOk | NetworkFailure

  /** The page's state. */
  class MessagesPage {
    var messages: seq<Entry>
    var isLoading: bool
    var searchQuery: string
    var selectedMessage: Option<Entry>
    var isOverlayOpen: bool
    var deleteDialogOpen: bool
    var messageToDelete: Option<Entry>

    constructor ()
      ensures messages == [] && isLoading && searchQuery == ""
      ensures selectedMessage.None? && !isOverlayOpen && !deleteDialogOpen && messageToDelete.None?
    {
      messages := [];
      isLoading := true;
      searchQuery := "";
      selectedMessage := None;
      isOverlayOpen := false;
      deleteDialogOpen := false;
      messageToDelete := None;
    }

    /** `fetchMessages`: the list the server returned, if it answered; loading ends either way. */
    method FetchMessages(fetched: Option<seq<Entry>>)
      modifies this
      ensures messages == if fetched.Some? then fetched.value else old(messages)
      ensures !isLoading
      ensures unchanged(this`searchQuery, this`selectedMessage, this`isOverlayOpen)
      ensures unchanged(this`deleteDialogOpen, this`messageToDelete)
    {
      if fetched.Some? {
        messages := fetched.value;
      }
      isLoading := false;
    }

    /** The search box. */
    method SetSearchQuery(query: string)
      modifies this`searchQuery
      ensures searchQuery == query
    {
      searchQuery := query;
    }

    /**
     * `handleViewMessage`: the message is shown; when it was unread, a
     * PATCH is sent, and on an OK answer that message (in the list and in
     * the overlay) becomes read, while on a refusal it is set unread again.
     * An already read message sends nothing and leaves the list alone.
     */
    method ViewMessage(message: Entry, answer: Answer) returns (patched: bool)
      modifies this
      ensures patched == !message.read
      ensures isOverlayOpen
      ensures !patched || answer == NetworkFailure ==> messages == old(messages) && selectedMessage == Some(message)
      ensures patched && answer == Ok ==>
        messages == SetRead(old(messages), message.id, true) && selectedMessage == Some(message.(read := true))
      ensures patched && answer == NotOk ==>
        messages == SetRead(old(messages), message.id, false) && selectedMessage == Some(message.(read := false))
      ensures unchanged(this`isLoading, this`searchQuery, this`deleteDialogOpen, this`messageToDelete)
    {
      selectedMessage := Some(message);
      isOverlayOpen := true;
      patched := !message.read;
      if patched {
        match answer
        case Ok =>
          messages := SetRead(messages, message.id, true);
          selectedMessage := Some(message.(read := true));
        case NotOk =>
          messages := SetRead(messages, message.id, false);
          selectedMessage := Some(message.(read := false));
        case NetworkFailure =>
      }
    }

    /** `handleDeleteClick`: the message waits for confirmation. */
    method DeleteClick(message: Entry)
      modifies this`messageToDelete, this`deleteDialogOpen
      ensures messageToDelete == Some(message) && deleteDialogOpen
    {
      messageToDelete := Some(message);
      deleteDialogOpen := true;
    }

    /**
     * `handleDeleteConfirm`: with nothing pending it does nothing. Otherwise
     * an OK answer removes the messages with the pending id, any other
     * answer keeps the list; the dialog closes and nothing is pending after.
     */
    method DeleteConfirm(answer: Answer) returns (requested: bool)
      modifies this
      ensures requested == old(messageToDelete).Some?
      ensures !requested ==> unchanged(this)
      ensures requested && answer == Ok ==> messages == RemoveId(old(messages), old(messageToDelete).value.id)
      ensures requested && answer != Ok ==> messages == old(messages)
      ensures requested ==> !deleteDialogOpen && messageToDelete.None?
      ensures unchanged(this`isLoading, this`searchQuery, this`selectedMessage, this`isOverlayOpen)
    {
      if messageToDelete.None? {
        return false;
      }
      requested := true;
      if answer == Ok {
        messages := RemoveId(messages, messageToDelete.value.id);
      }
      deleteDialogOpen := false;
      messageToDelete := None;
    }

    /** `handleCloseOverlay`. */
    method CloseOverlay()
      modifies this`isOverlayOpen, this`selectedMessage
      ensures !isOverlayOpen && selectedMessage.None?
    {
      isOverlayOpen := false;
      selectedMessage := None;
    }
  }
}
