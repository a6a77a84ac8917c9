/**
 * The messaging handlers, all behind the session middleware: the sidebar's
 * list of other users, the conversation between the caller and one other
 * user, and sending a message.
 */
module MessageController {
  import opened Wrappers
  import opened Js
  import opened Store
  import opened Externals
  import opened Http

  const UserIdRequired: string := "User ID is required"

  /** The sidebar's filter `{ _id: { $ne: me } }`: it rejects exactly the users with id `me`. */
  function NotUser(me: Id): User -> bool {
    (u: User) => u.id != me
  }

  /**
   * The users the sidebar lists, in store order: every user but the caller,
   * each as often as the store holds it.
   */
  function OtherUsers(users: seq<User>, me: Id): (r: seq<User>)
    ensures forall u :: u in r <==> u in users && u.id != me
  {
    var r := Filter(users, NotUser(me));
    assert forall u :: u in r <==> u in users && u.id != me by {
      forall u ensures u in r <==> u in users && u.id != me {
        FilterMembers(users, NotUser(me), u);
      }
    }
    r
  }

  /**
   * The public projections of some users, one per user, in order: each
   * carries its user's id and none carries a password.
   */
  function Profiles(us: seq<User>): (r: seq<Json>)
    ensures |r| == |us| && forall i :: 0 <= i < |us| ==> r[i] == PublicProfile(us[i])
    ensures forall i :: 0 <= i < |us| ==> r[i].JObj? && "_id" in r[i].fields && r[i].fields["_id"] == JId(us[i].id)
    ensures forall j :: j in r ==> !HasKey(j, "password")
  {
    seq(|us|, i requires 0 <= i < |us| => PublicProfile(us[i]))
  }

  /**
   * GET /api/messages. The reply lists the public projection of every user
   * whose id is not the caller's, and only of those; no entry has a password.
   */
  function GetUsersForSidebar(users: seq<User>, env: Env, caller: User): (res: Response)
    ensures res.cookies == []
    ensures Fails(env, QueryUsers) ==> res == ServerError()
    ensures !Fails(env, QueryUsers) ==>
      && res.status == 200 && res.body.JArr?
      && res.body.items == Profiles(OtherUsers(users, caller.id))
      && (forall u :: u in users && u.id != caller.id ==> PublicProfile(u) in res.body.items)
      && (forall j :: j in res.body.items ==> exists u :: u in users && u.id != caller.id && j == PublicProfile(u))
      && (forall j :: j in res.body.items ==> !HasKey(j, "password"))
  {
    if Fails(env, QueryUsers) then ServerError()
    else
      SidebarShowsOthers(users, caller.id);
      Response(200, JArr(Profiles(OtherUsers(users, caller.id))), [])
  }

  /**
   * The sidebar's listing holds the projection of every user but `me`, and
   * nothing else; no entry has a password.
   */
  lemma SidebarShowsOthers(users: seq<User>, me: Id)
    ensures var items := Profiles(OtherUsers(users, me));
      && (forall u :: u in users && u.id != me ==> PublicProfile(u) in items)
      && (forall j :: j in items ==> exists u :: u in users && u.id != me && j == PublicProfile(u))
      && (forall j :: j in items ==> !HasKey(j, "password"))
  {
    var others := OtherUsers(users, me);
    var items := Profiles(others);
    forall u | u in users && u.id != me ensures PublicProfile(u) in items {
      var k :| 0 <= k < |others| && others[k] == u;
      assert items[k] == PublicProfile(u);
    }
    forall j | j in items ensures exists u :: u in users && u.id != me && j == PublicProfile(u) {
      var k :| 0 <= k < |items| && items[k] == j;
      assert others[k] in others;
    }
  }

  /**
   * The message runs from `a` to `b` or from `b` to `a`: it has a receiver,
   * and its two ends are the pair `{a, b}`, whatever their order.
   */
  predicate Between(m: Message, a: Id, b: Id)
    ensures Between(m, a, b) <==> m.receiverId.Some? && {m.senderId, m.receiverId.value} == {a, b}
  {
    (m.senderId == a && m.receiverId == Some(b)) || (m.senderId == b && m.receiverId == Some(a))
  }

  /** The conversation query's filter, `$or` of the two directions: it keeps a message exactly when its ends are `{a, b}`. */
  function InConversation(a: Id, b: Id): (keep: Message -> bool)
    ensures forall m :: keep(m) <==> m.receiverId.Some? && {m.senderId, m.receiverId.value} == {a, b}
  {
    (m: Message) => Between(m, a, b)
  }

  /** The messages between `a` and `b`, in store order; no sort is applied. */
  function Conversation(messages: seq<Message>, a: Id, b: Id): (r: seq<Message>)
    ensures forall m :: m in r <==> m in messages && Between(m, a, b)
  {
    var r := Filter(messages, InConversation(a, b));
    assert forall m :: m in r <==> m in messages && Between(m, a, b) by {
      forall m ensures m in r <==> m in messages && Between(m, a, b) {
        FilterMembers(messages, InConversation(a, b), m);
      }
    }
    r
  }

  /** Either side asking lists the same messages in the same order. */
  lemma ConversationSymmetric(messages: seq<Message>, a: Id, b: Id)
    ensures Conversation(messages, a, b) == Conversation(messages, b, a)
  {
    FilterSameSelection(messages, InConversation(a, b), InConversation(b, a));
  }

  /** A store without repeated messages gives a conversation without repeated messages. */
  lemma ConversationNoDuplicates(messages: seq<Message>, a: Id, b: Id)
    requires NoDuplicates(messages)
    ensures NoDuplicates(Conversation(messages, a, b))
  {
    FilterKeepsNoDuplicates(messages, InConversation(a, b));
  }

  /**
   * The listing keeps store order: cut the store anywhere, and the
   * conversation is that of the part before the cut followed by that of
   * the part after it.
   */
  lemma ConversationKeepsStoreOrder(messages: seq<Message>, k: nat, a: Id, b: Id)
    requires k <= |messages|
    ensures Conversation(messages, a, b) == Conversation(messages[..k], a, b) + Conversation(messages[k..], a, b)
  {
    assert messages == messages[..k] + messages[k..];
    FilterAppend(messages[..k], messages[k..], InConversation(a, b));
  }

  /** A message appended to the store comes last in the conversation it belongs to, and is absent from every other. */
  lemma ConversationAfterAppend(messages: seq<Message>, m: Message, a: Id, b: Id)
    ensures Conversation(messages + [m], a, b) ==
      Conversation(messages, a, b) + (if Between(m, a, b) then [m] else [])
  {
    FilterAppend(messages, [m], InConversation(a, b));
    assert [m][1..] == [];
  }

  /**
   * The conversation as the endpoint sends it: each message with its
   * references populated, in order, keeping its id, its text and its image.
   */
  function MessageViews(users: seq<User>, ms: seq<Message>): (r: seq<Json>)
    ensures |r| == |ms| && forall i :: 0 <= i < |ms| ==> r[i] == MessageView(users, ms[i])
    ensures forall i :: 0 <= i < |ms| ==>
      && r[i].JObj? && "_id" in r[i].fields && "image" in r[i].fields
      && r[i].fields["_id"] == JId(ms[i].id)
      && ("text" in r[i].fields <==> ms[i].text.Some?)
      && (ms[i].text.Some? ==> r[i].fields["text"] == JStr(ms[i].text.value))
      && r[i].fields["image"] == if ms[i].image.Some? then JStr(ms[i].image.value) else JNull
  {
    seq(|ms|, i requires 0 <= i < |ms| => MessageView(users, ms[i]))
  }

  /**
   * GET /api/messages/:userId. A missing `userId` is a 400 before any query;
   * otherwise the reply lists every message between the caller and that
   * user and no other, in store order.
   */
  function GetMessagesForUser(users: seq<User>, messages: seq<Message>, env: Env, caller: User, userId: Option<Id>)
    : (res: Response)
    ensures res.cookies == []
    ensures userId.None? ==> res == Reply(400, UserIdRequired)
    ensures userId.Some? && Fails(env, QueryMessages) ==> res == ServerError()
    ensures userId.Some? && !Fails(env, QueryMessages) ==>
      && res.status == 200 && res.body.JArr?
      && res.body.items == MessageViews(users, Conversation(messages, caller.id, userId.value))
      && (forall m :: m in messages && Between(m, caller.id, userId.value) ==> MessageView(users, m) in res.body.items)
      && (forall j :: j in res.body.items ==>
            exists m :: m in messages && Between(m, caller.id, userId.value) && j == MessageView(users, m))
  {
    if userId.None? then Reply(400, UserIdRequired)
    else if Fails(env, QueryMessages) then ServerError()
    else
      ListingShowsConversation(users, messages, caller.id, userId.value);
      Response(200, JArr(MessageViews(users, Conversation(messages, caller.id, userId.value))), [])
  }

  /** The listing for `a` and `b` holds the view of every message between them, and nothing else. */
  lemma ListingShowsConversation(users: seq<User>, messages: seq<Message>, a: Id, b: Id)
    ensures var items := MessageViews(users, Conversation(messages, a, b));
      && (forall m :: m in messages && Between(m, a, b) ==> MessageView(users, m) in items)
      && (forall j :: j in items ==> exists m :: m in messages && Between(m, a, b) && j == MessageView(users, m))
  {
    var conversation := Conversation(messages, a, b);
    var items := MessageViews(users, conversation);
    forall m | m in messages && Between(m, a, b) ensures MessageView(users, m) in items {
      var k :| 0 <= k < |conversation| && conversation[k] == m;
      assert items[k] == MessageView(users, m);
    }
    forall j | j in items ensures exists m :: m in messages && Between(m, a, b) && j == MessageView(users, m) {
      var k :| 0 <= k < |items| && items[k] == j;
      assert conversation[k] in conversation;
    }
  }

  /**
   * In a store whose messages have distinct ids, the listing never shows a
   * message twice: the views' ids are pairwise different.
   */
  lemma ListingNoDuplicates(users: seq<User>, messages: seq<Message>, env: Env, caller: User, other: Id)
    requires MessageIdsDistinct(messages)
    requires !Fails(env, QueryMessages)
    ensures var items := GetMessagesForUser(users, messages, env, caller, Some(other)).body.items;
      forall i, j :: 0 <= i < j < |items| ==> items[i].fields["_id"] != items[j].fields["_id"]
  {
    var conversation := Conversation(messages, caller.id, other);
    var items := MessageViews(users, conversation);
    DistinctIdsNoDuplicates(messages);
    ConversationNoDuplicates(messages, caller.id, other);
    forall i, j | 0 <= i < j < |items|
      ensures items[i].fields["_id"] != items[j].fields["_id"]
    {
      assert conversation[i] != conversation[j];
      assert conversation[i] in conversation && conversation[j] in conversation;
      DistinctIdsSeparateMessages(messages, conversation[i], conversation[j]);
    }
  }

  /**
   * The body of POST /api/messages. `claimedSender` stands for any sender
   * the client writes into the body; the handler never reads it.
   */
  datatype SendRequest = SendRequest(receiverId: Option<Id>, text: Field, image: Field, claimedSender: Option<Id>)

  /**
   * POST /api/messages. With an image, the handler cuts the data URL and
   * then calls `uploadImage`, which this controller never imports: the
   * reference throws, the reply is 500 and nothing is written. Without one,
   * exactly one message is appended, sent by the caller whatever the body
   * claims, to the given receiver with the given text and a null image; the
   * earlier messages stay as they were, and the id counter moves on by one.
   * The `populate` chain on the saved document decides between 201 and 500,
   * the message being saved either way; where it does not throw it has
   * populated nothing, so the 201 body is the message with raw ids.
   */
  method SendMessage(db: Database, env: Env, caller: User, req: SendRequest) returns (res: Response)
    requires db.Valid()
    modifies db
    ensures db.Valid()
    ensures !Missing(req.image) ==> res == ServerError() && unchanged(db)
    ensures Missing(req.image) && Fails(env, SaveDocument) ==> res == ServerError() && unchanged(db)
    ensures Missing(req.image) && !Fails(env, SaveDocument) ==>
      var m := Message(old(db.nextId), caller.id, req.receiverId, req.text, None);
      && db.messages == old(db.messages) + [m]
      && db.users == old(db.users) && db.nextId == old(db.nextId) + 1
      && res == if Fails(env, PopulateMessage) then ServerError() else Response(201, MessageDocument(m), [])
  {
    var imageUrl: Option<string> := None;
    if !Missing(req.image) {
      // `image.split(";base64,").pop()` and `Buffer.from` run; the call to the unbound `uploadImage` throws.
      return ServerError();
    }
    if Fails(env, SaveDocument) {
      return ServerError();
    }
    var m := db.SaveMessage(caller.id, req.receiverId, req.text, imageUrl);
    if Fails(env, PopulateMessage) {
      return ServerError();
    }
    res := Response(201, MessageDocument(m), []);
  }

  /**
   * What sending stores, listing returns: once a text message from `sender`
   * to `receiver` is appended, the receiver's listing of the conversation
   * ends with it, populated, carrying the same text and no image.
   */
  lemma SentMessageIsListed(users: seq<User>, messages: seq<Message>, env: Env,
                            sender: User, receiver: User, id: Id, text: string)
    requires !Fails(env, QueryMessages)
    ensures var m := Message(id, sender.id, Some(receiver.id), Some(text), None);
      var res := GetMessagesForUser(users, messages + [m], env, receiver, Some(sender.id));
      && res.status == 200
      && |res.body.items| > 0
      && var last := res.body.items[|res.body.items| - 1];
         last == MessageView(users, m)
         && last.fields["text"] == JStr(text) && last.fields["image"] == JNull
  {
    var m := Message(id, sender.id, Some(receiver.id), Some(text), None);
    ConversationAfterAppend(messages, m, receiver.id, sender.id);
  }
}
