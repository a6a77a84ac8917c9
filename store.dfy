/**
 * The document store the controllers talk to, reduced to what they use of
 * it: the `users` collection as a sequence of records, the `messages`
 * collection as an append-only sequence, and the queries the handlers issue
 * (`find` with a filter, `findOne` by email, `findById`, `findByIdAndUpdate`,
 * `save`), together with the `-password` projection.
 */
module Store {
  import opened Wrappers
  import opened Js

  /** A document id. Ids are drawn from one counter, so no two documents share one. */
  type Id = nat

  /** A user document. `password` holds the bcrypt hash, never the plaintext. */
  datatype User = User(id: Id, fullName: string, email: string, password: string, profilePic: string)

  /**
   * A message document. `receiverId` and `text` are what the request carried
   * (absent when it carried nothing); `image` is null when the message has none.
   */
  datatype Message = Message(id: Id, senderId: Id, receiverId: Option<Id>, text: Option<string>, image: Option<string>)

  /** The avatar a new user starts with. */
  const DefaultProfilePic: string := ""

  /**
   * The elements of `s` that `keep` accepts, in the order `s` has them: a
   * `find` with a filter. Each accepted element occurs as often as in `s`,
   * so the result repeats nothing the store does not repeat.
   */
  function Filter<T>(s: seq<T>, keep: T -> bool): (r: seq<T>)
    ensures |r| <= |s|
  {
    if s == [] then []
    else
      var rest := Filter(s[1..], keep);
      if keep(s[0]) then [s[0]] + rest else rest
  }

  /** Each element occurs in the filtered sequence as often as in `s` when `keep` accepts it, and never otherwise. */
  lemma {:induction false} FilterCounts<T>(s: seq<T>, keep: T -> bool, x: T)
    ensures multiset(Filter(s, keep))[x] == if keep(x) then multiset(s)[x] else 0
  {
    if s != [] {
      assert s == [s[0]] + s[1..];
      FilterCounts(s[1..], keep, x);
    }
  }

  /** The filtered sequence holds exactly the elements of `s` that `keep` accepts. */
  lemma FilterMembers<T>(s: seq<T>, keep: T -> bool, x: T)
    ensures x in Filter(s, keep) <==> x in s && keep(x)
  {
    FilterCounts(s, keep, x);
  }

  /** Filtering a concatenation filters each part: the store's order survives the query. */
  lemma {:induction false} FilterAppend<T>(a: seq<T>, b: seq<T>, keep: T -> bool)
    ensures Filter(a + b, keep) == Filter(a, keep) + Filter(b, keep)
  {
    if a == [] {
      assert a + b == b;
    } else {
      var head := if keep(a[0]) then [a[0]] else [];
      assert (a + b)[0] == a[0];
      assert (a + b)[1..] == a[1..] + b;
      FilterAppend(a[1..], b, keep);
      assert Filter(a + b, keep) == head + Filter(a[1..] + b, keep);
      assert Filter(a, keep) == head + Filter(a[1..], keep);
    }
  }

  /** Two filters that accept the same elements select the same subsequence. */
  lemma {:induction false} FilterSameSelection<T>(s: seq<T>, p: T -> bool, q: T -> bool)
    requires forall x :: x in s ==> p(x) == q(x)
    ensures Filter(s, p) == Filter(s, q)
  {
    if s != [] {
      FilterSameSelection(s[1..], p, q);
    }
  }

  /** No element occurs twice in `s`. */
  predicate NoDuplicates<T(==)>(s: seq<T>) {
    forall i, j :: 0 <= i < j < |s| ==> s[i] != s[j]
  }

  /** A sequence without duplicates holds each of its elements exactly once. */
  lemma {:induction false} NoDuplicatesCountsOnce<T>(s: seq<T>, x: T)
    requires NoDuplicates(s)
    ensures multiset(s)[x] == if x in s then 1 else 0
  {
    if s != [] {
      assert s == [s[0]] + s[1..];
      NoDuplicatesCountsOnce(s[1..], x);
    }
  }

  /** A sequence that holds each element at most once has no duplicates. */
  lemma CountsAtMostOnceNoDuplicates<T>(s: seq<T>)
    requires forall x :: multiset(s)[x] <= 1
    ensures NoDuplicates(s)
  {
    forall i, j | 0 <= i < j < |s|
      ensures s[i] != s[j]
    {
      var x := s[i];
      assert s == s[..i] + [s[i]] + s[i + 1..j] + [s[j]] + s[j + 1..];
      assert multiset(s)[x] >= multiset([s[i]])[x] + multiset([s[j]])[x];
    }
  }

  /** Filtering a sequence without duplicates gives one without duplicates. */
  lemma FilterKeepsNoDuplicates<T>(s: seq<T>, keep: T -> bool)
    requires NoDuplicates(s)
    ensures NoDuplicates(Filter(s, keep))
  {
    forall x
      ensures multiset(Filter(s, keep))[x] <= 1
    {
      NoDuplicatesCountsOnce(s, x);
      FilterCounts(s, keep, x);
    }
    CountsAtMostOnceNoDuplicates(Filter(s, keep));
  }

  /** No two messages share an id. */
  predicate MessageIdsDistinct(messages: seq<Message>) {
    forall i, j :: 0 <= i < j < |messages| ==> messages[i].id != messages[j].id
  }

  /** Two different messages of a store with distinct ids have different ids. */
  lemma DistinctIdsSeparateMessages(messages: seq<Message>, m1: Message, m2: Message)
    requires MessageIdsDistinct(messages)
    requires m1 in messages && m2 in messages && m1 != m2
    ensures m1.id != m2.id
  {
    var p :| 0 <= p < |messages| && messages[p] == m1;
    var q :| 0 <= q < |messages| && messages[q] == m2;
    if p < q {
    } else {
      assert q < p;
    }
  }

  /** Distinct ids make distinct messages: a store never holds one message twice. */
  lemma DistinctIdsNoDuplicates(messages: seq<Message>)
    requires MessageIdsDistinct(messages)
    ensures NoDuplicates(messages)
  {
  }

  /** Some user in `users` has this email. */
  predicate EmailTaken(users: seq<User>, email: string) {
    exists u :: u in users && u.email == email
  }

  /** `User.findOne({ email })`: the first user with that email, or null. */
  function FindByEmail(users: seq<User>, email: string): (r: Option<User>)
    ensures r.Some? ==> r.value in users && r.value.email == email
    ensures r.None? <==> !EmailTaken(users, email)
  {
    if users == [] then None
    else if users[0].email == email then Some(users[0])
    else FindByEmail(users[1..], email)
  }

  /** `User.findById(id)`: the first user with that id, or null. */
  function FindById(users: seq<User>, id: Id): (r: Option<User>)
    ensures r.Some? ==> r.value in users && r.value.id == id
    ensures r.None? <==> forall u :: u in users ==> u.id != id
  {
    if users == [] then None
    else if users[0].id == id then Some(users[0])
    else FindById(users[1..], id)
  }

  /** No two users share an id. */
  predicate UniqueIds(users: seq<User>) {
    forall i, j :: 0 <= i < j < |users| ==> users[i].id != users[j].id
  }

  /** No two users share an email: what the unique index on `email` guarantees. */
  predicate UniqueEmails(users: seq<User>) {
    forall i, j :: 0 <= i < j < |users| ==> users[i].email != users[j].email
  }

  /** A user other than the one with id `id` has this email. */
  predicate EmailHeldByOther(users: seq<User>, email: string, id: Id) {
    exists u :: u in users && u.email == email && u.id != id
  }

  /** Appending a user with a new email makes `findOne({ email })` find that user. */
  lemma {:induction false} FindByEmailAfterAppend(users: seq<User>, u: User)
    requires !EmailTaken(users, u.email)
    ensures FindByEmail(users + [u], u.email) == Some(u)
  {
    if users == [] {
      assert users + [u] == [u];
    } else {
      assert (users + [u])[1..] == users[1..] + [u];
      assert users[0] in users;
      FindByEmailAfterAppend(users[1..], u);
    }
  }

  /** When ids are unique, `findById` returns the one user that has the id. */
  lemma {:induction false} FindByIdUnique(users: seq<User>, i: nat)
    requires i < |users|
    requires UniqueIds(users)
    ensures FindById(users, users[i].id) == Some(users[i])
  {
    if i > 0 {
      FindByIdUnique(users[1..], i - 1);
    }
  }

  /** When emails are unique, `findOne({ email })` returns the one user that has the email. */
  lemma {:induction false} FindByEmailUnique(users: seq<User>, i: nat)
    requires i < |users|
    requires UniqueEmails(users)
    ensures FindByEmail(users, users[i].email) == Some(users[i])
  {
    if i > 0 {
      FindByEmailUnique(users[1..], i - 1);
    }
  }

  /** The public projection of a user (`select("-password")`): every stored field but the hash. */
  function PublicProfile(u: User): (j: Json)
    ensures j.JObj? && j.fields.Keys == {"_id", "fullName", "email", "profilePic"}
    ensures !HasKey(j, "password")
    ensures j.fields["_id"] == JId(u.id) && j.fields["fullName"] == JStr(u.fullName)
    ensures j.fields["email"] == JStr(u.email) && j.fields["profilePic"] == JStr(u.profilePic)
  {
    JObj(map["_id" := JId(u.id), "fullName" := JStr(u.fullName), "email" := JStr(u.email),
             "profilePic" := JStr(u.profilePic)])
  }

  /** A populated reference: the referenced user's public projection, or null when it is gone. */
  function Populate(users: seq<User>, id: Id): (j: Json)
    ensures j == JNull <==> FindById(users, id).None?
    ensures j != JNull ==> j.JObj? && !HasKey(j, "password") && "_id" in j.fields && j.fields["_id"] == JId(id)
    ensures FindById(users, id).Some? ==> j == PublicProfile(FindById(users, id).value)
  {
    match FindById(users, id)
    case None => JNull
    case Some(u) => PublicProfile(u)
  }

  /** The keys a serialised message has: a field the document does not hold is not serialised. */
  function MessageKeys(m: Message): set<string> {
    {"_id", "senderId", "image"}
      + (if m.receiverId.Some? then {"receiverId"} else {})
      + (if m.text.Some? then {"text"} else {})
  }

  /**
   * A message with both references populated, as the message endpoints send
   * it. A field the document does not hold is not serialised.
   */
  function MessageView(users: seq<User>, m: Message): (j: Json)
    ensures j.JObj? && j.fields.Keys == MessageKeys(m) && !HasKey(j, "password")
    ensures j.fields["_id"] == JId(m.id)
    ensures j.fields["senderId"] == Populate(users, m.senderId)
    ensures m.receiverId.Some? ==> j.fields["receiverId"] == Populate(users, m.receiverId.value)
    ensures "receiverId" in j.fields <==> m.receiverId.Some?
    ensures "text" in j.fields <==> m.text.Some?
    ensures m.text.Some? ==> j.fields["text"] == JStr(m.text.value)
    ensures j.fields["image"] == if m.image.Some? then JStr(m.image.value) else JNull
  {
    var base := map["_id" := JId(m.id), "senderId" := Populate(users, m.senderId),
                    "image" := if m.image.Some? then JStr(m.image.value) else JNull];
    var withReceiver := if m.receiverId.Some? then base["receiverId" := Populate(users, m.receiverId.value)] else base;
    JObj(if m.text.Some? then withReceiver["text" := JStr(m.text.value)] else withReceiver)
  }

  /**
   * A saved message serialised as it stands, its references left as raw ids.
   * A field the document does not hold is not serialised.
   */
  function MessageDocument(m: Message): (j: Json)
    ensures j.JObj? && j.fields.Keys == MessageKeys(m) && !HasKey(j, "password")
    ensures j.fields["_id"] == JId(m.id) && j.fields["senderId"] == JId(m.senderId)
    ensures "receiverId" in j.fields <==> m.receiverId.Some?
    ensures m.receiverId.Some? ==> j.fields["receiverId"] == JId(m.receiverId.value)
    ensures "text" in j.fields <==> m.text.Some?
    ensures m.text.Some? ==> j.fields["text"] == JStr(m.text.value)
    ensures j.fields["image"] == if m.image.Some? then JStr(m.image.value) else JNull
  {
    var base := map["_id" := JId(m.id), "senderId" := JId(m.senderId),
                    "image" := if m.image.Some? then JStr(m.image.value) else JNull];
    var withReceiver := if m.receiverId.Some? then base["receiverId" := JId(m.receiverId.value)] else base;
    JObj(if m.text.Some? then withReceiver["text" := JStr(m.text.value)] else withReceiver)
  }

  /**
   * Populating changes only the two references: the view of a message has
   * the keys of the unpopulated document and agrees with it everywhere else.
   */
  lemma ViewPopulatesDocument(users: seq<User>, m: Message)
    ensures MessageView(users, m).fields.Keys == MessageDocument(m).fields.Keys
    ensures forall k :: k in MessageDocument(m).fields && k != "senderId" && k != "receiverId" ==>
      MessageView(users, m).fields[k] == MessageDocument(m).fields[k]
  {
    var view, doc := MessageView(users, m).fields, MessageDocument(m).fields;
    forall k | k in doc && k != "senderId" && k != "receiverId"
      ensures view[k] == doc[k]
    {
      assert k == "_id" || k == "image" || k == "text";
    }
  }

  /**
   * The users after `findByIdAndUpdate(id, { fullName, email, profilePic })`:
   * the user with that id takes the new name and email, and the new avatar
   * when one was given (an undefined value leaves the field as it was).
   */
  function SetProfile(users: seq<User>, id: Id, fullName: string, email: string, pic: Option<string>): (r: seq<User>)
    ensures |r| == |users|
    ensures forall i :: 0 <= i < |users| ==> r[i].id == users[i].id
    ensures forall i :: 0 <= i < |users| && users[i].id != id ==> r[i] == users[i]
    ensures forall i :: 0 <= i < |users| && users[i].id == id ==>
      && r[i].id == id && r[i].password == users[i].password
      && r[i].fullName == fullName && r[i].email == email
      && r[i].profilePic == (if pic.Some? then pic.value else users[i].profilePic)
  {
    seq(|users|, i requires 0 <= i < |users| =>
      if users[i].id == id
      then users[i].(fullName := fullName, email := email,
                     profilePic := if pic.Some? then pic.value else users[i].profilePic)
      else users[i])
  }

  /** Updating one user's profile keeps ids unique, and emails too when the new one is not another user's. */
  lemma SetProfileKeepsUnique(users: seq<User>, id: Id, fullName: string, email: string, pic: Option<string>)
    requires UniqueIds(users) && UniqueEmails(users)
    requires !EmailHeldByOther(users, email, id)
    ensures var r := SetProfile(users, id, fullName, email, pic);
      UniqueIds(r) && UniqueEmails(r)
  {
    var r := SetProfile(users, id, fullName, email, pic);
    forall i, j | 0 <= i < j < |r|
      ensures r[i].email != r[j].email
    {
      if users[i].id == id {
        assert users[j] in users;
      } else if users[j].id == id {
        assert users[i] in users;
      }
    }
  }

  /** After the update, `findById` on the updated id returns the user with the new name and email. */
  lemma SetProfileFindsUpdated(users: seq<User>, id: Id, fullName: string, email: string, pic: Option<string>)
    requires UniqueIds(users)
    requires FindById(users, id).Some?
    ensures var found := FindById(SetProfile(users, id, fullName, email, pic), id);
      found.Some? && found.value.fullName == fullName && found.value.email == email
  {
    var r := SetProfile(users, id, fullName, email, pic);
    var i :| 0 <= i < |users| && users[i] == FindById(users, id).value;
    assert UniqueIds(r);
    FindByIdUnique(r, i);
  }

  /** Every user id was issued before the counter reached `n`. */
  predicate UsersBelow(users: seq<User>, n: Id) {
    forall i :: 0 <= i < |users| ==> users[i].id < n
  }

  /** The update keeps every id, so ids issued below `n` stay below it. */
  lemma SetProfileKeepsUsersBelow(users: seq<User>, id: Id, fullName: string, email: string, pic: Option<string>, n: Id)
    requires UsersBelow(users, n)
    ensures UsersBelow(SetProfile(users, id, fullName, email, pic), n)
  {
  }

  /** The store's guarantees on its users: ids issued below `n`, unique ids and unique emails. */
  predicate UsersValid(users: seq<User>, n: Id) {
    UsersBelow(users, n) && UniqueIds(users) && UniqueEmails(users)
  }

  /**
   * An update of an existing user to an email no other user holds keeps the
   * users' guarantees, and `findById` then returns the user with the new
   * name and email.
   */
  lemma SetProfileKeepsUsersValid(users: seq<User>, id: Id, fullName: string, email: string, pic: Option<string>, n: Id)
    requires UsersValid(users, n)
    requires FindById(users, id).Some? && !EmailHeldByOther(users, email, id)
    ensures var r := SetProfile(users, id, fullName, email, pic);
      && UsersValid(r, n)
      && FindById(r, id).Some? && FindById(r, id).value.fullName == fullName && FindById(r, id).value.email == email
  {
    SetProfileKeepsUnique(users, id, fullName, email, pic);
    SetProfileFindsUpdated(users, id, fullName, email, pic);
    SetProfileKeepsUsersBelow(users, id, fullName, email, pic, n);
  }

  /**
   * The database: both collections and the id counter. `Valid` holds the
   * store's guarantees: ids are unique and below the counter, and the
   * unique index on `email` admits no two users with one email.
   */
  class Database {
    var users: seq<User>
    var messages: seq<Message>
    var nextId: Id

    ghost predicate Valid()
      reads this
    {
      && UsersValid(users, nextId)
      && (forall i :: 0 <= i < |messages| ==> messages[i].id < nextId)
      && MessageIdsDistinct(messages)
    }

    constructor ()
      ensures Valid() && users == [] && messages == []
    {
      users, messages, nextId := [], [], 0;
    }

    /**
     * `new User({ fullName, email, password }).save()`. The unique index on
     * `email` rejects a second user with a taken email and nothing is written.
     */
    method SaveUser(fullName: string, email: string, password: string) returns (saved: Option<User>)
      requires Valid()
      modifies this
      ensures Valid()
      ensures EmailTaken(old(users), email) ==> saved.None? && unchanged(this)
      ensures !EmailTaken(old(users), email) ==>
        && saved == Some(User(old(nextId), fullName, email, password, DefaultProfilePic))
        && users == old(users) + [saved.value]
        && messages == old(messages) && nextId == old(nextId) + 1
    {
      if exists u :: u in users && u.email == email {
        return None;
      }
      var u := User(nextId, fullName, email, password, DefaultProfilePic);
      users := users + [u];
      nextId := nextId + 1;
      saved := Some(u);
    }

    /**
     * `User.findByIdAndUpdate(id, { fullName, email, profilePic }, { new: true })`:
     * null, with nothing written, when no user has the id; when the new email
     * belongs to another user the unique index makes it throw (duplicate key),
     * modelled as null because the handler answers 500 either way; otherwise
     * the updated user.
     */
    method FindByIdAndUpdate(id: Id, fullName: string, email: string, pic: Option<string>) returns (updated: Option<User>)
      requires Valid()
      modifies this
      ensures Valid()
      ensures FindById(old(users), id).None? || EmailHeldByOther(old(users), email, id) ==>
        updated.None? && unchanged(this)
      ensures FindById(old(users), id).Some? && !EmailHeldByOther(old(users), email, id) ==>
        && users == SetProfile(old(users), id, fullName, email, pic)
        && updated == FindById(users, id)
        && updated.Some? && updated.value.fullName == fullName && updated.value.email == email
        && messages == old(messages) && nextId == old(nextId)
    {
      if FindById(users, id).None? || EmailHeldByOther(users, email, id) {
        return None;
      }
      SetProfileKeepsUsersValid(users, id, fullName, email, pic, nextId);
      users := SetProfile(users, id, fullName, email, pic);
      updated := FindById(users, id);
    }

    /** `new Message({ ... }).save()`: appends one message under a fresh id. */
    method SaveMessage(senderId: Id, receiverId: Option<Id>, text: Option<string>, image: Option<string>)
      returns (m: Message)
      requires Valid()
      modifies this
      ensures Valid()
      ensures m == Message(old(nextId), senderId, receiverId, text, image)
      ensures messages == old(messages) + [m]
      ensures users == old(users) && nextId == old(nextId) + 1
    {
      m := Message(nextId, senderId, receiverId, text, image);
      messages := messages + [m];
      nextId := nextId + 1;
    }
  }
}
