/** The relay router of the bot: the `mappings` table (user id -> forum
    topic id), the get-or-create step run for a private message, and the
    routing decision run for a message posted in the admin group. */
module Router {
  import opened Wrappers
  import Decimal

  /** The configuration read from the environment at start-up. */
  datatype Config = Config(groupId: int, adminId: int)

  /** The value an unset ADMIN_ID takes. */
  const DEFAULT_ADMIN_ID: int := 0

  /** The `mappings` table: user_id is the primary key, topic_id the thread
      of that user's forum topic inside the group. */
  type Store = map<int, int>

  /** A private (non-command) message from an end user. */
  datatype PrivateMessage = PrivateMessage(fromId: int, fullName: string, chatId: int, messageId: int)

  /** A message posted in a group; `threadId` is absent or 0 in the general topic. */
  datatype GroupMessage = GroupMessage(chatId: int, threadId: Option<int>, fromId: int, messageId: int)

  /** The platform calls a handler makes, in the order it makes them. */
  datatype Action =
    | CreateTopic(chatId: int, name: string)
    | Copy(chatId: int, fromChatId: int, messageId: int, threadId: Option<int>)

  /** The store after a private message, and the calls made while handling it. */
  datatype Step = Step(store: Store, actions: seq<Action>)

  /** No two users share a topic. */
  ghost predicate Injective(store: Store) {
    forall u, v :: u in store && v in store && u != v ==> store[u] != store[v]
  }

  /** What the platform returned for a new topic is fresh: it is only looked
      at when the sender has no topic, and then no user may hold it yet. */
  ghost predicate FreshTopic(store: Store, user: int, created: int) {
    user !in store ==> forall u :: u in store ==> store[u] != created
  }

  // ---------------------------------------------------------------- topic names

  /** The fixed start of every topic name. */
  const TOPIC_PREFIX: string := "Message from "

  /** The name given to a user's topic: "Message from {full name} ({id})". */
  function TopicName(fullName: string, userId: int): (r: string)
    ensures |r| > |TOPIC_PREFIX| + |fullName| + 2
    ensures r[..|TOPIC_PREFIX|] == TOPIC_PREFIX
    ensures r[|TOPIC_PREFIX| .. |TOPIC_PREFIX| + |fullName|] == fullName
    ensures r[|TOPIC_PREFIX| + |fullName| .. |TOPIC_PREFIX| + |fullName| + 2] == " ("
    ensures r[|r| - 1] == ')'
    ensures r[|TOPIC_PREFIX| + |fullName| + 2 .. |r| - 1] == Decimal.IntToString(userId)
    ensures Decimal.ParseInt(r[|TOPIC_PREFIX| + |fullName| + 2 .. |r| - 1]) == Some(userId)
  {
    Decimal.IntToStringRoundTrip(userId);
    TOPIC_PREFIX + fullName + " (" + Decimal.IntToString(userId) + ")"
  }

  /** Index of the last occurrence of `c` in `s`. */
  function LastIndexOf(s: string, c: char): (r: Option<nat>)
    ensures r.Some? ==> r.value < |s| && s[r.value] == c
    ensures r.Some? ==> forall k :: r.value < k < |s| ==> s[k] != c
    ensures r.None? ==> forall k :: 0 <= k < |s| ==> s[k] != c
  {
    if s == [] then None
    else if s[|s| - 1] == c then Some(|s| - 1)
    else LastIndexOf(s[..|s| - 1], c)
  }

  /** Reads the user id back out of a topic name: the integer between the
      last '(' and the closing ')' at the end. */
  function TopicOwner(name: string): Option<int> {
    if |name| > 0 && name[|name| - 1] == ')' then
      match LastIndexOf(name[..|name| - 1], '(')
      case Some(k) => Decimal.ParseInt(name[k + 1 .. |name| - 1])
      case None => None
    else None
  }

  /** The topic name identifies the user it was created for, whatever the
      user's full name contains (parentheses included). */
  lemma TopicNameNamesOwner(fullName: string, userId: int)
    ensures TopicOwner(TopicName(fullName, userId)) == Some(userId)
  {
    var head := TOPIC_PREFIX + fullName + " ";
    var digits := Decimal.IntToString(userId);
    var name := TopicName(fullName, userId);
    assert name == head + "(" + digits + ")";
    var body := name[..|name| - 1];
    assert body == head + "(" + digits;
    assert body[|head|] == '(';
    var r := LastIndexOf(body, '(');
    assert r == Some(|head|) by {
      assert forall k :: |head| < k < |body| ==> body[k] == digits[k - |head| - 1];
    }
    assert name[|head| + 1 .. |name| - 1] == digits;
    Decimal.IntToStringRoundTrip(userId);
  }

  // ---------------------------------------------------------------- lookups

  /** `SELECT topic_id FROM mappings WHERE user_id = ?`, first row. */
  function TopicOf(store: Store, user: int): (r: Option<int>)
    ensures r.Some? <==> user in store
    ensures r.Some? ==> r.value == store[user] && UserOf(store, r.value).Some?
  {
    if user in store then Some(store[user]) else None
  }

  /** A finite set of integers holding `w` has a least element. */
  lemma {:induction false} LeastExists(s: set<int>, w: int)
    requires w in s
    ensures exists m :: m in s && forall x :: x in s ==> m <= x
    decreases |s|
  {
    if !forall x :: x in s ==> w <= x {
      var y :| y in s && y < w;
      LeastExists(s - {w}, y);
      var m :| m in s - {w} && forall x :: x in s - {w} ==> m <= x;
      assert m <= y < w;
      forall x | x in s
        ensures m <= x
      {
        if x != w {
          assert x in s - {w};
        }
      }
    }
  }

  /** Some user holding `topic` has the least user id among its holders. */
  lemma LeastHolderExists(store: Store, topic: int)
    requires exists u :: u in store && store[u] == topic
    ensures exists u :: u in store && store[u] == topic &&
                        forall v :: v in store && store[v] == topic ==> u <= v
  {
    var w :| w in store && store[w] == topic;
    var holders := set u | u in store && store[u] == topic;
    LeastExists(holders, w);
    var m :| m in holders && forall x :: x in holders ==> m <= x;
    assert forall v :: v in store && store[v] == topic ==> v in holders;
  }

  /** `SELECT user_id FROM mappings WHERE topic_id = ?`, first row. topic_id
      is not unique; with no index on it the table is scanned in primary-key
      order, so the first row is the least user id holding the topic. */
  function UserOf(store: Store, topic: int): (r: Option<int>)
    ensures r.None? <==> forall u :: u in store ==> store[u] != topic
    ensures r.Some? ==> r.value in store && store[r.value] == topic
    ensures r.Some? ==> forall u :: u in store && store[u] == topic ==> r.value <= u
  {
    if exists u :: u in store && store[u] == topic then
      LeastHolderExists(store, topic);
      var u :| u in store && store[u] == topic && forall v :: v in store && store[v] == topic ==> u <= v;
      Some(u)
    else None
  }

  /** Under injectivity the reverse lookup finds exactly the topic's owner. */
  lemma UserOfOwner(store: Store, user: int)
    requires Injective(store) && user in store
    ensures UserOf(store, store[user]) == Some(user)
  {
  }

  // ---------------------------------------------------------------- private messages

  /** handle_private_message: reuse the sender's topic, or create one (the
      platform answers with `created`) and insert the pair; then copy the
      message into the group under that topic. */
  function PrivateStep(cfg: Config, store: Store, msg: PrivateMessage, created: int): (r: Step)
    ensures msg.fromId in r.store
    ensures r.store.Keys == store.Keys + {msg.fromId}
    ensures forall u :: u in store ==> r.store[u] == store[u]
    ensures msg.fromId !in store ==> r.store[msg.fromId] == created
    ensures |r.actions| > 0
    ensures r.actions[|r.actions| - 1]
         == Copy(cfg.groupId, msg.chatId, msg.messageId, Some(r.store[msg.fromId]))
    ensures msg.fromId in store <==> |r.actions| == 1
    ensures msg.fromId !in store ==> |r.actions| == 2
    ensures msg.fromId !in store ==>
              r.actions[0] == CreateTopic(cfg.groupId, TopicName(msg.fullName, msg.fromId))
  {
    match TopicOf(store, msg.fromId)
    case Some(topic) =>
      Step(store, [Copy(cfg.groupId, msg.chatId, msg.messageId, Some(topic))])
    case None =>
      Step(store[msg.fromId := created],
           [CreateTopic(cfg.groupId, TopicName(msg.fullName, msg.fromId)),
            Copy(cfg.groupId, msg.chatId, msg.messageId, Some(created))])
  }

  /** A sender who already has a topic: nothing is created and nothing stored. */
  lemma ExistingTopicReused(cfg: Config, store: Store, msg: PrivateMessage, created: int)
    requires msg.fromId in store
    ensures PrivateStep(cfg, store, msg, created).store == store
    ensures PrivateStep(cfg, store, msg, created).actions
         == [Copy(cfg.groupId, msg.chatId, msg.messageId, Some(store[msg.fromId]))]
  {
  }

  /** Fresh topic ids keep the table injective. */
  lemma PrivateStepKeepsInjective(cfg: Config, store: Store, msg: PrivateMessage, created: int)
    requires Injective(store) && FreshTopic(store, msg.fromId, created)
    ensures Injective(PrivateStep(cfg, store, msg, created).store)
  {
  }

  // ---------------------------------------------------------------- group replies

  /** handle_group_reply: the copy sent back to a user, or None when the
      message is discarded. Python's `not topic_id` holds for an absent
      thread id and for thread 0, the general topic. */
  function GroupReply(cfg: Config, store: Store, msg: GroupMessage): (r: Option<Action>)
    ensures r.None? <==>
              || msg.chatId != cfg.groupId
              || msg.threadId == None || msg.threadId == Some(0)
              || msg.fromId != cfg.adminId
              || forall u :: u in store ==> store[u] != msg.threadId.value
    ensures r.Some? ==>
              && r.value.Copy?
              && r.value.chatId in store
              && store[r.value.chatId] == msg.threadId.value
              && r.value.fromChatId == cfg.groupId
              && r.value.messageId == msg.messageId
              && r.value.threadId.None?
  {
    if msg.chatId != cfg.groupId then None
    else if msg.threadId.None? || msg.threadId.value == 0 then None
    else if msg.fromId != cfg.adminId then None
    else match UserOf(store, msg.threadId.value)
      case None => None
      case Some(user) => Some(Copy(user, msg.chatId, msg.messageId, None))
  }

  /** With ADMIN_ID left at its default, no real user (Telegram user ids are
      positive) can get a reply relayed. */
  lemma DefaultAdminRelaysNothing(groupId: int, store: Store, msg: GroupMessage)
    requires msg.fromId > 0
    ensures GroupReply(Config(groupId, DEFAULT_ADMIN_ID), store, msg) == None
  {
  }

  /** Round trip: after U's private message, an admin reply posted in U's
      topic is copied to U, and only to U. */
  lemma RoundTrip(cfg: Config, store: Store, msg: PrivateMessage, created: int, reply: GroupMessage)
    requires Injective(store) && FreshTopic(store, msg.fromId, created)
    requires reply.chatId == cfg.groupId && reply.fromId == cfg.adminId
    requires reply.threadId == Some(PrivateStep(cfg, store, msg, created).store[msg.fromId])
    requires reply.threadId.value != 0
    ensures GroupReply(cfg, PrivateStep(cfg, store, msg, created).store, reply)
         == Some(Copy(msg.fromId, cfg.groupId, reply.messageId, None))
  {
    var after := PrivateStep(cfg, store, msg, created).store;
    PrivateStepKeepsInjective(cfg, store, msg, created);
    UserOfOwner(after, msg.fromId);
  }

  // ---------------------------------------------------------------- sessions

  /** A private message together with the topic id the platform would return
      if one had to be created for it. */
  datatype Event = Event(msg: PrivateMessage, created: int)

  /** The table after handling `events` in order, one at a time. */
  function Replay(cfg: Config, store: Store, events: seq<Event>): (r: Store)
    ensures r.Keys == store.Keys + Senders(events)
    decreases |events|
  {
    if events == [] then store
    else Replay(cfg, PrivateStep(cfg, store, events[0].msg, events[0].created).store, events[1..])
  }

  /** Every topic the platform hands out during `events` is fresh when it is used. */
  ghost predicate FreshTopics(cfg: Config, store: Store, events: seq<Event>)
    decreases |events|
  {
    events == [] ||
      (FreshTopic(store, events[0].msg.fromId, events[0].created) &&
       FreshTopics(cfg, PrivateStep(cfg, store, events[0].msg, events[0].created).store, events[1..]))
  }

  /** The senders of `events`. */
  function Senders(events: seq<Event>): set<int>
    decreases |events|
  {
    if events == [] then {} else {events[0].msg.fromId} + Senders(events[1..])
  }

  /** Entries are only ever inserted: a topic once stored is never changed
      or removed. */
  lemma {:induction false} ReplayOnlyInserts(cfg: Config, store: Store, events: seq<Event>)
    ensures forall u :: u in store ==> Replay(cfg, store, events)[u] == store[u]
    decreases |events|
  {
    if events != [] {
      var next := PrivateStep(cfg, store, events[0].msg, events[0].created).store;
      ReplayOnlyInserts(cfg, next, events[1..]);
    }
  }

  /** With fresh topic ids the table stays injective over any session. */
  lemma {:induction false} ReplayKeepsInjective(cfg: Config, store: Store, events: seq<Event>)
    requires Injective(store) && FreshTopics(cfg, store, events)
    ensures Injective(Replay(cfg, store, events))
    decreases |events|
  {
    if events != [] {
      var next := PrivateStep(cfg, store, events[0].msg, events[0].created).store;
      PrivateStepKeepsInjective(cfg, store, events[0].msg, events[0].created);
      ReplayKeepsInjective(cfg, next, events[1..]);
    }
  }

  /** Round trip over a session: any user who holds a topic at the end gets
      the admin's replies in that topic. */
  lemma SessionRoundTrip(cfg: Config, store: Store, events: seq<Event>, user: int, reply: GroupMessage)
    requires Injective(store) && FreshTopics(cfg, store, events)
    requires user in store || user in Senders(events)
    requires reply.chatId == cfg.groupId && reply.fromId == cfg.adminId
    requires reply.threadId == Some(Replay(cfg, store, events)[user]) && reply.threadId.value != 0
    ensures GroupReply(cfg, Replay(cfg, store, events), reply)
         == Some(Copy(user, cfg.groupId, reply.messageId, None))
  {
    ReplayKeepsInjective(cfg, store, events);
    UserOfOwner(Replay(cfg, store, events), user);
  }
}
