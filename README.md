# Anonymous relay bot: user ↔ forum-topic router

This project models the core of a Telegram relay bot. The bot gives every end user who writes to it privately a forum topic of their own inside an admin group, and it copies the user's messages into that topic. Replies that the administrator posts inside a user's topic are copied back to that user.

The state is one table, `mappings`, from `user_id` (the primary key) to `topic_id`. Two handlers work on it:

- `handle_private_message` looks up the sender's topic. If there is none, it creates a topic named `Message from {full name} ({user id})` and inserts the pair. It then copies the message into the group under that topic.
- `handle_group_reply` drops a message that is not in the group, that is in the general topic (thread id absent or 0), or that does not come from the administrator. It also drops one whose topic has no owner. Otherwise it copies the message to the owner of the topic.

Layout:

- `wrappers.dfy`: module `Wrappers`, the `Option` type.
- `decimal.dfy`: module `Decimal`, Python's `str(int)` as used in the topic-name f-string, plus its inverse.
- `router.dfy`: module `Router`. It holds the messages, the emitted platform calls (`Action`), the table as a `map`, the two handlers as functions, and the lemmas about them.
- `bot.dfy`: module `Relay`. Its class `Bot` holds the configuration and the `mappings` field. The private handler is a method that updates that field; the group handler is a method that only reads it. Both are proved against the `Router` functions.

Platform calls are not performed. They are returned as `Action` values in the order the handler makes them. The thread id that `create_forum_topic` returns is a parameter (`created`). `GROUP_ID` and `ADMIN_ID` are a `Config` value, fixed when the bot is built.

The reverse lookup `SELECT user_id FROM mappings WHERE topic_id = ?` takes the first row on a column that is not unique. `topic_id` has no index, so SQLite scans the rowid table in `user_id` order. The model therefore returns the least user id that holds the topic. Every lemma that relies on a single owner assumes the table is injective, and freshness of the created topic ids is what keeps it injective. The source itself can break that freshness. `mappings.db` survives restarts, but `GROUP_ID` is read again from the environment on each start (bot.py:8, bot.py:12), and the table has no group column. After the group changes, thread ids of the new group can coincide with stored ones from the old group. A reply in such a topic is then routed to the holder with the least user id, which can be an old user and not the one the topic was created for.

## Model

| member | source | states |
|---|---|---|
| `Decimal.IntToStringRoundTrip` | bot.py:41 | The decimal text that the f-string writes for a user id reads back as the same id, negative ids included. |
| `Router.TopicName` | bot.py:39-42 | The name of a new topic is the text `Message from `, then the full name, then ` (`, then Python's `str(user_id)` (which parses back to the user id), then `)`. |
| `Decimal.IntToString` | bot.py:41 | Python's `str(user_id)` is non-empty. It has a leading `-` exactly for negative ids, and otherwise only digits. It has no leading zero. |
| `Router.TopicOf` | bot.py:32-36 | The lookup by user id finds a row exactly when the user has a topic, and it returns that user's topic. The reverse lookup on that topic then finds some user. |
| `Router.TopicNameNamesOwner` | bot.py:39-42 | A topic's name `Message from {name} ({id})` identifies the user it was created for, whatever the user's full name contains. |
| `Router.UserOf` | bot.py:70-73 | The reverse lookup finds no row exactly when no user holds the topic. Otherwise it returns a user who holds the topic: the least such user id, which is the first row in primary-key scan order. |
| `Router.UserOfOwner` | bot.py:70-75 | When no two users share a topic, the reverse lookup on a user's topic returns that user. |
| `Router.PrivateStep` | bot.py:26-53 | After a private message the sender has a topic, and the table's keys are the old keys plus the sender. No stored topic changes. A new entry holds the created thread id. Exactly one call (the copy) is made when the sender already had a topic. Otherwise exactly two calls are made: a CreateTopic in GROUP_ID with the sender's name and id, then the copy. The last call copies the message into GROUP_ID under the sender's stored topic. |
| `Router.ExistingTopicReused` | bot.py:32-36 | A sender who already has a topic leaves the table unchanged and causes no topic creation. The only call is a copy to the stored topic. |
| `Router.PrivateStepKeepsInjective` | bot.py:37-45 | If the thread id returned for a new topic is not held by anyone, the table stays injective: at most one user per topic. |
| `Router.GroupReply` | bot.py:55-82 | Nothing is sent exactly when one of these holds: the chat is not GROUP_ID, the thread id is absent or 0, the sender is not ADMIN_ID, or no user holds the topic. Otherwise the call copies the same message id from the group to a user who holds that topic, with no thread. |
| `Router.DefaultAdminRelaysNothing` | bot.py:9 | With ADMIN_ID left at its default 0, no reply from a real (positive-id) user is ever relayed. |
| `Router.RoundTrip` | bot.py:37-82 | Assume the table starts injective, the created topic id is fresh, and U's topic is not 0. Then, after user U's private message, an admin reply in U's topic is copied to U and to no one else. Topic 0 is excluded because `GroupReply` drops every reply in thread 0. |
| `Router.Replay` | bot.py:14-53 | After any sequence of private messages, the table's keys are the old keys plus the senders. Each user has one row, because user_id is the primary key. |
| `Router.ReplayOnlyInserts` | bot.py:32-45 | Over any sequence of private messages, a topic once stored for a user is never changed or removed. |
| `Router.ReplayKeepsInjective` | bot.py:37-45 | Over any sequence of private messages whose created thread ids are fresh, no two users ever share a topic. |
| `Router.SessionRoundTrip` | bot.py:37-82 | Assume the table starts injective and every created topic id is fresh when used. Then, after any sequence of private messages, an admin reply in the non-zero topic of a user who has a row is copied to exactly that user. |
| `Relay.Bot.constructor` | bot.py:12-20 | Opening the table keeps the rows already stored. |
| `Relay.Bot.HandlePrivateMessage` | bot.py:26-53 | The in-place handler produces the new table and the calls that `PrivateStep` specifies. It leaves the table untouched for a known sender, never changes an existing row, and keeps the table injective when it was injective before and the created id is fresh. |
| `Relay.Bot.HandleGroupReply` | bot.py:55-82 | The guard-by-guard handler returns exactly the decision of `GroupReply` on the current table and does not modify the bot. |

## Left out

- `start` (bot.py:22-24): it sends a fixed greeting and has no logic.
- `main` (bot.py:84-94): handler registration and polling are dispatch plumbing. The model assumes that private non-command messages reach `HandlePrivateMessage` and group messages reach `HandleGroupReply`.
- Reading `BOT_TOKEN`, `GROUP_ID` and `ADMIN_ID` from the environment (bot.py:7-9) is left out. The two ids are the `Config` value, and `DEFAULT_ADMIN_ID` is the fallback 0.
- The SQLite connection, cursor and `commit` (bot.py:12-20, bot.py:45) are left out. The table is a `map` that changes at the point where the row is inserted.
- The Telegram calls `create_forum_topic` and `copy_message` and the `async`/`await` around them are left out. They are emitted `Action` values, and the new thread id is a parameter. The model does not capture whether a call succeeds.
- Exceptions are left out. A failing `create_forum_topic` (no row inserted, no copy), a failing copy, and an update with no `message` or no `from_user` (an edited message, for one) all abort the handler with an exception in the source. The model has no such outcome.
- `Router.UserOf`: SQL does not promise an order for `fetchone`. The least-user-id choice follows SQLite's scan of a rowid table. The lemmas rely on it only where the table is injective, and there the answer is unique.
- The user's full name is an opaque string. How the platform builds `full_name` from first and last name is not modelled.
- The ban flags, the bot (direct-forward) relay mode, first-contact notifications, the user registry, broadcast and thread recreation after a missing-topic error are not modelled. None of them exists in bot.py; the code has only the `mappings` table and the two handlers modelled here.
