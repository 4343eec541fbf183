/** The bot process: its configuration and its `mappings` table, which the
    private-message handler updates in place and the group handler reads. */
module Relay {
  import opened Wrappers
  import opened Router

  class Bot {
    /** GROUP_ID and ADMIN_ID, fixed at start-up. */
    const config: Config
    /** The rows of the `mappings` table. */
    var mappings: Store

    /** Opens the table: `CREATE TABLE IF NOT EXISTS` keeps the rows a
        previous run left behind. */
    constructor (config: Config, stored: Store)
      ensures this.config == config && mappings == stored
    {
      this.config := config;
      mappings := stored;
    }

    /** handle_private_message. `created` is the thread id the platform
        returns from create_forum_topic, used only if a topic is created. */
    method HandlePrivateMessage(msg: PrivateMessage, created: int) returns (actions: seq<Action>)
      modifies this`mappings
      ensures Step(mappings, actions) == PrivateStep(config, old(mappings), msg, created)
      ensures msg.fromId in old(mappings) ==> mappings == old(mappings)
      ensures forall u :: u in old(mappings) ==> u in mappings && mappings[u] == old(mappings)[u]
      ensures (Injective(old(mappings)) && FreshTopic(old(mappings), msg.fromId, created))
              ==> Injective(mappings)
    {
      var topic: int;
      actions := [];
      var row := TopicOf(mappings, msg.fromId);
      if row.Some? {
        topic := row.value;
      } else {
        actions := [CreateTopic(config.groupId, TopicName(msg.fullName, msg.fromId))];
        topic := created;
        mappings := mappings[msg.fromId := topic];
      }
      actions := actions + [Copy(config.groupId, msg.chatId, msg.messageId, Some(topic))];
      if Injective(old(mappings)) && FreshTopic(old(mappings), msg.fromId, created) {
        PrivateStepKeepsInjective(config, old(mappings), msg, created);
      }
    }

    /** handle_group_reply: the early-return guards, then the reverse lookup.
        It only reads the table. */
    method HandleGroupReply(msg: GroupMessage) returns (sent: Option<Action>)
      ensures sent == GroupReply(config, mappings, msg)
    {
      if msg.chatId != config.groupId {
        return None;
      }
      var topic := msg.threadId;
      if topic.None? || topic.value == 0 {
        return None;
      }
      if msg.fromId != config.adminId {
        return None;
      }
      var row := UserOf(mappings, topic.value);
      if row.None? {
        return None;
      }
      sent := Some(Copy(row.value, msg.chatId, msg.messageId, None));
    }
  }
}
