/** What the gateway asks the irc client object (and hangups) to do, as abstract events.
    The irc module itself (line formatting, numeric reply codes) is not part of this model. */
module Irc {
  import opened Util

  /** One row of a LIST reply: channel, member count, topic. */
  datatype ListRow = ListRow(channel: string, members: nat, topic: string)

  datatype Output =
    | WelcomeReply                                    // RPL_WELCOME
    | TellNick(nick: string)                          // client.tell_nick
    | MotdStart                                       // RPL_MOTDSTART
    | MotdLine                                        // RPL_MOTD
    | MotdEnd                                         // RPL_ENDOFMOTD
    | JoinConfirm(nick: string, channel: string)      // client.write(nick, 'JOIN', channel)
    | Join(channel: string)                           // client.join: a synthetic join
    | Topic(channel: string, topic: string)           // client.topic
    | Names(channel: string, nicks: seq<string>)      // client.list_nicks
    | Privmsg(hostmask: string, channel: string, text: string)  // client.privmsg
    | ChannelList(rows: seq<ListRow>)                 // client.list_channels
    | WhoReply(target: string)                        // client.who or RPL_ENDOFWHO
    | ModeReply(target: string)                       // RPL_CHANNELMODEIS
    | Pong                                            // client.pong
    | Send(conversation: Conversation, text: string)  // conv.send_message, to hangups
}
