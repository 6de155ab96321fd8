# pickups: IRC-to-Hangouts gateway core, modelled in Dafny

pickups lets an ordinary IRC client talk to Hangouts. Each Hangouts conversation shows
up as an IRC channel, each Hangouts user as a nickname, and each chat message as a
PRIVMSG. This project models the gateway's pure logic and proves properties about it:

- **Naming** (`util.dfy`, module `Util`; `pickups/util.py`). This covers the conversation
  to channel mapping and its reverse lookup, nicknames, hostmasks and topics.
- **Client session** (`sessions.dfy`, module `Sessions`; `_handle_client` in
  `pickups/server.py`). Each received line is a pure step over an explicit session record
  (nickname, username, welcomed flag, sent messages) and the shared `clientsChannels` map
  (nickname to joined channels). The step returns abstract output events (module `Irc`).
- **Gateway** (`gateway.dfy`, module `Gateway`; `pickups/server.py`). This is the client
  table (`self.clients`) with connect and lost, the routing of one client's line, and the
  fan-out of a hangups chat event to all live clients. The fan-out adds synthetic joins
  and suppresses echoes.
- Supporting modules: `Wrappers` (Option), `Seqs` (`list.remove` and
  `if x not in l: l.append(x)`), and `Strings` (Python's `split`, `split(sep, 1)` and
  `strip('\r\n')`).

The model follows the code as written:

- Channel names are derived from the display name alone. There is no table that
  disambiguates colliding names with a suffix.
- The reverse lookup compares against the *untruncated* derived name. So a conversation
  whose sanitised name is longer than 47 characters is never found from its own channel
  (`Util.LongNameLookup`). Names that fit round-trip (`Util.ChannelRoundTrip`).
- A PRIVMSG to an unknown channel produces no reply. Its text is still recorded for echo
  suppression.
- A JOIN of an unknown channel produces no error reply. The client still gets a JOIN
  confirmation and an "Unknown" topic, and the name is still added to the joined list.
- The handler does not wait for the backend before welcoming a client. The backend (the
  conversation list and the account's own user) is a parameter of every step.

Python exceptions in the handler end the client's task, just as leaving the loop does.
They appear as the outcome `Raised`, and any outputs written before the exception are
kept. The cases are:

- `NICK` or `USER` without a space;
- `PRIVMSG` with fewer than two spaces, or with empty text;
- `JOIN`, `WHO` or `MODE` without a second word;
- `JOIN` by a nickname that is not yet a key of `clientsChannels`.

An unset nickname or username (Python `None`) is modelled as the empty string. Both are
false in the welcome test. Neither is ever a key of `clientsChannels`
(`Gateway.InvPreserved`), so lookups fail for both alike.

## Model

| member | source | states |
|---|---|---|
| `Util.Sanitize` | pickups/util.py:10 | the sanitised name has no comma and no space, is no longer than the name, and is the name itself when it had neither (counts and order: `Util.SanitizeCount`, `Util.SanitizeAppend`) |
| `Util.SanitizeCount` | pickups/util.py:10 | character counts after both replacements: commas and spaces are gone, `_` counts the old underscores plus the old spaces, every other character keeps its count |
| `Util.SanitizeAppend` | pickups/util.py:10 | sanitising works piece by piece, so the kept characters stay in their original order |
| `Util.RemoveAll` | pickups/util.py:10 | `replace(',', '')`: the character is gone, every other character of the input survives, nothing new appears (counts and order: `Util.RemoveAllCount`, `Util.RemoveAllAppend`) |
| `Util.RemoveAllCount` | pickups/util.py:10 | `replace(',', '')` keeps the count of every other character and leaves no comma |
| `Util.RemoveAllAppend` | pickups/util.py:10 | removal works piece by piece, so the surviving characters keep their order |
| `Util.ReplaceAll` | pickups/util.py:10 | `replace(' ', '_')`: same length, each position rewritten independently |
| `Util.ReplaceAllCount` | pickups/util.py:10 | after `replace(' ', '_')` no space is left, `_` counts the old underscores plus the old spaces, and every other character keeps its count |
| `Util.ReplaceAllAppend` | pickups/util.py:10 | replacement works piece by piece |
| `Util.ConversationToChannel` | pickups/util.py:7-11 | result starts with `#`, has no space or comma, is a prefix of the untruncated derived name, has length exactly 1 + min(sanitised length, 47) (so at most 48, within the 50 of RFC 2812 section 1.3), and equals the derived name exactly when the sanitised name fits in 47 |
| `Util.ChannelDependsOnNameOnly` | pickups/util.py:7-11 | two conversations with equal display names get the same channel: there is no disambiguation |
| `Util.ChannelToConversation` | pickups/util.py:14-20 | returns the first conversation in list order whose untruncated `#`-name equals the channel, and `None` exactly when none does |
| `Util.ChannelRoundTrip` | pickups/util.py:7-20 | for a listed conversation whose sanitised name has at most 47 characters, looking up its channel finds a conversation with the same sanitised name |
| `Util.LongNameLookup` | pickups/util.py:10-17 | for a sanitised name over 47 characters the truncation is not mirrored by the lookup: whatever the channel resolves to has a different sanitised name, so never the conversation itself |
| `Util.KeepNickChars` | pickups/util.py:26 | the `re.sub` keeps exactly the nickname characters of the input: a character occurs in the result iff it occurs in the input and is a word character or one of ``[]{}^`|_\-`` (counts and order: `Util.KeepNickCharsCount`, `Util.KeepNickCharsAppend`) |
| `Util.KeepNickCharsCount` | pickups/util.py:26 | every nickname character keeps its count and every other character is removed |
| `Util.KeepNickCharsAppend` | pickups/util.py:26 | the filter works piece by piece, so the kept characters stay in their original order |
| `Util.KeepNickCharsIdentity` | pickups/util.py:26 | a text made only of nickname characters passes the filter unchanged |
| `Util.NickOf` | pickups/util.py:23-26 | the nickname is a prefix of the filtered name of length exactly min(filtered length, 15), made only of nickname characters, and is all of the filtered name when that fits in 15 |
| `Util.NickIdempotent` | pickups/util.py:26 | filtering and truncating a nickname again returns it unchanged |
| `Util.GetNickShape` | pickups/util.py:23-26 | `get_nick` of a user is a prefix of the user's filtered full name, of length min(filtered length, 15), and contains neither a space nor `!` |
| `Util.GetHostmask` | pickups/util.py:29-31 | the hostmask splits at its first `!` into exactly the nickname and `chat_id@hangouts`, and ends with `@hangouts` |
| `Util.GetTopic` | pickups/util.py:34-38 | the topic is "Unknown" exactly when there is no conversation; otherwise it is the fixed prefix followed by the display name |
| `Util.TopicInjective` | pickups/util.py:34-38 | topics of two found conversations are equal iff their display names are |
| `Strings.SplitFirst` | pickups/server.py:105 | `split(' ', 1)` yields two parts iff the separator occurs; the parts rebuild the text around its first separator |
| `Strings.SplitFirstOf` | pickups/server.py:105 | splitting `a + sep + b` with `sep` not in `a` gives back exactly `a` and `b` |
| `Strings.Split` | pickups/server.py:126 | `split(sep)` gives at least one piece and no piece contains the separator |
| `Strings.JoinSplit` | pickups/server.py:126 | joining the pieces of a split with the separator gives back the text |
| `Strings.SplitJoin` | pickups/server.py:126 | splitting a join of separator-free pieces gives back the pieces |
| `Strings.Strip` | pickups/server.py:94 | `strip('\r\n')`: the result neither starts nor ends with CR or LF, is empty iff the line was only CR/LF, and leaves a line that neither starts nor ends with them unchanged (which slice it is: `Strings.StripIsSlice`) |
| `Strings.StripIsSlice` | pickups/server.py:94 | the stripped line is one contiguous slice of the line, and everything cut off on either side is CR or LF |
| `Strings.StripTerminator` | pickups/server.py:94 | a line read with its CR-LF terminator strips back to its content |
| `Seqs.RemoveFirst` | pickups/server.py:64 | `list.remove`: one occurrence fewer (multiset difference), the first one, all other elements kept in order |
| `Seqs.AppendIfAbsent` | pickups/server.py:135-136 | the element is present afterwards, nothing else is added, the old list is a prefix, and a duplicate-free list stays duplicate-free |
| `Sessions.ParseDispatch` | pickups/server.py:104-166 | the first matching prefix decides the command: each command kind only comes from its own prefix, LIST and PING always succeed, the other six can fail only as malformed, and a line is ignored exactly when it has none of the eight prefixes |
| `Sessions.ParseNickUser` | pickups/server.py:104-107 | `NICK x` and `USER x` carry the text after the first space verbatim |
| `Sessions.ParsePrivmsg` | pickups/server.py:114-119 | the target is the second word and the text is everything after the second space, less exactly one leading `:` |
| `Sessions.ParseJoin` | pickups/server.py:125-126 | `JOIN a,b,...` yields the comma-separated names, in order |
| `Sessions.ListRows` | pickups/server.py:108-113 | one LIST row per conversation, in list order; row i carries conversation i's channel name, member count and found-conversation topic |
| `Sessions.ListRowsResolve` | pickups/server.py:108-116 | a channel offered by LIST leads back, through the lookup PRIVMSG and JOIN use, to a conversation with that row's sanitised name exactly when the name fits in 47 characters |
| `Sessions.SendMessage` | pickups/server.py:114-124 | the text is always appended to the sent messages and nothing else in the session changes; a Send to the conversation is emitted iff the channel resolves, and nothing else is emitted |
| `Sessions.JoinList` | pickups/server.py:127-136 | the joined list keeps its old entries in order and gains exactly the joined names, resolved or not, each at most once, so it stays duplicate-free |
| `Sessions.JoinOutputs` | pickups/server.py:127-140 | the JOIN confirmations name exactly the requested channels in request order; only confirmations, topics and name lists are emitted |
| `Sessions.JoinRepliesOrder` | pickups/server.py:128-140 | the replies to one name are its JOIN confirmation with the gateway's own nickname, then its topic, then its name list exactly when the name resolves |
| `Sessions.JoinOutputsOrder` | pickups/server.py:127-140 | across the whole JOIN loop every confirmation carries the gateway's nickname and is followed by its own channel's topic, every topic follows its confirmation and is followed by a name list exactly when that channel resolves, and every name list follows its topic with the resolved conversation's users |
| `Sessions.JoinOutputsReplies` | pickups/server.py:137-140 | every requested name gets its topic reply; a name list is emitted for every name that resolves, and only for names that resolve |
| `Sessions.JoinCommand` | pickups/server.py:125-140 | JOIN raises exactly when the nickname is not a key of the joined map; otherwise only that nickname's list changes, gaining exactly the requested names, and the confirmations follow request order |
| `Sessions.Execute` | pickups/server.py:104-166 | no command welcomes, closes the connection, drops a sent message or changes the joined map's keys, and joined lists stay duplicate-free; the handler raises exactly for a malformed line and for a non-empty JOIN by a nickname with no joined list; an unrecognised line changes nothing and sends nothing |
| `Sessions.ParseNoSpace` | pickups/server.py:104-158 | a line with no space is malformed under each of the six commands that read a word after the command name |
| `Sessions.CompleteHandshake` | pickups/server.py:168-178 | the welcome check never fires twice, adds either nothing or exactly the welcome block, leaves every running session settled, changes nothing in the session but `welcomed`, and changes the joined map only by setting the nickname's list to `[]` |
| `Sessions.HandleLine` | pickups/server.py:91-178 | undecodable lines change nothing; empty lines end the loop with no change; `welcomed` never resets; the welcome appears at most once and exactly on the false-to-true transition, only with a non-empty nickname and username, ending the output with welcome, self nickname, MOTD start, MOTD, MOTD end, and with the nickname's joined list set to `[]` |
| `Sessions.NickLine` | pickups/server.py:104-105 | `NICK x` stores `x` verbatim; the only other change is the welcome when this completes the pair for the first time |
| `Sessions.UserLine` | pickups/server.py:106-107 | `USER x` stores `x` verbatim, with the same welcome rule |
| `Sessions.PrivmsgLine` | pickups/server.py:114-124 | on a settled session, `PRIVMSG ch t` appends `t` less one leading `:` and emits a Send iff `ch` resolves, and nothing else |
| `Sessions.JoinLine` | pickups/server.py:125-140 | on a settled session registered in the joined map, `JOIN a,b,...` leaves the session unchanged, extends its joined list as the JOIN loop does and emits the loop's replies |
| `Sessions.PingLine` | pickups/server.py:165-166 | `PING` emits exactly one PONG and changes nothing |
| `Sessions.Run` | pickups/server.py:91-101 | over any sequence of lines, `welcomed` never resets and joined lists stay duplicate-free |
| `Sessions.WelcomeAtMostOnce` | pickups/server.py:168-169 | over any sequence of lines the welcome is sent at most once, and never once the session is welcomed |
| `Sessions.HandshakeScenario` | pickups/server.py:104-178 | a new client sending `NICK n` then `USER u` is welcomed with exactly the five welcome replies in order, and its joined list becomes `[]` |
| `Gateway.Find` | pickups/server.py:82 | `self.clients[h]` finds a session exactly for the registered handles |
| `Gateway.Connect` | pickups/server.py:72-78 | registering a task is a map insert of a fresh session: the new handle maps to it, every other lookup is unchanged |
| `Gateway.Lost` | pickups/server.py:80-84 | removing a task is a map delete: it fails (KeyError) exactly for an unregistered handle, and otherwise only that handle disappears |
| `Gateway.ClientLine` | pickups/server.py:72-84 | a line runs the handler on that client's session and stores the result; when the handler ends, the done-callback removes the client; no other client changes |
| `Gateway.SyntheticJoins` | pickups/server.py:56-60 | the list of every live nickname becomes that list with the channel appended if absent; lists of other nicknames and the key set are unchanged |
| `Gateway.SyntheticJoinsPerClient` | pickups/server.py:57-60 | a client is sent a synthetic JOIN exactly when its list lacked the channel and no earlier client with the same nickname was sent one |
| `Gateway.Echo` | pickups/server.py:62-66 | if the text is among the client's sent messages and the sender's nickname is the client's, exactly one occurrence is consumed and nothing is delivered; otherwise the client is unchanged and exactly one PRIVMSG is delivered |
| `Gateway.Deliver` | pickups/server.py:62-66 | each client in table order is updated exactly as the echo test says, and nothing is sent to unknown handles |
| `Gateway.DeliverPerClient` | pickups/server.py:62-66 | each client receives exactly the echo test's output |
| `Gateway.OnHangupsEvent` | pickups/server.py:44-66 | non-chat events change nothing; after a chat event every live client's joined list contains the channel, lists stay duplicate-free, keys, clients' identities, nicknames, usernames and welcome flags are unchanged |
| `Gateway.FanoutPerClient` | pickups/server.py:44-66 | what one client receives: the synthetic JOIN (when due) before the PRIVMSG, and the PRIVMSG unless it is the client's own echo, which instead consumes one occurrence of the text |
| `Gateway.FanoutJoined` | pickups/server.py:56-66 | after a chat message every live nickname's joined list is its old list with the channel appended once if it was missing, and no output is addressed to a task outside the table |
| `Gateway.InvPreserved` | pickups/server.py:44-178 | connect, lost, a client line and a chat event all keep distinct handles, duplicate-free joined lists, no entry for the unset nickname, and every client either welcomed or still missing its nickname or username |

## Left out

- asyncio plumbing is not modelled: `run`, the task and its done-callback wiring,
  `readline`, `writer.close` and logging. A client's task is a `Handle`, and one line
  read by that task is `Gateway.ClientLine`.
- `_on_hangups_connect` (building `UserList`/`ConversationList`) is not modelled. The
  backend is a `Backend` parameter that is assumed connected. Before hangups connects,
  the real handler raises AttributeError on LIST, PRIVMSG, JOIN and the welcome.
- hangups' `get_conv_name` is not part of this model. Its result is carried as
  `Conversation.displayName`. `ChatMessageSegment.from_str` and `send_message` become the
  abstract `Send` output. Conversation and user lookups for an event are already resolved
  inside `ChatMessage`.
- The irc module is not part of this model. Its calls are abstract `Output` events.
  `tell_nick` is only an output; if it also rebinds the client's nickname, that is not
  modelled.
- Gateway.OnHangupsEvent: requires every live client's nickname to be a key of
  `clientsChannels`. Otherwise line 58 raises KeyError inside the hangups callback, and
  that is not modelled.
- WHO and MODE only emit an abstract reply to a `#` target. The code looks up a stale or
  unbound `channel` variable there (UnboundLocalError). An unknown WHO target also returns
  out of the whole handler. Neither is modelled.
- UTF-8 decoding is the `Undecodable` input; byte-level decoding is not modelled.
- The `channel is None` test at server.py:52 is dead code: the channel is never `None`.
- Gateway.Clients: the client table is the order in which `self.clients.values()` is
  iterated, taken to be insertion order (Python 3.7 and later). The code uses
  `asyncio.async`, so it runs on Python 3.4 to 3.6. On 3.4 and 3.5 a dict keyed by tasks
  iterates in hash order, and that order decides which of several clients with the same
  nickname gets the synthetic JOIN (`Gateway.SyntheticJoinsPerClient`).
- Util.NickOf: treats only ASCII letters, digits and `_` as word characters. Python 3's
  `\w` on `str` also keeps non-ASCII letters and digits, and those are dropped here.
- All of `pickups/__main__.py` is out of scope: argument parsing, cache directory,
  cookie authentication.
