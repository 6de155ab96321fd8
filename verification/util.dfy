/** Naming and sanitising functions of pickups/util.py: conversation to channel name and
    back, nicknames, hostmasks and topics. */
module Util {
  import opened Wrappers
  import opened Strings

  /** A hangups user: the display name and the chat id used in its hostmask. */
  datatype User = User(fullName: string, chatId: string)

  /** A hangups conversation as far as the gateway reads it. `displayName` is what
      hangups' `get_conv_name` computes for it; that computation is not part of this model. */
  datatype Conversation = Conversation(id: string, displayName: string, users: seq<User>)

  /** hangups' `get_conv_name`, treated as uninterpreted. */
  function ConvName(c: Conversation): string
  {
    c.displayName
  }

  /** Maximum channel-name length, section 1.3 of RFC 2812. */
  const MaxChannelLength := 50

  /** util.py keeps `name[:50 - 3]` after the `#`. */
  const ChannelBodyLength := MaxChannelLength - 3

  /** Maximum nickname length kept by `get_nick`. */
  const MaxNickLength := 15

  /** A channel name acceptable under section 1.3 of RFC 2812, as far as the gateway
      cares: the `#` sigil, at most 50 characters, no space and no comma. */
  predicate ValidChannel(name: string)
  {
    && 1 <= |name| <= MaxChannelLength
    && name[0] == '#'
    && ' ' !in name
    && ',' !in name
  }

  /** Python's `s.replace(c, '')`. */
  function RemoveAll(s: string, c: char): (r: string)
    ensures |r| <= |s|
    ensures c !in r
    ensures forall x :: x in s && x != c ==> x in r
    ensures forall x :: x in r ==> x in s
    ensures c !in s ==> r == s
  {
    if |s| == 0 then ""
    else (if s[0] == c then "" else [s[0]]) + RemoveAll(s[1..], c)
  }

  /** Every character other than `c` keeps its count. */
  lemma {:induction false} RemoveAllCount(s: string, c: char)
    ensures multiset(RemoveAll(s, c)) == multiset(s)[c := 0]
  {
    if |s| > 0 {
      assert s == [s[0]] + s[1..];
      RemoveAllCount(s[1..], c);
    }
  }

  /** Removal works piece by piece, so the kept characters stay in their order. */
  lemma {:induction false} RemoveAllAppend(a: string, b: string, c: char)
    ensures RemoveAll(a + b, c) == RemoveAll(a, c) + RemoveAll(b, c)
  {
    if |a| == 0 {
      assert a + b == b;
    } else {
      var head := if a[0] == c then "" else [a[0]];
      var rest := a[1..] + b;
      assert (a + b)[0] == a[0] && (a + b)[1..] == rest;
      RemoveAllAppend(a[1..], b, c);
      var t, u := RemoveAll(a[1..], c), RemoveAll(b, c);
      assert RemoveAll(rest, c) == t + u;
      assert head + (t + u) == (head + t) + u;
    }
  }

  /** Python's `s.replace(a, b)` for single characters. */
  function ReplaceAll(s: string, a: char, b: char): (r: string)
    ensures |r| == |s|
    ensures forall i :: 0 <= i < |s| ==> r[i] == if s[i] == a then b else s[i]
  {
    if |s| == 0 then ""
    else [if s[0] == a then b else s[0]] + ReplaceAll(s[1..], a, b)
  }

  /** Each `a` is counted as a `b`; every other character keeps its count. */
  lemma {:induction false} ReplaceAllCount(s: string, a: char, b: char)
    requires a != b
    ensures forall x ::
      (multiset(ReplaceAll(s, a, b))[x]
       == if x == a then 0 else if x == b then multiset(s)[b] + multiset(s)[a] else multiset(s)[x])
  {
    forall x {
      ReplaceAllCountAt(s, a, b, x);
    }
  }

  lemma {:induction false} ReplaceAllCountAt(s: string, a: char, b: char, x: char)
    requires a != b
    ensures multiset(ReplaceAll(s, a, b))[x]
      == if x == a then 0 else if x == b then multiset(s)[b] + multiset(s)[a] else multiset(s)[x]
  {
    if |s| > 0 {
      ReplaceAllCountAt(s[1..], a, b, x);
      ReplaceCountStep(s, ReplaceAll(s, a, b), ReplaceAll(s[1..], a, b), a, b, x);
    }
  }

  /** One step of the count: the first character, replaced, followed by the rest. */
  lemma ReplaceCountStep(s: string, r: string, rest: string, a: char, b: char, x: char)
    requires |s| > 0 && a != b
    requires r == [if s[0] == a then b else s[0]] + rest
    requires multiset(rest)[x]
      == if x == a then 0 else if x == b then multiset(s[1..])[b] + multiset(s[1..])[a] else multiset(s[1..])[x]
    ensures multiset(r)[x]
      == if x == a then 0 else if x == b then multiset(s)[b] + multiset(s)[a] else multiset(s)[x]
  {
    var c := s[0];
    var d := if c == a then b else c;
    var ms, mt := multiset(s), multiset(s[1..]);
    assert ms == multiset{c} + mt by {
      assert s == [c] + s[1..];
    }
    assert multiset(r) == multiset{d} + multiset(rest);
  }

  lemma {:induction false} ReplaceAllAppend(x: string, y: string, a: char, b: char)
    ensures ReplaceAll(x + y, a, b) == ReplaceAll(x, a, b) + ReplaceAll(y, a, b)
  {
    if |x| == 0 {
      assert x + y == y;
    } else {
      assert (x + y)[0] == x[0];
      assert (x + y)[1..] == x[1..] + y;
      ReplaceAllAppend(x[1..], y, a, b);
    }
  }

  /** `name.replace(',', '').replace(' ', '_')`. */
  function Sanitize(name: string): (r: string)
    ensures |r| <= |name|
    ensures ',' !in r && ' ' !in r
    ensures ',' !in name && ' ' !in name ==> r == name
  {
    var noComma := RemoveAll(name, ',');
    var r := ReplaceAll(noComma, ' ', '_');
    assert forall i :: 0 <= i < |r| ==> r[i] != ',' && r[i] != ' ' by {
      forall i | 0 <= i < |r|
        ensures r[i] != ',' && r[i] != ' '
      {
        assert noComma[i] in noComma;
      }
    }
    r
  }

  /** Commas are gone, every space is counted as an `_`, every other character keeps its
      count. */
  lemma SanitizeCount(name: string)
    ensures forall x ::
      (multiset(Sanitize(name))[x]
       == if x == ',' || x == ' ' then 0
          else if x == '_' then multiset(name)['_'] + multiset(name)[' ']
          else multiset(name)[x])
  {
    var noComma := RemoveAll(name, ',');
    RemoveAllCount(name, ',');
    ReplaceAllCount(noComma, ' ', '_');
    assert multiset(noComma)['_'] == multiset(name)['_'];
    assert multiset(noComma)[' '] == multiset(name)[' '];
  }

  /** Sanitising works piece by piece: every character keeps its place, a space becomes
      `_` where it stood and a comma just disappears. */
  lemma SanitizeAppend(a: string, b: string)
    ensures Sanitize(a + b) == Sanitize(a) + Sanitize(b)
  {
    RemoveAllAppend(a, b, ',');
    ReplaceAllAppend(RemoveAll(a, ','), RemoveAll(b, ','), ' ', '_');
  }

  /** The untruncated name `channel_to_conversation` compares against. */
  function DerivedName(c: Conversation): string
  {
    "#" + Sanitize(ConvName(c))
  }

  /** `conversation_to_channel`: the sanitised display name, cut to 47 characters,
      behind the `#` sigil. */
  function ConversationToChannel(c: Conversation): (r: string)
    ensures ValidChannel(r)
    ensures |r| <= 1 + ChannelBodyLength
    ensures r <= DerivedName(c)
    ensures |Sanitize(ConvName(c))| <= ChannelBodyLength <==> r == DerivedName(c)
    ensures |r| == 1 + if |Sanitize(ConvName(c))| <= ChannelBodyLength then |Sanitize(ConvName(c))| else ChannelBodyLength
  {
    "#" + Take(Sanitize(ConvName(c)), ChannelBodyLength)
  }

  /** There is no disambiguation: the channel depends on the display name alone, so
      conversations with equal display names share a channel. */
  lemma ChannelDependsOnNameOnly(a: Conversation, b: Conversation)
    requires ConvName(a) == ConvName(b)
    ensures ConversationToChannel(a) == ConversationToChannel(b)
  {
  }

  /** The index of the first conversation whose untruncated derived name is `channel`. */
  function MatchIndex(channel: string, convs: seq<Conversation>): (r: Option<nat>)
    ensures r.None? <==> forall i :: 0 <= i < |convs| ==> DerivedName(convs[i]) != channel
    ensures r.Some? ==>
      && r.value < |convs| && DerivedName(convs[r.value]) == channel
      && forall j :: 0 <= j < r.value ==> DerivedName(convs[j]) != channel
  {
    if |convs| == 0 then None
    else if DerivedName(convs[0]) == channel then Some(0)
    else
      var rest := convs[1..];
      assert forall i :: 1 <= i < |convs| ==> convs[i] == rest[i - 1];
      match MatchIndex(channel, rest)
      case None => None
      case Some(k) => Some(k + 1)
  }

  /** `channel_to_conversation`: the first conversation, in list order, whose untruncated
      derived name is `channel`. */
  function ChannelToConversation(channel: string, convs: seq<Conversation>): (r: Option<Conversation>)
    ensures r.None? <==> forall i :: 0 <= i < |convs| ==> DerivedName(convs[i]) != channel
    ensures r.Some? ==>
      exists i :: 0 <= i < |convs| && convs[i] == r.value && DerivedName(convs[i]) == channel
        && forall j :: 0 <= j < i ==> DerivedName(convs[j]) != channel
  {
    match MatchIndex(channel, convs)
    case None => None
    case Some(i) => Some(convs[i])
  }

  /** Round trip for names that fit: the channel of a listed conversation resolves to a
      conversation with the same sanitised name (the first such one in the list). */
  lemma {:induction false} ChannelRoundTrip(c: Conversation, convs: seq<Conversation>)
    requires c in convs
    requires |Sanitize(ConvName(c))| <= ChannelBodyLength
    ensures ChannelToConversation(ConversationToChannel(c), convs).Some?
    ensures Sanitize(ConvName(ChannelToConversation(ConversationToChannel(c), convs).value))
            == Sanitize(ConvName(c))
  {
    var channel := ConversationToChannel(c);
    var k :| 0 <= k < |convs| && convs[k] == c;
    assert DerivedName(convs[k]) == channel;
    var d := ChannelToConversation(channel, convs).value;
    assert DerivedName(d) == channel;
    assert DerivedName(d)[1..] == Sanitize(ConvName(d));
    assert DerivedName(c)[1..] == Sanitize(ConvName(c));
  }

  /** For longer names the truncation is not mirrored by the lookup: the channel never
      resolves to the conversation it came from, nor to any with the same sanitised name. */
  lemma LongNameLookup(c: Conversation, convs: seq<Conversation>)
    requires |Sanitize(ConvName(c))| > ChannelBodyLength
    ensures var r := ChannelToConversation(ConversationToChannel(c), convs);
      r.Some? ==> Sanitize(ConvName(r.value)) != Sanitize(ConvName(c))
  {
  }

  /** A character `get_nick` keeps: an ASCII word character or one of the RFC 2812
      section 2.3.1 `special` characters, plus `-`. */
  predicate IsNickChar(c: char)
  {
    || 'a' <= c <= 'z'
    || 'A' <= c <= 'Z'
    || '0' <= c <= '9'
    || c in "_[]{}^`|\\-"
  }

  /** The `re.sub` of `get_nick`: deletes every character that is not a nickname character. */
  function KeepNickChars(s: string): (r: string)
    ensures |r| <= |s|
    ensures forall i :: 0 <= i < |r| ==> IsNickChar(r[i])
    ensures forall x :: x in r <==> x in s && IsNickChar(x)
  {
    if |s| == 0 then ""
    else (if IsNickChar(s[0]) then [s[0]] else "") + KeepNickChars(s[1..])
  }

  /** Every nickname character keeps its count; every other character is gone. */
  lemma {:induction false} KeepNickCharsCount(s: string)
    ensures forall x :: multiset(KeepNickChars(s))[x] == if IsNickChar(x) then multiset(s)[x] else 0
  {
    if |s| > 0 {
      assert s == [s[0]] + s[1..];
      KeepNickCharsCount(s[1..]);
    }
  }

  /** The filter works piece by piece, so the kept characters stay in their order. */
  lemma {:induction false} KeepNickCharsAppend(a: string, b: string)
    ensures KeepNickChars(a + b) == KeepNickChars(a) + KeepNickChars(b)
  {
    if |a| == 0 {
      assert a + b == b;
    } else {
      assert (a + b)[0] == a[0];
      assert (a + b)[1..] == a[1..] + b;
      KeepNickCharsAppend(a[1..], b);
    }
  }

  /** A text made only of nickname characters passes the filter unchanged. */
  lemma {:induction false} KeepNickCharsIdentity(s: string)
    requires forall i :: 0 <= i < |s| ==> IsNickChar(s[i])
    ensures KeepNickChars(s) == s
  {
    if |s| > 0 {
      KeepNickCharsIdentity(s[1..]);
    }
  }

  /** `get_nick` on a full name: filter, then keep at most 15 characters. */
  function NickOf(name: string): (r: string)
    ensures |r| <= MaxNickLength
    ensures forall i :: 0 <= i < |r| ==> IsNickChar(r[i])
    ensures r <= KeepNickChars(name)
    ensures |KeepNickChars(name)| <= MaxNickLength ==> r == KeepNickChars(name)
    ensures |r| == if |KeepNickChars(name)| <= MaxNickLength then |KeepNickChars(name)| else MaxNickLength
  {
    Take(KeepNickChars(name), MaxNickLength)
  }

  /** `get_nick` is idempotent: a nickname is its own nickname. */
  lemma NickIdempotent(name: string)
    ensures NickOf(NickOf(name)) == NickOf(name)
  {
    KeepNickCharsIdentity(NickOf(name));
  }

  /** `get_nick` of a hangups user. */
  function GetNick(u: User): string
  {
    NickOf(u.fullName)
  }

  /** A user's nickname is the first 15 nickname characters of the full name. It never
      holds a space or a `!`, so it is one IRC word and ends a hostmask's nick part. */
  lemma GetNickShape(u: User)
    ensures GetNick(u) <= KeepNickChars(u.fullName)
    ensures |GetNick(u)| == if |KeepNickChars(u.fullName)| <= MaxNickLength then |KeepNickChars(u.fullName)| else MaxNickLength
    ensures ' ' !in GetNick(u) && '!' !in GetNick(u)
  {
    var r := GetNick(u);
    forall i | 0 <= i < |r| ensures r[i] != ' ' && r[i] != '!' {
      assert IsNickChar(r[i]);
    }
  }

  /** `get_hostmask`: `nick!chat_id@hangouts`. A nickname never holds `!`, so the nickname
      is exactly the text before the first `!`. */
  function GetHostmask(u: User): (r: string)
    ensures SplitFirst(r, '!') == Some((GetNick(u), u.chatId + "@hangouts"))
    ensures |r| >= 9 && r[|r| - 9..] == "@hangouts"
  {
    var nick := GetNick(u);
    GetNickShape(u);
    SplitFirstOf(nick, '!', u.chatId + "@hangouts");
    assert nick + "!" + u.chatId + "@hangouts" == nick + ['!'] + (u.chatId + "@hangouts");
    nick + "!" + u.chatId + "@hangouts"
  }

  const TopicPrefix := "Hangouts conversation: "

  /** `get_topic`: "Unknown" when no conversation was found, otherwise a fixed prefix and
      the conversation's display name. */
  function GetTopic(conv: Option<Conversation>): (r: string)
    ensures r == "Unknown" <==> conv.None?
    ensures conv.Some? ==> TopicPrefix <= r && r[|TopicPrefix|..] == ConvName(conv.value)
  {
    match conv
    case None => "Unknown"
    case Some(c) => TopicPrefix + ConvName(c)
  }

  /** Topics of found conversations tell their display names apart. */
  lemma TopicInjective(a: Conversation, b: Conversation)
    ensures GetTopic(Some(a)) == GetTopic(Some(b)) <==> ConvName(a) == ConvName(b)
  {
  }
}
