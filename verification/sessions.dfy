/** The per-client line handler of pickups/server.py (`_handle_client`), one line at a
    time, as a pure transition over the session record and the shared joined-channel map. */
module Sessions {
  import opened Wrappers
  import opened Seqs
  import opened Strings
  import opened Util
  import opened Irc

  /** What the handler reads from the hangups side: the conversation list and the
      account's own user. */
  datatype Backend = Backend(conversations: seq<Conversation>, selfUser: User)

  /** One client's state. `nickname` and `sentMessages` live on the irc client object,
      `username` and `welcomed` are locals of the handler. An unset nickname or username
      (Python `None`) is the empty string: both are false in the handler's test, and
      neither is ever a key of the joined-channel map. */
  datatype Session = Session(nickname: string, username: string, welcomed: bool, sentMessages: seq<string>)

  const NewSession := Session("", "", false, [])

  /** `clientsChannels`: nickname to the channels joined under that nickname, shared by
      all sessions. */
  type Joined = map<string, seq<string>>

  /** Every joined list is free of duplicates. */
  predicate AllNoDup(joined: Joined)
  {
    forall k :: k in joined ==> NoDup(joined[k])
  }

  /** A session whose welcome check has run: it is welcomed, or it still lacks a nickname
      or a username. Every session the handler leaves running is settled. */
  predicate Settled(s: Session)
  {
    s.welcomed || s.nickname == "" || s.username == ""
  }

  /** A line as read from the socket: undecodable bytes, or decoded text. */
  datatype Received = Undecodable | Decoded(text: string)

  /** Whether the handler keeps reading, left its loop on an empty line, or raised
      (which ends the task just the same). */
  datatype Outcome = Reading | Closed | Raised

  datatype Step = Step(session: Session, joined: Joined, out: seq<Output>, outcome: Outcome)

  /** The command a line selects, by the same prefix tests in the same order as the
      handler, with the fields its `split` calls extract. `Malformed` is a line whose
      extraction raises. */
  datatype Command =
    | SetNick(name: string)
    | SetUser(name: string)
    | ListConversations
    | SendText(target: string, text: string)
    | JoinChannels(targets: seq<string>)
    | WhoQuery(query: string)
    | ModeQuery(query: string)
    | PingCmd
    | Ignored
    | Malformed

  /** The second space-separated word, as `line.split(' ')[1]`. */
  function SecondWord(line: string): Option<string>
  {
    var words := Split(line, ' ');
    if |words| < 2 then None else Some(words[1])
  }

  /** The PRIVMSG branch: target up to the second space, text after it less one leading `:`. */
  function ParseSend(line: string): Command
  {
    match SplitFirst(line, ' ')
    case None => Malformed
    case Some((_, rest)) =>
      match SplitFirst(rest, ' ')
      case None => Malformed
      case Some((target, text)) =>
        if |text| == 0 then Malformed
        else SendText(target, if text[0] == ':' then text[1..] else text)
  }

  function Parse(line: string): Command
  {
    if "NICK" <= line then
      match SplitFirst(line, ' ')
      case None => Malformed
      case Some((_, rest)) => SetNick(rest)
    else if "USER" <= line then
      match SplitFirst(line, ' ')
      case None => Malformed
      case Some((_, rest)) => SetUser(rest)
    else if "LIST" <= line then ListConversations
    else if "PRIVMSG" <= line then ParseSend(line)
    else if "JOIN" <= line then
      match SecondWord(line)
      case None => Malformed
      case Some(w) => JoinChannels(Split(w, ','))
    else if "WHO" <= line then
      match SecondWord(line)
      case None => Malformed
      case Some(w) => WhoQuery(w)
    else if "MODE" <= line then
      match SecondWord(line)
      case None => Malformed
      case Some(w) => ModeQuery(w)
    else if "PING" <= line then PingCmd
    else Ignored
  }

  /** The dispatch of the handler: the first matching prefix decides the command, LIST
      and PING always succeed, the other six can fail only as `Malformed`, and a line with
      none of the eight prefixes is ignored. */
  lemma ParseDispatch(line: string)
    ensures var r := Parse(line);
      && (r.SetNick? ==> "NICK" <= line)
      && (r.SetUser? ==> "USER" <= line)
      && (r.ListConversations? <==> "LIST" <= line)
      && (r.SendText? ==> "PRIVMSG" <= line)
      && (r.JoinChannels? ==> "JOIN" <= line)
      && (r.WhoQuery? ==> "WHO" <= line)
      && (r.ModeQuery? ==> "MODE" <= line)
      && (r.PingCmd? <==> "PING" <= line)
      && (r.Malformed? ==>
            ("NICK" <= line || "USER" <= line || "PRIVMSG" <= line
             || "JOIN" <= line || "WHO" <= line || "MODE" <= line))
      && (r.Ignored? <==>
            !("NICK" <= line || "USER" <= line || "LIST" <= line || "PRIVMSG" <= line
              || "JOIN" <= line || "WHO" <= line || "MODE" <= line || "PING" <= line))
  {
    ParseWords(line);
    ParseFallback(line);
  }

  /** The eight command prefixes are told apart by their first one or two characters,
      so at most one of them starts a line. */
  lemma PrefixHeads(line: string)
    ensures "NICK" <= line ==> line[0] == 'N'
    ensures "USER" <= line ==> line[0] == 'U'
    ensures "LIST" <= line ==> line[0] == 'L'
    ensures "PRIVMSG" <= line ==> line[0] == 'P' && line[1] == 'R'
    ensures "JOIN" <= line ==> line[0] == 'J'
    ensures "WHO" <= line ==> line[0] == 'W'
    ensures "MODE" <= line ==> line[0] == 'M'
    ensures "PING" <= line ==> line[0] == 'P' && line[1] == 'I'
  {
    if "NICK" <= line { assert line[0] == "NICK"[0]; }
    if "USER" <= line { assert line[0] == "USER"[0]; }
    if "LIST" <= line { assert line[0] == "LIST"[0]; }
    if "PRIVMSG" <= line { assert line[..2] == "PRIVMSG"[..2]; }
    if "JOIN" <= line { assert line[0] == "JOIN"[0]; }
    if "WHO" <= line { assert line[0] == "WHO"[0]; }
    if "MODE" <= line { assert line[0] == "MODE"[0]; }
    if "PING" <= line { assert line[..2] == "PING"[..2]; }
  }

  lemma ParseWords(line: string)
    ensures var r := Parse(line);
      && (r.SetNick? ==> "NICK" <= line)
      && (r.SetUser? ==> "USER" <= line)
      && (r.ListConversations? <==> "LIST" <= line)
      && (r.SendText? ==> "PRIVMSG" <= line)
      && (r.JoinChannels? ==> "JOIN" <= line)
      && (r.WhoQuery? ==> "WHO" <= line)
      && (r.ModeQuery? ==> "MODE" <= line)
  {
    PrefixHeads(line);
  }

  lemma ParseFallback(line: string)
    ensures var r := Parse(line);
      && (r.PingCmd? <==> "PING" <= line)
      && (r.Malformed? ==>
            ("NICK" <= line || "USER" <= line || "PRIVMSG" <= line
             || "JOIN" <= line || "WHO" <= line || "MODE" <= line))
      && (r.Ignored? <==>
            !("NICK" <= line || "USER" <= line || "LIST" <= line || "PRIVMSG" <= line
              || "JOIN" <= line || "WHO" <= line || "MODE" <= line || "PING" <= line))
  {
    PrefixHeads(line);
  }

  /** A line without a space fails in each of the six commands that read a word after the
      command: `split(' ', 1)[1]`, `split(' ', 2)[1:]` and `split(' ')[1]` all index past
      the end. */
  lemma ParseNoSpace(line: string)
    requires ' ' !in line
    ensures ("NICK" <= line || "USER" <= line || "PRIVMSG" <= line
             || "JOIN" <= line || "WHO" <= line || "MODE" <= line) ==> Parse(line) == Malformed
  {
    assert SplitFirst(line, ' ') == None;
    assert Split(line, ' ') == [line];
    assert SecondWord(line) == None;
    PrefixHeads(line);
  }

  /** `NICK x` and `USER x` carry the text after the first space verbatim. */
  lemma ParseNickUser(x: string)
    ensures Parse("NICK " + x) == SetNick(x)
    ensures Parse("USER " + x) == SetUser(x)
  {
    assert "NICK " + x == "NICK" + [' '] + x;
    assert "USER " + x == "USER" + [' '] + x;
    SplitFirstOf("NICK", ' ', x);
    SplitFirstOf("USER", ' ', x);
    assert !("NICK" <= "USER " + x) by {
      assert ("USER " + x)[0] == 'U';
    }
  }

  /** `PRIVMSG ch text`: the channel is the second word, the text is everything after the
      second space, with exactly one leading `:` removed. */
  lemma ParsePrivmsg(target: string, text: string)
    requires ' ' !in target && |text| > 0
    ensures Parse("PRIVMSG " + target + " " + text)
            == SendText(target, if text[0] == ':' then text[1..] else text)
  {
    var line := "PRIVMSG " + target + " " + text;
    assert line == "PRIVMSG" + [' '] + (target + [' '] + text);
    ParsePrivmsgBranch(line);
    ParseSendOf(line, target, text);
  }

  lemma ParseSendOf(line: string, target: string, text: string)
    requires ' ' !in target && |text| > 0
    requires line == "PRIVMSG" + [' '] + (target + [' '] + text)
    ensures ParseSend(line) == SendText(target, if text[0] == ':' then text[1..] else text)
  {
    SplitFirstOf("PRIVMSG", ' ', target + [' '] + text);
    SplitFirstOf(target, ' ', text);
  }

  /** A line starting with `PRIVMSG` reaches the PRIVMSG branch. */
  lemma ParsePrivmsgBranch(line: string)
    requires "PRIVMSG" <= line
    ensures Parse(line) == ParseSend(line)
  {
    assert line[0] == 'P' && line[1] == 'R';
    assert !("NICK" <= line) && !("USER" <= line) && !("LIST" <= line);
  }

  /** A line starting with `PING` reaches the PING branch. */
  lemma ParsePingBranch(line: string)
    requires "PING" <= line
    ensures Parse(line) == PingCmd
  {
    assert line[0] == 'P' && line[1] == 'I';
    assert !("NICK" <= line) && !("USER" <= line) && !("LIST" <= line);
    assert !("PRIVMSG" <= line) && !("JOIN" <= line) && !("WHO" <= line) && !("MODE" <= line);
  }

  /** A line starting with `JOIN` reaches the JOIN branch. */
  lemma ParseJoinBranch(line: string)
    requires "JOIN" <= line
    ensures Parse(line) == match SecondWord(line)
                           case None => Malformed
                           case Some(w) => JoinChannels(Split(w, ','))
  {
    assert line[0] == 'J';
    assert !("NICK" <= line) && !("USER" <= line) && !("LIST" <= line);
    assert !("PRIVMSG" <= line);
  }

  /** `JOIN a,b,...`: the comma-separated names of the second word, in order. */
  lemma ParseJoin(names: seq<string>)
    requires |names| >= 1
    requires forall i :: 0 <= i < |names| ==> ' ' !in names[i] && ',' !in names[i]
    ensures Parse("JOIN " + JoinWith(names, ',')) == JoinChannels(names)
  {
    var w := JoinWith(names, ',');
    var line := "JOIN " + w;
    JoinedHasNo(names, ',', ' ');
    assert line == "JOIN" + [' '] + w;
    SplitFirstOf("JOIN", ' ', w);
    assert Split(w, ' ') == [w];
    assert Split(line, ' ') == ["JOIN"] + [w];
    ParseJoinBranch(line);
    SplitJoin(names, ',');
  }

  /** Joining pieces free of `c` with a separator other than `c` gives a text free of `c`. */
  lemma {:induction false} JoinedHasNo(parts: seq<string>, sep: char, c: char)
    requires |parts| >= 1 && sep != c
    requires forall i :: 0 <= i < |parts| ==> c !in parts[i]
    ensures c !in JoinWith(parts, sep)
  {
    if |parts| > 1 {
      JoinedHasNo(parts[1..], sep, c);
    }
  }

  function Resolve(channel: string, b: Backend): Option<Conversation>
  {
    ChannelToConversation(channel, b.conversations)
  }

  function NickList(users: seq<User>): (r: seq<string>)
    ensures |r| == |users|
  {
    seq(|users|, i requires 0 <= i < |users| => GetNick(users[i]))
  }

  /** LIST: one row per conversation. */
  function ListRows(convs: seq<Conversation>): (r: seq<ListRow>)
    ensures |r| == |convs|
    ensures forall i :: 0 <= i < |r| ==>
      ValidChannel(r[i].channel) && r[i].members == |convs[i].users| && r[i].topic != "Unknown"
    ensures forall i :: 0 <= i < |r| ==>
      r[i].channel == ConversationToChannel(convs[i]) && r[i].topic == GetTopic(Some(convs[i]))
  {
    seq(|convs|, i requires 0 <= i < |convs| =>
      ListRow(ConversationToChannel(convs[i]), |convs[i].users|, GetTopic(Some(convs[i]))))
  }

  /** A channel offered by LIST leads back, through the lookup PRIVMSG and JOIN use, to a
      conversation with the row's sanitised name exactly when that name fits in 47
      characters. */
  lemma ListRowsResolve(convs: seq<Conversation>, i: nat)
    requires i < |convs|
    ensures var found := ChannelToConversation(ListRows(convs)[i].channel, convs);
      |Sanitize(ConvName(convs[i]))| <= ChannelBodyLength
      <==> found.Some? && Sanitize(ConvName(found.value)) == Sanitize(ConvName(convs[i]))
  {
    var c := convs[i];
    assert c in convs;
    if |Sanitize(ConvName(c))| <= ChannelBodyLength {
      ChannelRoundTrip(c, convs);
    } else {
      LongNameLookup(c, convs);
    }
  }

  /** PRIVMSG: the text is always recorded for echo suppression; it is sent only when
      the channel resolves, and an unresolved channel gets no reply at all. */
  function SendMessage(s: Session, joined: Joined, target: string, text: string, b: Backend): (r: Step)
    ensures r.outcome == Reading && r.joined == joined
    ensures r.session.nickname == s.nickname && r.session.username == s.username
    ensures r.session.welcomed == s.welcomed
    ensures r.session.sentMessages == s.sentMessages + [text]
    ensures |r.out| <= 1
    ensures r.out == [] <==> Resolve(target, b).None?
    ensures forall o :: o in r.out ==> o == Send(Resolve(target, b).value, text)
  {
    var conv := Resolve(target, b);
    var out := if conv.Some? then [Send(conv.value, text)] else [];
    Step(s.(sentMessages := s.sentMessages + [text]), joined, out, Reading)
  }

  /** The channels confirmed by JOIN replies, in order. */
  function Confirmed(out: seq<Output>): seq<string>
  {
    if |out| == 0 then []
    else (if out[0].JoinConfirm? then [out[0].channel] else []) + Confirmed(out[1..])
  }

  lemma {:induction false} ConfirmedAppend(a: seq<Output>, b: seq<Output>)
    ensures Confirmed(a + b) == Confirmed(a) + Confirmed(b)
  {
    if |a| == 0 {
      assert a + b == b;
    } else {
      assert (a + b)[0] == a[0];
      assert (a + b)[1..] == a[1..] + b;
      ConfirmedAppend(a[1..], b);
    }
  }

  /** The order of the JOIN loop's replies: each confirmation names the gateway's own
      nickname and is followed by that channel's topic; each topic follows its
      confirmation and is followed by a name list exactly when the channel resolves;
      each name list follows its topic and lists the resolved conversation's users. */
  predicate ReplyOrder(r: seq<Output>, b: Backend)
  {
    ReplyKinds(r) && ConfirmsPlaced(r, b) && TopicsPlaced(r, b) && NamesPlaced(r, b)
  }

  predicate ReplyKinds(r: seq<Output>)
  {
    forall i :: 0 <= i < |r| ==> r[i].JoinConfirm? || r[i].Topic? || r[i].Names?
  }

  predicate ConfirmsPlaced(r: seq<Output>, b: Backend)
  {
    forall i :: 0 <= i < |r| && r[i].JoinConfirm? ==>
      && r[i].nick == GetNick(b.selfUser)
      && i + 1 < |r| && r[i + 1] == Topic(r[i].channel, GetTopic(Resolve(r[i].channel, b)))
  }

  predicate TopicsPlaced(r: seq<Output>, b: Backend)
  {
    forall i :: 0 <= i < |r| && r[i].Topic? ==>
      && 0 < i && r[i - 1].JoinConfirm? && r[i - 1].channel == r[i].channel
      && (Resolve(r[i].channel, b).Some? <==> i + 1 < |r| && r[i + 1].Names?)
  }

  predicate NamesPlaced(r: seq<Output>, b: Backend)
  {
    forall i :: 0 <= i < |r| && r[i].Names? ==>
      && 0 < i && r[i - 1].Topic? && r[i - 1].channel == r[i].channel
      && Resolve(r[i].channel, b).Some?
      && r[i].nicks == NickList(Resolve(r[i].channel, b).value.users)
  }

  /** Reply blocks in the right order can be sent one after another. */
  lemma ReplyOrderAppend(x: seq<Output>, y: seq<Output>, b: Backend)
    requires ReplyOrder(x, b) && ReplyOrder(y, b)
    ensures ReplyOrder(x + y, b)
  {
    ReplyKindsAppend(x, y);
    ConfirmsPlacedAppend(x, y, b);
    TopicsPlacedAppend(x, y, b);
    NamesPlacedAppend(x, y, b);
  }

  lemma ReplyKindsAppend(x: seq<Output>, y: seq<Output>)
    requires ReplyKinds(x) && ReplyKinds(y)
    ensures ReplyKinds(x + y)
  {
    var r := x + y;
    forall i | 0 <= i < |r|
      ensures r[i].JoinConfirm? || r[i].Topic? || r[i].Names?
    {
      if i < |x| { assert r[i] == x[i]; } else { assert r[i] == y[i - |x|]; }
    }
  }

  lemma ConfirmsPlacedAppend(x: seq<Output>, y: seq<Output>, b: Backend)
    requires ConfirmsPlaced(x, b) && ConfirmsPlaced(y, b)
    ensures ConfirmsPlaced(x + y, b)
  {
    var r := x + y;
    forall i | 0 <= i < |r| && r[i].JoinConfirm?
      ensures r[i].nick == GetNick(b.selfUser)
      ensures i + 1 < |r| && r[i + 1] == Topic(r[i].channel, GetTopic(Resolve(r[i].channel, b)))
    {
      if i < |x| {
        assert r[i] == x[i] && r[i + 1] == x[i + 1];
      } else {
        assert r[i] == y[i - |x|] && r[i + 1] == y[i + 1 - |x|];
      }
    }
  }

  lemma TopicsPlacedAppend(x: seq<Output>, y: seq<Output>, b: Backend)
    requires TopicsPlaced(x, b) && TopicsPlaced(y, b) && NamesPlaced(y, b)
    ensures TopicsPlaced(x + y, b)
  {
    var r := x + y;
    forall i | 0 <= i < |r| && r[i].Topic?
      ensures && 0 < i && r[i - 1].JoinConfirm? && r[i - 1].channel == r[i].channel
              && (Resolve(r[i].channel, b).Some? <==> i + 1 < |r| && r[i + 1].Names?)
    {
      if i < |x| {
        assert r[i] == x[i] && r[i - 1] == x[i - 1];
        assert Resolve(x[i].channel, b).Some? <==> i + 1 < |x| && x[i + 1].Names?;
        if i + 1 < |x| {
          assert r[i + 1] == x[i + 1];
        } else if i + 1 < |r| {
          assert r[i + 1] == y[0] && !y[0].Names?;
        }
      } else {
        var j := i - |x|;
        assert r[i] == y[j] && y[j].Topic?;
        assert r[i - 1] == y[j - 1];
        assert Resolve(y[j].channel, b).Some? <==> j + 1 < |y| && y[j + 1].Names?;
        if i + 1 < |r| { assert r[i + 1] == y[j + 1]; }
      }
    }
    assert TopicsPlaced(r, b);
  }

  lemma NamesPlacedAppend(x: seq<Output>, y: seq<Output>, b: Backend)
    requires NamesPlaced(x, b) && NamesPlaced(y, b)
    ensures NamesPlaced(x + y, b)
  {
    var r := x + y;
    forall i | 0 <= i < |r| && r[i].Names?
      ensures 0 < i && r[i - 1].Topic? && r[i - 1].channel == r[i].channel
      ensures Resolve(r[i].channel, b).Some? && r[i].nicks == NickList(Resolve(r[i].channel, b).value.users)
    {
      if i < |x| {
        assert r[i] == x[i] && r[i - 1] == x[i - 1];
      } else {
        assert r[i] == y[i - |x|] && r[i - 1] == y[i - 1 - |x|];
      }
    }
  }

  /** The replies to joining one channel: its confirmation, its topic and, when it
      resolves, its name list. */
  function JoinReplies(channel: string, b: Backend): seq<Output>
  {
    var conv := Resolve(channel, b);
    [JoinConfirm(GetNick(b.selfUser), channel), Topic(channel, GetTopic(conv))]
    + (if conv.Some? then [Names(channel, NickList(conv.value.users))] else [])
  }

  /** One name's replies confirm exactly that name, in reply order. */
  lemma JoinRepliesOrder(channel: string, b: Backend)
    ensures ReplyOrder(JoinReplies(channel, b), b)
    ensures Confirmed(JoinReplies(channel, b)) == [channel]
  {
    JoinRepliesConfirmed(channel, b);
    var conv := Resolve(channel, b);
    var c := JoinConfirm(GetNick(b.selfUser), channel);
    var t := Topic(channel, GetTopic(conv));
    if conv.Some? {
      var n := Names(channel, NickList(conv.value.users));
      assert JoinReplies(channel, b) == [c, t, n];
      TripleOrder(c, t, n, b);
    } else {
      assert JoinReplies(channel, b) == [c, t];
      PairOrder(c, t, b);
    }
  }

  /** The three replies to joining a channel that resolves. */
  predicate JoinTriple(c: Output, t: Output, n: Output, b: Backend)
  {
    && c.JoinConfirm? && c.nick == GetNick(b.selfUser)
    && t == Topic(c.channel, GetTopic(Resolve(c.channel, b)))
    && Resolve(c.channel, b).Some?
    && n == Names(c.channel, NickList(Resolve(c.channel, b).value.users))
  }

  lemma TripleOrder(c: Output, t: Output, n: Output, b: Backend)
    requires JoinTriple(c, t, n, b)
    ensures ReplyOrder([c, t, n], b)
  {
    TripleConfirms(c, t, n, b);
    TripleTopics(c, t, n, b);
    TripleNames(c, t, n, b);
  }

  lemma TripleConfirms(c: Output, t: Output, n: Output, b: Backend)
    requires JoinTriple(c, t, n, b)
    ensures ReplyKinds([c, t, n]) && ConfirmsPlaced([c, t, n], b)
  {
    var r := [c, t, n];
    assert r[0] == c && r[1] == t && r[2] == n;
    assert c.JoinConfirm? && t.Topic? && n.Names?;
    forall i | 0 <= i < |r| && r[i].JoinConfirm?
      ensures r[i].nick == GetNick(b.selfUser)
      ensures i + 1 < |r| && r[i + 1] == Topic(r[i].channel, GetTopic(Resolve(r[i].channel, b)))
    {
      if i == 1 {
        assert false;
      } else if i == 2 {
        assert false;
      }
      assert r[i] == c && r[i + 1] == t;
    }
  }

  lemma TripleTopics(c: Output, t: Output, n: Output, b: Backend)
    requires JoinTriple(c, t, n, b)
    ensures TopicsPlaced([c, t, n], b)
  {
    var r := [c, t, n];
    assert r[0] == c && r[1] == t && r[2] == n;
    forall i | 0 <= i < |r| && r[i].Topic?
      ensures 0 < i && r[i - 1].JoinConfirm? && r[i - 1].channel == r[i].channel
      ensures Resolve(r[i].channel, b).Some? <==> i + 1 < |r| && r[i + 1].Names?
    {
      assert i == 1 && r[i] == t && r[i - 1] == c;
    }
  }

  lemma TripleNames(c: Output, t: Output, n: Output, b: Backend)
    requires JoinTriple(c, t, n, b)
    ensures NamesPlaced([c, t, n], b)
  {
    var r := [c, t, n];
    assert r[0] == c && r[1] == t && r[2] == n;
    assert c.JoinConfirm? && t.Topic?;
    forall i | 0 <= i < |r| && r[i].Names?
      ensures 0 < i && r[i - 1].Topic? && r[i - 1].channel == r[i].channel
      ensures Resolve(r[i].channel, b).Some?
      ensures r[i].nicks == NickList(Resolve(r[i].channel, b).value.users)
    {
      if i == 0 {
        assert false;
      } else if i == 1 {
        assert false;
      }
      assert r[i] == n && r[i - 1] == t;
    }
  }

  lemma PairOrder(c: Output, t: Output, b: Backend)
    requires c.JoinConfirm? && c.nick == GetNick(b.selfUser)
    requires t == Topic(c.channel, GetTopic(Resolve(c.channel, b)))
    requires Resolve(c.channel, b).None?
    ensures ReplyOrder([c, t], b)
  {
    var r := [c, t];
    assert r[0] == c && r[1] == t;
    forall i | 0 <= i < |r| && r[i].JoinConfirm?
      ensures r[i].nick == GetNick(b.selfUser)
      ensures i + 1 < |r| && r[i + 1] == Topic(r[i].channel, GetTopic(Resolve(r[i].channel, b)))
    {
      assert i == 0 && r[i] == c && r[i + 1] == t;
    }
    forall i | 0 <= i < |r| && r[i].Topic?
      ensures 0 < i && r[i - 1].JoinConfirm? && r[i - 1].channel == r[i].channel
      ensures Resolve(r[i].channel, b).None? && i + 1 == |r|
    {
      assert i == 1 && r[i] == t && r[i - 1] == c;
    }
    assert ReplyKinds(r) && ConfirmsPlaced(r, b) && TopicsPlaced(r, b) && NamesPlaced(r, b);
  }

  lemma JoinRepliesConfirmed(channel: string, b: Backend)
    ensures Confirmed(JoinReplies(channel, b)) == [channel]
  {
    var conv := Resolve(channel, b);
    var rest := [Topic(channel, GetTopic(conv))]
      + (if conv.Some? then [Names(channel, NickList(conv.value.users))] else []);
    assert JoinReplies(channel, b) == [JoinConfirm(GetNick(b.selfUser), channel)] + rest;
    ConfirmOnly(JoinConfirm(GetNick(b.selfUser), channel), rest);
  }

  /** A confirmation followed by replies of other kinds confirms one name. */
  lemma ConfirmOnly(x: Output, rest: seq<Output>)
    requires x.JoinConfirm?
    requires forall o :: o in rest ==> !o.JoinConfirm?
    ensures Confirmed([x] + rest) == [x.channel]
  {
    ConfirmedNone(rest);
    assert ([x] + rest)[0] == x && ([x] + rest)[1..] == rest;
  }

  lemma {:induction false} ConfirmedNone(out: seq<Output>)
    requires forall o :: o in out ==> !o.JoinConfirm?
    ensures Confirmed(out) == []
  {
    if |out| > 0 {
      assert out[0] in out;
      assert forall o :: o in out[1..] ==> o in out;
      ConfirmedNone(out[1..]);
    }
  }

  /** The joined-list update of the JOIN loop: each name is appended unless present. */
  function JoinList(list: seq<string>, targets: seq<string>): (r: seq<string>)
    ensures list <= r
    ensures forall x :: x in r <==> x in list || x in targets
    ensures NoDup(list) ==> NoDup(r)
    decreases |targets|
  {
    if |targets| == 0 then list
    else JoinList(AppendIfAbsent(list, targets[0]), targets[1..])
  }

  /** The replies of the JOIN loop, name by name in order. */
  function JoinOutputs(targets: seq<string>, b: Backend): (r: seq<Output>)
    ensures Confirmed(r) == targets
    ensures forall o :: o in r ==> o.JoinConfirm? || o.Topic? || o.Names?
    decreases |targets|
  {
    if |targets| == 0 then []
    else
      var here := JoinReplies(targets[0], b);
      var rest := JoinOutputs(targets[1..], b);
      JoinRepliesOrder(targets[0], b);
      ConfirmedAppend(here, rest);
      assert targets == [targets[0]] + targets[1..];
      here + rest
  }

  /** The JOIN loop's replies come in reply order: per name its confirmation, its topic
      and, when it resolves, its name list. */
  lemma {:induction false} JoinOutputsOrder(targets: seq<string>, b: Backend)
    ensures ReplyOrder(JoinOutputs(targets, b), b)
    decreases |targets|
  {
    if |targets| > 0 {
      JoinRepliesOrder(targets[0], b);
      JoinOutputsOrder(targets[1..], b);
      ReplyOrderAppend(JoinReplies(targets[0], b), JoinOutputs(targets[1..], b), b);
    }
  }

  /** Every name gets a topic reply; a name-list reply comes exactly for the names that
      resolve to a conversation. */
  lemma {:induction false} JoinOutputsReplies(targets: seq<string>, b: Backend)
    ensures forall i :: 0 <= i < |targets| ==>
      Topic(targets[i], GetTopic(Resolve(targets[i], b))) in JoinOutputs(targets, b)
    ensures forall i :: 0 <= i < |targets| && Resolve(targets[i], b).Some? ==>
      Names(targets[i], NickList(Resolve(targets[i], b).value.users)) in JoinOutputs(targets, b)
    ensures forall o :: o in JoinOutputs(targets, b) && o.Names? ==>
      o.channel in targets && Resolve(o.channel, b).Some?
    decreases |targets|
  {
    if |targets| > 0 {
      var here := JoinReplies(targets[0], b);
      var rest := JoinOutputs(targets[1..], b);
      assert JoinOutputs(targets, b) == here + rest;
      JoinOutputsReplies(targets[1..], b);
      forall i | 1 <= i < |targets|
        ensures targets[i] == targets[1..][i - 1]
      {
      }
    }
  }

  /** JOIN. A nickname that is not a key of the joined map (no welcome yet) raises a
      KeyError right after the first confirmation. */
  function JoinCommand(s: Session, joined: Joined, targets: seq<string>, b: Backend): (r: Step)
    ensures r.session == s
    ensures r.outcome == Raised <==> |targets| > 0 && s.nickname !in joined
    ensures r.outcome == Reading ==> r.joined.Keys == joined.Keys
    ensures r.outcome == Reading && |targets| > 0 ==>
      forall x :: x in r.joined[s.nickname] <==> x in joined[s.nickname] || x in targets
    ensures r.outcome == Reading ==> forall k :: k in joined && k != s.nickname ==> r.joined[k] == joined[k]
    ensures AllNoDup(joined) ==> AllNoDup(r.joined)
    ensures r.outcome == Reading ==> Confirmed(r.out) == targets
    ensures forall o :: o in r.out ==> o.JoinConfirm? || o.Topic? || o.Names?
  {
    if |targets| == 0 then Step(s, joined, [], Reading)
    else if s.nickname !in joined then
      Step(s, joined, [JoinConfirm(GetNick(b.selfUser), targets[0])], Raised)
    else
      Step(s, joined[s.nickname := JoinList(joined[s.nickname], targets)], JoinOutputs(targets, b), Reading)
  }

  function Execute(cmd: Command, s: Session, joined: Joined, b: Backend): (r: Step)
    ensures r.outcome != Closed
    ensures r.session.welcomed == s.welcomed
    ensures s.sentMessages <= r.session.sentMessages
    ensures WelcomeReply !in r.out
    ensures AllNoDup(joined) ==> AllNoDup(r.joined)
    ensures r.joined.Keys == joined.Keys
    ensures r.outcome == Raised <==>
      cmd.Malformed? || (cmd.JoinChannels? && |cmd.targets| > 0 && s.nickname !in joined)
    ensures cmd.Ignored? ==> r == Step(s, joined, [], Reading)
  {
    match cmd
    case SetNick(name) => Step(s.(nickname := name), joined, [], Reading)
    case SetUser(name) => Step(s.(username := name), joined, [], Reading)
    case ListConversations => Step(s, joined, [ChannelList(ListRows(b.conversations))], Reading)
    case SendText(target, text) => SendMessage(s, joined, target, text, b)
    case JoinChannels(targets) => JoinCommand(s, joined, targets, b)
    case WhoQuery(q) => Step(s, joined, if "#" <= q then [WhoReply(q)] else [], Reading)
    case ModeQuery(q) => Step(s, joined, if "#" <= q then [ModeReply(q)] else [], Reading)
    case PingCmd => Step(s, joined, [Pong], Reading)
    case Ignored => Step(s, joined, [], Reading)
    case Malformed => Step(s, joined, [], Raised)
  }

  /** The welcome, self-nickname and three-line MOTD sent on completing the handshake. */
  function WelcomeBlock(selfNick: string): seq<Output>
  {
    [WelcomeReply, TellNick(selfNick), MotdStart, MotdLine, MotdEnd]
  }

  /** The welcome itself: mark the session welcomed, reset the client's joined list and
      send the five welcome lines. */
  function Welcome(st: Step, b: Backend): (r: Step)
    requires st.outcome == Reading && st.session.nickname != "" && st.session.username != ""
    ensures r.outcome == Reading && Settled(r.session)
    ensures r.session == st.session.(welcomed := true)
    ensures r.joined == st.joined[st.session.nickname := []]
    ensures AllNoDup(st.joined) ==> AllNoDup(r.joined)
    ensures "" !in st.joined ==> "" !in r.joined
    ensures |r.out| >= 5 && r.out[|r.out| - 5..] == WelcomeBlock(GetNick(b.selfUser))
    ensures r.out == st.out + WelcomeBlock(GetNick(b.selfUser))
    ensures WelcomeReply in r.out
    ensures WelcomeReply !in st.out ==> multiset(r.out)[WelcomeReply] == 1
  {
    var block := WelcomeBlock(GetNick(b.selfUser));
    var out := st.out + block;
    assert multiset(out) == multiset(st.out) + multiset(block);
    assert out[|out| - 5..] == block;
    Step(st.session.(welcomed := true), st.joined[st.session.nickname := []], out, Reading)
  }

  /** The check at the end of each handled line: the first time both a nickname and a
      username are known, welcome the client and reset its joined list. */
  function CompleteHandshake(st: Step, b: Backend): (r: Step)
    ensures r.session.sentMessages == st.session.sentMessages
    ensures r.outcome == st.outcome
    ensures st.session.welcomed ==> r == st
    ensures r.out == st.out || r.out == st.out + WelcomeBlock(GetNick(b.selfUser))
    ensures r.outcome == Reading ==> Settled(r.session)
    ensures AllNoDup(st.joined) ==> AllNoDup(r.joined)
    ensures "" !in st.joined ==> "" !in r.joined
    ensures st.session.welcomed ==> r.session.welcomed
    ensures WelcomeReply !in st.out ==>
      && (WelcomeReply in r.out <==> !st.session.welcomed && r.session.welcomed)
      && multiset(r.out)[WelcomeReply] <= 1
    ensures !st.session.welcomed && r.session.welcomed ==>
      && r.outcome == Reading
      && r.session.nickname != "" && r.session.username != ""
      && r.session.nickname in r.joined && r.joined[r.session.nickname] == []
      && |r.out| >= 5 && r.out[|r.out| - 5..] == WelcomeBlock(GetNick(b.selfUser))
    ensures r.session == st.session.(welcomed := r.session.welcomed)
    ensures r.joined == st.joined || r.joined == st.joined[st.session.nickname := []]
  {
    var s := st.session;
    if st.outcome == Reading && !s.welcomed && s.nickname != "" && s.username != "" then
      Welcome(st, b)
    else st
  }

  /** One iteration of the handler loop. */
  function HandleLine(s: Session, joined: Joined, line: Received, b: Backend): (r: Step)
    ensures line.Undecodable? ==> r == Step(s, joined, [], Reading)
    ensures line.Decoded? && Strip(line.text) == "" ==> r == Step(s, joined, [], Closed)
    ensures s.welcomed ==> r.session.welcomed
    ensures s.sentMessages <= r.session.sentMessages
    ensures WelcomeReply in r.out <==> !s.welcomed && r.session.welcomed
    ensures multiset(r.out)[WelcomeReply] <= 1
    ensures !s.welcomed && r.session.welcomed ==>
      && r.outcome == Reading
      && r.session.nickname != "" && r.session.username != ""
      && r.session.nickname in r.joined && r.joined[r.session.nickname] == []
      && |r.out| >= 5 && r.out[|r.out| - 5..] == WelcomeBlock(GetNick(b.selfUser))
    ensures r.outcome == Reading && Settled(s) ==> Settled(r.session)
    ensures AllNoDup(joined) ==> AllNoDup(r.joined)
    ensures "" !in joined ==> "" !in r.joined
  {
    match line
    case Undecodable => Step(s, joined, [], Reading)
    case Decoded(text) =>
      var l := Strip(text);
      if l == "" then Step(s, joined, [], Closed)
      else
        CompleteHandshake(Execute(Parse(l), s, joined, b), b)
  }

  /** A line that needs no stripping is parsed, executed and followed by the welcome check. */
  lemma HandleDecoded(s: Session, joined: Joined, line: string, b: Backend)
    requires line != "" && Strip(line) == line
    ensures HandleLine(s, joined, Decoded(line), b) == CompleteHandshake(Execute(Parse(line), s, joined, b), b)
  {
  }

  /** `NICK x` stores `x` verbatim as the nickname; the only other change is the welcome,
      which happens when this completes the pair for the first time. */
  lemma NickLine(s: Session, joined: Joined, x: string, b: Backend)
    requires |x| == 0 || !IsLineEnd(x[|x| - 1])
    ensures var r := HandleLine(s, joined, Decoded("NICK " + x), b);
      && r.outcome == Reading
      && r.session.nickname == x
      && r.session.username == s.username
      && r.session.sentMessages == s.sentMessages
      && if !s.welcomed && x != "" && s.username != "" then
           r.session.welcomed && r.joined == joined[x := []] && r.out == WelcomeBlock(GetNick(b.selfUser))
         else
           r.session.welcomed == s.welcomed && r.joined == joined && r.out == []
  {
    var line := "NICK " + x;
    assert line[|line| - 1] == if |x| == 0 then ' ' else x[|x| - 1];
    assert Strip(line) == line;
    ParseNickUser(x);
    var st := Execute(SetNick(x), s, joined, b);
    assert st == Step(s.(nickname := x), joined, [], Reading);
    assert HandleLine(s, joined, Decoded(line), b) == CompleteHandshake(st, b);
  }

  /** `USER x` stores `x` verbatim as the username, with the same welcome rule. */
  lemma UserLine(s: Session, joined: Joined, x: string, b: Backend)
    requires |x| == 0 || !IsLineEnd(x[|x| - 1])
    ensures var r := HandleLine(s, joined, Decoded("USER " + x), b);
      && r.outcome == Reading
      && r.session.username == x
      && r.session.nickname == s.nickname
      && r.session.sentMessages == s.sentMessages
      && if !s.welcomed && s.nickname != "" && x != "" then
           r.session.welcomed && r.joined == joined[s.nickname := []]
           && r.out == WelcomeBlock(GetNick(b.selfUser))
         else
           r.session.welcomed == s.welcomed && r.joined == joined && r.out == []
  {
    var line := "USER " + x;
    assert line[|line| - 1] == if |x| == 0 then ' ' else x[|x| - 1];
    assert Strip(line) == line;
    ParseNickUser(x);
    var st := Execute(SetUser(x), s, joined, b);
    assert st == Step(s.(username := x), joined, [], Reading);
    assert HandleLine(s, joined, Decoded(line), b) == CompleteHandshake(st, b);
  }

  /** `PRIVMSG ch text` on a settled session: the text, less one leading `:`, is appended
      to the sent messages whether or not `ch` resolves; it is sent to the conversation
      only when `ch` resolves, and nothing else is emitted. */
  lemma PrivmsgLine(s: Session, joined: Joined, target: string, text: string, b: Backend)
    requires Settled(s)
    requires ' ' !in target && |text| > 0 && !IsLineEnd(text[|text| - 1])
    ensures var r := HandleLine(s, joined, Decoded("PRIVMSG " + target + " " + text), b);
      var sent := if text[0] == ':' then text[1..] else text;
      && r.outcome == Reading
      && r.joined == joined
      && r.session == s.(sentMessages := s.sentMessages + [sent])
      && r.out == if Resolve(target, b).Some? then [Send(Resolve(target, b).value, sent)] else []
  {
    var sent := if text[0] == ':' then text[1..] else text;
    PrivmsgLineCommand(s, joined, "PRIVMSG " + target + " " + text, target, text, b);
    SendMessageResult(s, joined, target, sent, b);
  }

  lemma PrivmsgLineCommand(s: Session, joined: Joined, line: string, target: string, text: string, b: Backend)
    requires Settled(s)
    requires ' ' !in target && |text| > 0 && !IsLineEnd(text[|text| - 1])
    requires line == "PRIVMSG " + target + " " + text
    ensures HandleLine(s, joined, Decoded(line), b)
      == SendMessage(s, joined, target, if text[0] == ':' then text[1..] else text, b)
  {
    var sent := if text[0] == ':' then text[1..] else text;
    assert line[|line| - 1] == text[|text| - 1];
    ParsePrivmsg(target, text);
    HandleParsedSend(s, joined, line, target, sent, b);
  }

  lemma HandleParsedSend(s: Session, joined: Joined, line: string, target: string, text: string, b: Backend)
    requires Settled(s)
    requires line != "" && Strip(line) == line && Parse(line) == SendText(target, text)
    ensures HandleLine(s, joined, Decoded(line), b) == SendMessage(s, joined, target, text, b)
  {
    HandleDecoded(s, joined, line, b);
    SettledNoHandshake(SendMessage(s, joined, target, text, b), b);
  }

  /** The step `SendMessage` takes, spelled out. */
  lemma SendMessageResult(s: Session, joined: Joined, target: string, text: string, b: Backend)
    ensures var r := SendMessage(s, joined, target, text, b);
      && r.session == s.(sentMessages := s.sentMessages + [text])
      && r.out == if Resolve(target, b).Some? then [Send(Resolve(target, b).value, text)] else []
  {
    var r := SendMessage(s, joined, target, text, b);
    if Resolve(target, b).Some? {
      assert r.out[0] in r.out;
    }
  }

  /** `JOIN a,b,...` on a settled, welcomed-nickname session: the session record is
      unchanged, the nickname's joined list gains the names (each at most once) and the
      replies are those of the JOIN loop. */
  lemma JoinLine(s: Session, joined: Joined, names: seq<string>, b: Backend)
    requires Settled(s) && s.nickname in joined
    requires |names| >= 1
    requires forall i :: 0 <= i < |names| ==>
      ' ' !in names[i] && ',' !in names[i] && '\r' !in names[i] && '\n' !in names[i]
    ensures var r := HandleLine(s, joined, Decoded("JOIN " + JoinWith(names, ',')), b);
      && r.outcome == Reading
      && r.session == s
      && r.joined == joined[s.nickname := JoinList(joined[s.nickname], names)]
      && r.out == JoinOutputs(names, b)
  {
    JoinLineCommand(s, joined, "JOIN " + JoinWith(names, ','), names, b);
  }

  lemma JoinLineCommand(s: Session, joined: Joined, line: string, names: seq<string>, b: Backend)
    requires Settled(s)
    requires |names| >= 1
    requires forall i :: 0 <= i < |names| ==>
      ' ' !in names[i] && ',' !in names[i] && '\r' !in names[i] && '\n' !in names[i]
    requires line == "JOIN " + JoinWith(names, ',')
    ensures HandleLine(s, joined, Decoded(line), b) == JoinCommand(s, joined, names, b)
  {
    JoinLineStripped(names);
    ParseJoin(names);
    HandleParsedJoin(s, joined, line, names, b);
  }

  lemma HandleParsedJoin(s: Session, joined: Joined, line: string, names: seq<string>, b: Backend)
    requires Settled(s)
    requires line != "" && Strip(line) == line && Parse(line) == JoinChannels(names)
    ensures HandleLine(s, joined, Decoded(line), b) == JoinCommand(s, joined, names, b)
  {
    HandleDecoded(s, joined, line, b);
    SettledNoHandshake(JoinCommand(s, joined, names, b), b);
  }

  /** The welcome check does nothing to a settled session. */
  lemma SettledNoHandshake(st: Step, b: Backend)
    requires Settled(st.session)
    ensures CompleteHandshake(st, b) == st
  {
  }

  lemma JoinLineStripped(names: seq<string>)
    requires |names| >= 1
    requires forall i :: 0 <= i < |names| ==> '\r' !in names[i] && '\n' !in names[i]
    ensures Strip("JOIN " + JoinWith(names, ',')) == "JOIN " + JoinWith(names, ',')
  {
    var w := JoinWith(names, ',');
    var line := "JOIN " + w;
    JoinedHasNo(names, ',', '\r');
    JoinedHasNo(names, ',', '\n');
    assert line[|line| - 1] == if |w| == 0 then ' ' else w[|w| - 1];
    assert |w| > 0 ==> w[|w| - 1] in w;
  }

  /** `PING ...` on a settled session emits exactly one PONG and changes nothing. */
  lemma PingLine(s: Session, joined: Joined, x: string, b: Backend)
    requires Settled(s)
    requires |x| == 0 || !IsLineEnd(x[|x| - 1])
    ensures HandleLine(s, joined, Decoded("PING" + x), b) == Step(s, joined, [Pong], Reading)
  {
    var line := "PING" + x;
    assert line[0] == 'P';
    assert line[|line| - 1] == if |x| == 0 then 'G' else x[|x| - 1];
    assert Strip(line) == line;
    assert "PING" <= line;
    ParsePingBranch(line);
    HandleDecoded(s, joined, line, b);
    SettledNoHandshake(Step(s, joined, [Pong], Reading), b);
  }

  /** The handler loop over a sequence of lines, up to the first line that ends it. */
  function Run(s: Session, joined: Joined, lines: seq<Received>, b: Backend): (r: Step)
    ensures s.welcomed ==> r.session.welcomed
    ensures AllNoDup(joined) ==> AllNoDup(r.joined)
    decreases |lines|
  {
    if |lines| == 0 then Step(s, joined, [], Reading)
    else
      var st := HandleLine(s, joined, lines[0], b);
      if st.outcome != Reading then st
      else
        var rest := Run(st.session, st.joined, lines[1..], b);
        rest.(out := st.out + rest.out)
  }

  /** The welcome is sent at most once in a session's life, and never again once the
      session is welcomed. */
  lemma {:induction false} WelcomeAtMostOnce(s: Session, joined: Joined, lines: seq<Received>, b: Backend)
    ensures multiset(Run(s, joined, lines, b).out)[WelcomeReply] <= if s.welcomed then 0 else 1
    decreases |lines|
  {
    if |lines| > 0 {
      var st := HandleLine(s, joined, lines[0], b);
      if st.outcome == Reading {
        WelcomeAtMostOnce(st.session, st.joined, lines[1..], b);
      }
    }
  }

  /** Only the stripped text of a line matters. */
  lemma HandleStripped(s: Session, joined: Joined, text: string, b: Backend)
    ensures HandleLine(s, joined, Decoded(text), b) == HandleLine(s, joined, Decoded(Strip(text)), b)
  {
    var l := Strip(text);
    if l != "" {
      assert Strip(l) == l;
    }
  }

  /** The loop over two lines. */
  lemma RunTwo(s: Session, joined: Joined, l1: Received, l2: Received, b: Backend)
    ensures var st := HandleLine(s, joined, l1, b);
      var st2 := HandleLine(st.session, st.joined, l2, b);
      Run(s, joined, [l1, l2], b) == if st.outcome != Reading then st else st2.(out := st.out + st2.out)
  {
    var lines := [l1, l2];
    assert lines[0] == l1 && lines[1..] == [l2];
    assert [l2][0] == l2 && [l2][1..] == [];
    var st := HandleLine(s, joined, l1, b);
    if st.outcome == Reading {
      var st2 := HandleLine(st.session, st.joined, l2, b);
      var rest := Run(st.session, st.joined, [l2], b);
      if st2.outcome == Reading {
        assert Run(st2.session, st2.joined, [], b).out == [];
        assert st2.out + [] == st2.out;
      }
      assert rest == st2;
      assert Run(s, joined, lines, b) == rest.(out := st.out + rest.out);
    }
  }

  /** A CR-LF terminated `NICK n` on a new session only records the nickname. */
  lemma NickFirst(n: string, joined: Joined, b: Backend)
    requires n != "" && !IsLineEnd(n[|n| - 1])
    ensures HandleLine(NewSession, joined, Decoded("NICK " + n + "\r\n"), b)
            == Step(Session(n, "", false, []), joined, [], Reading)
  {
    var line := "NICK " + n;
    assert line[|line| - 1] == n[|n| - 1];
    StripTerminator(line);
    HandleStripped(NewSession, joined, line + "\r\n", b);
    NickLine(NewSession, joined, n, b);
  }

  /** A CR-LF terminated `USER u` after the nickname completes the handshake. */
  lemma UserSecond(n: string, u: string, joined: Joined, b: Backend)
    requires n != ""
    requires u != "" && !IsLineEnd(u[|u| - 1])
    ensures HandleLine(Session(n, "", false, []), joined, Decoded("USER " + u + "\r\n"), b)
            == Step(Session(n, u, true, []), joined[n := []], WelcomeBlock(GetNick(b.selfUser)), Reading)
  {
    var line := "USER " + u;
    assert line[|line| - 1] == u[|u| - 1];
    StripTerminator(line);
    HandleStripped(Session(n, "", false, []), joined, line + "\r\n", b);
    UserLine(Session(n, "", false, []), joined, u, b);
  }

  /** A new client sending `NICK n` then `USER u`, each CR-LF terminated, is welcomed
      with exactly the welcome, self-nickname and MOTD replies, in that order, and its
      joined list starts empty. */
  lemma HandshakeScenario(n: string, u: string, joined: Joined, b: Backend)
    requires n != "" && !IsLineEnd(n[|n| - 1])
    requires u != "" && !IsLineEnd(u[|u| - 1])
    ensures var r := Run(NewSession, joined, [Decoded("NICK " + n + "\r\n"), Decoded("USER " + u + "\r\n")], b);
      && r.outcome == Reading
      && r.session == Session(n, u, true, [])
      && r.joined == joined[n := []]
      && r.out == WelcomeBlock(GetNick(b.selfUser))
  {
    var l1, l2 := Decoded("NICK " + n + "\r\n"), Decoded("USER " + u + "\r\n");
    NickFirst(n, joined, b);
    UserSecond(n, u, joined, b);
    RunQuietFirst(NewSession, joined, l1, l2, b, Session(n, "", false, []));
  }

  /** Two lines whose first only updates the session run as the second on that session. */
  lemma RunQuietFirst(s: Session, joined: Joined, l1: Received, l2: Received, b: Backend, s1: Session)
    requires HandleLine(s, joined, l1, b) == Step(s1, joined, [], Reading)
    ensures Run(s, joined, [l1, l2], b) == HandleLine(s1, joined, l2, b)
  {
    RunTwo(s, joined, l1, l2, b);
    var st := HandleLine(s, joined, l1, b);
    assert st.outcome == Reading && st.session == s1 && st.joined == joined && st.out == [];
    var st2 := HandleLine(s1, joined, l2, b);
    assert Run(s, joined, [l1, l2], b) == st2.(out := st.out + st2.out);
    assert st.out + st2.out == st2.out;
  }
}
