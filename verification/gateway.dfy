/** The shared part of pickups/server.py: the table of live clients (`self.clients`,
    filled by `_on_client_connect`, emptied by `_on_client_lost`), the routing of one
    client's line through its handler, and the fan-out of hangups events
    (`_on_hangups_event`) with synthetic joins and echo suppression. */
module Gateway {
  import opened Wrappers
  import opened Seqs
  import opened Util
  import opened Irc
  import opened Sessions

  /** The identity of a client's handler task, which keys `self.clients`. */
  type Handle = nat

  datatype Entry = Entry(handle: Handle, session: Session)

  /** `self.clients` in the order its values are iterated, taken to be insertion order. */
  type Clients = seq<Entry>

  /** A dict has each key once. */
  predicate DistinctHandles(t: Clients)
  {
    forall i, j :: 0 <= i < j < |t| ==> t[i].handle != t[j].handle
  }

  function Handles(t: Clients): set<Handle>
  {
    set i | 0 <= i < |t| :: t[i].handle
  }

  lemma HandlesCons(e: Entry, t: Clients)
    ensures Handles([e] + t) == {e.handle} + Handles(t)
  {
    var u := [e] + t;
    forall h ensures h in Handles(u) <==> h in {e.handle} + Handles(t) {
      if h == e.handle {
        assert u[0].handle == h;
      }
      if h in Handles(u) {
        var i :| 0 <= i < |u| && u[i].handle == h;
        if i > 0 {
          assert t[i - 1].handle == h;
        }
      }
      if h in Handles(t) {
        var i :| 0 <= i < |t| && t[i].handle == h;
        assert u[i + 1].handle == h;
      }
    }
  }

  /** `self.clients[h]`, `None` when `h` is not a key. */
  function Find(t: Clients, h: Handle): (r: Option<Session>)
    ensures r.Some? <==> h in Handles(t)
    ensures DistinctHandles(t) ==>
      forall i :: 0 <= i < |t| && t[i].handle == h ==> r == Some(t[i].session)
  {
    if |t| == 0 then None
    else if t[0].handle == h then Some(t[0].session)
    else
      HandlesCons(t[0], t[1..]);
      assert t == [t[0]] + t[1..];
      Find(t[1..], h)
  }

  /** `self.clients[h] = s`: replaces in place, or appends a new key. */
  function Put(t: Clients, h: Handle, s: Session): (r: Clients)
    ensures Handles(r) == Handles(t) + {h}
    ensures DistinctHandles(t) ==> DistinctHandles(r)
  {
    if |t| == 0 then
      HandlesCons(Entry(h, s), t);
      assert [Entry(h, s)] + t == [Entry(h, s)];
      [Entry(h, s)]
    else
      HandlesCons(t[0], t[1..]);
      assert t == [t[0]] + t[1..];
      if t[0].handle == h then
        HandlesCons(Entry(h, s), t[1..]);
        [Entry(h, s)] + t[1..]
      else
        var rest := Put(t[1..], h, s);
        HandlesCons(t[0], rest);
        [t[0]] + rest
  }

  /** Lookups after `self.clients[h] = s`. */
  lemma {:induction false} FindPut(t: Clients, h: Handle, s: Session)
    requires DistinctHandles(t)
    ensures Find(Put(t, h, s), h) == Some(s)
    ensures forall g :: g != h ==> Find(Put(t, h, s), g) == Find(t, g)
  {
    if |t| > 0 && t[0].handle != h {
      FindPut(t[1..], h, s);
    }
  }

  /** `del self.clients[h]`. */
  function Remove(t: Clients, h: Handle): (r: Clients)
    ensures Handles(r) == Handles(t) - {h}
    ensures DistinctHandles(t) ==> DistinctHandles(r)
    ensures Find(r, h).None?
    ensures forall g :: g != h ==> Find(r, g) == Find(t, g)
  {
    if |t| == 0 then []
    else
      var rest := Remove(t[1..], h);
      HandlesCons(t[0], t[1..]);
      assert t == [t[0]] + t[1..];
      if t[0].handle == h then rest
      else
        HandlesCons(t[0], rest);
        assert ([t[0]] + rest)[1..] == rest;
        [t[0]] + rest
  }

  /** `_on_client_connect`: a new client, with no nickname, username or sent messages,
      is registered under its task. */
  function Connect(t: Clients, h: Handle): (r: Clients)
    requires DistinctHandles(t)
    ensures DistinctHandles(r)
    ensures Find(r, h) == Some(NewSession)
    ensures forall g :: g != h ==> Find(r, g) == Find(t, g)
  {
    FindPut(t, h, NewSession);
    Put(t, h, NewSession)
  }

  /** `_on_client_lost`: the task's client leaves the table. `None` is the KeyError of
      a task that is not registered. */
  function Lost(t: Clients, h: Handle): (r: Option<Clients>)
    requires DistinctHandles(t)
    ensures r.None? <==> h !in Handles(t)
    ensures r.Some? ==> DistinctHandles(r.value) && Find(r.value, h).None?
    ensures r.Some? ==> forall g :: g != h ==> Find(r.value, g) == Find(t, g)
  {
    if h in Handles(t) then Some(Remove(t, h)) else None
  }

  datatype LineStep = LineStep(clients: Clients, joined: Joined, out: seq<Output>)

  /** One line read by the task of client `h`. When the handler leaves its loop, or
      raises, the task is done and its done-callback removes the client. */
  function ClientLine(t: Clients, joined: Joined, h: Handle, line: Received, b: Backend): (r: LineStep)
    requires DistinctHandles(t)
    requires h in Handles(t)
    ensures DistinctHandles(r.clients)
    ensures var st := HandleLine(Find(t, h).value, joined, line, b);
      && r.joined == st.joined && r.out == st.out
      && Find(r.clients, h) == (if st.outcome == Reading then Some(st.session) else None)
    ensures forall g :: g != h ==> Find(r.clients, g) == Find(t, g)
  {
    var st := HandleLine(Find(t, h).value, joined, line, b);
    if st.outcome == Reading then
      FindPut(t, h, st.session);
      LineStep(Put(t, h, st.session), st.joined, st.out)
    else
      LineStep(Lost(t, h).value, st.joined, st.out)
  }

  /** A hangups conversation event. A chat message carries the conversation and the
      sender that `_conv_list.get` and `conv.get_user` return for it. */
  datatype ConvEvent = ChatMessage(conversation: Conversation, user: User, text: string) | OtherEvent

  datatype Delivery = Delivery(to: Handle, output: Output)

  datatype Fanout = Fanout(clients: Clients, joined: Joined, deliveries: seq<Delivery>)

  /** The outputs addressed to client `h`, in order. */
  function ToClient(ds: seq<Delivery>, h: Handle): seq<Output>
  {
    if |ds| == 0 then []
    else (if ds[0].to == h then [ds[0].output] else []) + ToClient(ds[1..], h)
  }

  lemma {:induction false} ToClientAppend(a: seq<Delivery>, b: seq<Delivery>, h: Handle)
    ensures ToClient(a + b, h) == ToClient(a, h) + ToClient(b, h)
  {
    if |a| == 0 {
      assert a + b == b;
    } else {
      assert (a + b)[0] == a[0];
      assert (a + b)[1..] == a[1..] + b;
      ToClientAppend(a[1..], b, h);
    }
  }

  /** Every live client's nickname is a key of `clientsChannels`; the fan-out raises a
      KeyError otherwise. */
  predicate Registered(t: Clients, joined: Joined)
  {
    forall i :: 0 <= i < |t| ==> t[i].session.nickname in joined
  }

  function Nicknames(t: Clients): set<string>
  {
    set i | 0 <= i < |t| :: t[i].session.nickname
  }

  lemma NicknamesCons(e: Entry, t: Clients)
    ensures Nicknames([e] + t) == {e.session.nickname} + Nicknames(t)
  {
    var u := [e] + t;
    forall k ensures k in Nicknames(u) <==> k in {e.session.nickname} + Nicknames(t) {
      if k == e.session.nickname {
        assert u[0].session.nickname == k;
      }
      if k in Nicknames(u) {
        var i :| 0 <= i < |u| && u[i].session.nickname == k;
        if i > 0 {
          assert t[i - 1].session.nickname == k;
        }
      }
      if k in Nicknames(t) {
        var i :| 0 <= i < |t| && t[i].session.nickname == k;
        assert u[i + 1].session.nickname == k;
      }
    }
  }

  /** No earlier client in the table shares client `i`'s nickname. */
  predicate FirstWithNick(t: Clients, i: nat)
    requires i < |t|
  {
    forall j :: 0 <= j < i ==> t[j].session.nickname != t[i].session.nickname
  }

  lemma FirstWithNickTail(t: Clients, i: nat)
    requires 0 < i < |t|
    requires t[0].session.nickname != t[i].session.nickname
    ensures FirstWithNick(t, i) <==> FirstWithNick(t[1..], i - 1)
  {
    var u := t[1..];
    assert u[i - 1] == t[i];
    if FirstWithNick(u, i - 1) {
      forall j | 0 <= j < i ensures t[j].session.nickname != t[i].session.nickname {
        if j > 0 {
          assert t[j] == u[j - 1];
        }
      }
    }
    if FirstWithNick(t, i) {
      forall j | 0 <= j < i - 1 ensures u[j].session.nickname != u[i - 1].session.nickname {
        assert u[j] == t[j + 1];
      }
    }
  }

  /** The first loop of the fan-out: each client's joined list gains the channel, and a
      client is sent a JOIN when its list still lacked it. */
  function SyntheticJoins(t: Clients, channel: string, joined: Joined): (r: (Joined, seq<Delivery>))
    requires Registered(t, joined)
    ensures r.0.Keys == joined.Keys
    ensures forall k :: k in joined ==>
      r.0[k] == if k in Nicknames(t) then AppendIfAbsent(joined[k], channel) else joined[k]
    ensures forall h :: h !in Handles(t) ==> ToClient(r.1, h) == []
    decreases |t|
  {
    if |t| == 0 then (joined, [])
    else
      var nick := t[0].session.nickname;
      var need := channel !in joined[nick];
      var j1 := if need then joined[nick := joined[nick] + [channel]] else joined;
      var rest := SyntheticJoins(t[1..], channel, j1);
      var here := if need then [Delivery(t[0].handle, Join(channel))] else [];
      HandlesCons(t[0], t[1..]);
      NicknamesCons(t[0], t[1..]);
      assert t == [t[0]] + t[1..];
      assert forall h :: h != t[0].handle ==> ToClient(here, h) == [];
      ToClientAppend(here, rest.1, t[0].handle);
      forall h | h !in Handles(t)
        ensures ToClient(here + rest.1, h) == []
      {
        ToClientAppend(here, rest.1, h);
      }
      (rest.0, here + rest.1)
  }

  /** Per client: a synthetic JOIN is sent exactly when the client's list lacked the
      channel and no earlier client with the same nickname (hence the same list) was
      sent one. */
  lemma {:induction false} SyntheticJoinsPerClient(t: Clients, channel: string, joined: Joined, i: nat)
    requires DistinctHandles(t) && Registered(t, joined)
    requires i < |t|
    ensures ToClient(SyntheticJoins(t, channel, joined).1, t[i].handle)
            == if channel !in joined[t[i].session.nickname] && FirstWithNick(t, i) then [Join(channel)] else []
    decreases |t|
  {
    var nick := t[0].session.nickname;
    var need := channel !in joined[nick];
    var j1 := if need then joined[nick := joined[nick] + [channel]] else joined;
    var rest := SyntheticJoins(t[1..], channel, j1);
    var here := if need then [Delivery(t[0].handle, Join(channel))] else [];
    var h := t[i].handle;
    var want := if channel !in joined[t[i].session.nickname] && FirstWithNick(t, i) then [Join(channel)] else [];
    assert SyntheticJoins(t, channel, joined).1 == here + rest.1;
    ToClientAppend(here, rest.1, h);
    DistinctTail(t);
    if i == 0 {
      assert ToClient(rest.1, h) == [];
      assert FirstWithNick(t, 0);
      assert ToClient(here, h) == want;
    } else {
      assert Registered(t[1..], j1);
      assert t[i] == t[1..][i - 1];
      SyntheticJoinsPerClient(t[1..], channel, j1, i - 1);
      assert h != t[0].handle;
      assert ToClient(here, h) == [];
      if t[i].session.nickname == nick {
        assert channel in j1[nick];
        assert !FirstWithNick(t, i);
        assert ToClient(rest.1, h) == [] == want;
      } else {
        assert j1[t[i].session.nickname] == joined[t[i].session.nickname];
        FirstWithNickTail(t, i);
        assert ToClient(rest.1, h) == want;
      }
    }
    assert ToClient(here, h) + ToClient(rest.1, h) == want;
  }

  lemma DistinctTail(t: Clients)
    requires DistinctHandles(t) && |t| > 0
    ensures DistinctHandles(t[1..])
    ensures t[0].handle !in Handles(t[1..])
  {
    var u := t[1..];
    forall i, j | 0 <= i < j < |u| ensures u[i].handle != u[j].handle {
      assert u[i] == t[i + 1] && u[j] == t[j + 1];
    }
    forall k | 0 <= k < |u| ensures u[k].handle != t[0].handle {
      assert u[k] == t[k + 1];
    }
  }

  /** The echo test of the fan-out for one client. */
  predicate Suppressed(s: Session, sender: string, text: string)
  {
    text in s.sentMessages && sender == s.nickname
  }

  /** The second loop of the fan-out for one client: a message this client sent itself is
      consumed from its sent messages (one occurrence) instead of being delivered;
      anything else is delivered once and leaves the client unchanged. */
  function Echo(s: Session, sender: string, hostmask: string, channel: string, text: string): (r: (Session, seq<Output>))
    ensures r.0.nickname == s.nickname && r.0.username == s.username && r.0.welcomed == s.welcomed
    ensures Suppressed(s, sender, text) ==>
      && r.1 == []
      && |r.0.sentMessages| == |s.sentMessages| - 1
      && multiset(r.0.sentMessages) == multiset(s.sentMessages) - multiset{text}
    ensures !Suppressed(s, sender, text) ==> r.0 == s && r.1 == [Privmsg(hostmask, channel, text)]
  {
    if text in s.sentMessages && sender == s.nickname then
      (s.(sentMessages := RemoveFirst(s.sentMessages, text)), [])
    else
      (s, [Privmsg(hostmask, channel, text)])
  }

  /** Addresses a client's outputs to it. */
  function Address(h: Handle, outs: seq<Output>): (r: seq<Delivery>)
    ensures ToClient(r, h) == outs
    ensures forall g :: g != h ==> ToClient(r, g) == []
  {
    if |outs| == 0 then []
    else
      var rest := Address(h, outs[1..]);
      assert ([Delivery(h, outs[0])] + rest)[1..] == rest;
      assert outs == [outs[0]] + outs[1..];
      [Delivery(h, outs[0])] + rest
  }

  /** The second loop of the fan-out over all clients. */
  function Deliver(t: Clients, sender: string, hostmask: string, channel: string, text: string): (r: (Clients, seq<Delivery>))
    ensures |r.0| == |t|
    ensures forall i :: 0 <= i < |t| ==>
      r.0[i] == Entry(t[i].handle, Echo(t[i].session, sender, hostmask, channel, text).0)
    ensures forall h :: h !in Handles(t) ==> ToClient(r.1, h) == []
    decreases |t|
  {
    if |t| == 0 then ([], [])
    else
      var e := Echo(t[0].session, sender, hostmask, channel, text);
      var rest := Deliver(t[1..], sender, hostmask, channel, text);
      var here := Address(t[0].handle, e.1);
      HandlesCons(t[0], t[1..]);
      assert t == [t[0]] + t[1..];
      forall h | h !in Handles(t) ensures ToClient(here + rest.1, h) == [] {
        ToClientAppend(here, rest.1, h);
      }
      assert forall i :: 1 <= i < |t| ==> t[i] == t[1..][i - 1];
      ([Entry(t[0].handle, e.0)] + rest.0, here + rest.1)
  }

  /** Per client, the second loop delivers exactly what the echo test gives. */
  lemma {:induction false} DeliverPerClient(t: Clients, sender: string, hostmask: string, channel: string, text: string, i: nat)
    requires DistinctHandles(t)
    requires i < |t|
    ensures ToClient(Deliver(t, sender, hostmask, channel, text).1, t[i].handle)
            == Echo(t[i].session, sender, hostmask, channel, text).1
    decreases |t|
  {
    var e := Echo(t[0].session, sender, hostmask, channel, text);
    var rest := Deliver(t[1..], sender, hostmask, channel, text);
    var here := Address(t[0].handle, e.1);
    assert Deliver(t, sender, hostmask, channel, text).1 == here + rest.1;
    ToClientAppend(here, rest.1, t[i].handle);
    DistinctTail(t);
    if i == 0 {
      assert ToClient(rest.1, t[0].handle) == [];
    } else {
      assert t[i] == t[1..][i - 1];
      DeliverPerClient(t[1..], sender, hostmask, channel, text, i - 1);
      assert t[i].handle != t[0].handle;
    }
  }

  /** `_on_hangups_event`. Only chat messages are handled: the channel of the message's
      conversation is added to every live client's joined list (with a synthetic JOIN
      where it was missing), then every client is sent the message unless it is the
      echo of its own. */
  function OnHangupsEvent(ev: ConvEvent, t: Clients, joined: Joined): (r: Fanout)
    requires ev.ChatMessage? ==> Registered(t, joined)
    ensures ev.OtherEvent? ==> r == Fanout(t, joined, [])
    ensures |r.clients| == |t|
    ensures forall i :: 0 <= i < |t| ==>
      && r.clients[i].handle == t[i].handle
      && r.clients[i].session.nickname == t[i].session.nickname
      && r.clients[i].session.username == t[i].session.username
      && r.clients[i].session.welcomed == t[i].session.welcomed
    ensures r.joined.Keys == joined.Keys
    ensures AllNoDup(joined) ==> AllNoDup(r.joined)
    ensures ev.ChatMessage? ==> forall i :: 0 <= i < |t| ==>
      ConversationToChannel(ev.conversation) in r.joined[t[i].session.nickname]
    ensures ev.ChatMessage? ==> forall k :: k in joined && k !in Nicknames(t) ==> r.joined[k] == joined[k]
  {
    match ev
    case OtherEvent => Fanout(t, joined, [])
    case ChatMessage(conv, user, text) =>
      var channel := ConversationToChannel(conv);
      var joins := SyntheticJoins(t, channel, joined);
      var msgs := Deliver(t, GetNick(user), GetHostmask(user), channel, text);
      assert forall i :: 0 <= i < |t| ==> t[i].session.nickname in Nicknames(t);
      Fanout(msgs.0, joins.0, joins.1 + msgs.1)
  }

  /** What one client sees of a chat message: first a synthetic JOIN, when its joined
      list lacked the channel and no earlier client with its nickname got one, then the
      message itself unless it is the echo of its own, which instead consumes one
      occurrence of the text from its sent messages. */
  lemma FanoutPerClient(conv: Conversation, user: User, text: string, t: Clients, joined: Joined, i: nat)
    requires DistinctHandles(t) && Registered(t, joined)
    requires i < |t|
    ensures var r := OnHangupsEvent(ChatMessage(conv, user, text), t, joined);
      var channel := ConversationToChannel(conv);
      var s := t[i].session;
      var echo := Suppressed(s, GetNick(user), text);
      && ToClient(r.deliveries, t[i].handle)
         == (if channel !in joined[s.nickname] && FirstWithNick(t, i) then [Join(channel)] else [])
            + (if echo then [] else [Privmsg(GetHostmask(user), channel, text)])
      && (echo ==> multiset(r.clients[i].session.sentMessages) == multiset(s.sentMessages) - multiset{text})
      && (!echo ==> r.clients[i].session == s)
  {
    var channel := ConversationToChannel(conv);
    var joins := SyntheticJoins(t, channel, joined);
    var msgs := Deliver(t, GetNick(user), GetHostmask(user), channel, text);
    ToClientAppend(joins.1, msgs.1, t[i].handle);
    SyntheticJoinsPerClient(t, channel, joined, i);
    DeliverPerClient(t, GetNick(user), GetHostmask(user), channel, text, i);
  }

  /** What the gateway's state becomes after a chat message: every live nickname's
      joined list gains the message's channel once, at its end, and no output goes to a
      task that is not in the table. */
  lemma {:induction false} FanoutJoined(conv: Conversation, user: User, text: string, t: Clients, joined: Joined)
    requires Registered(t, joined)
    ensures var r := OnHangupsEvent(ChatMessage(conv, user, text), t, joined);
      && (forall k :: k in joined && k in Nicknames(t) ==>
            r.joined[k] == AppendIfAbsent(joined[k], ConversationToChannel(conv)))
      && (forall h :: h !in Handles(t) ==> ToClient(r.deliveries, h) == [])
  {
    var channel := ConversationToChannel(conv);
    var joins := SyntheticJoins(t, channel, joined);
    var msgs := Deliver(t, GetNick(user), GetHostmask(user), channel, text);
    forall h | h !in Handles(t)
      ensures ToClient(joins.1 + msgs.1, h) == []
    {
      ToClientAppend(joins.1, msgs.1, h);
    }
  }

  /** Every client either has been welcomed or is still missing its nickname or its
      username: `_handle_client` checks for the welcome after every line. */
  predicate AllSettled(t: Clients)
  {
    forall i :: 0 <= i < |t| ==> Settled(t[i].session)
  }

  lemma AllSettledFind(t: Clients)
    requires DistinctHandles(t)
    ensures AllSettled(t) <==> forall h :: h in Handles(t) ==> Settled(Find(t, h).value)
  {
    if AllSettled(t) {
      forall h | h in Handles(t) ensures Settled(Find(t, h).value) {
        var i :| 0 <= i < |t| && t[i].handle == h;
      }
    }
    if forall h :: h in Handles(t) ==> Settled(Find(t, h).value) {
      forall i | 0 <= i < |t| ensures Settled(t[i].session) {
        assert t[i].handle in Handles(t);
      }
    }
  }

  /** The gateway's standing invariant: distinct tasks, duplicate-free joined lists, no
      entry for the unset nickname, and no client left registered but unwelcomed. */
  predicate Inv(t: Clients, joined: Joined)
  {
    DistinctHandles(t) && AllNoDup(joined) && "" !in joined && AllSettled(t)
  }

  /** A connection keeps the invariant: the new client has no nickname yet. */
  lemma ConnectKeepsInv(t: Clients, joined: Joined, h: Handle)
    requires Inv(t, joined)
    ensures Inv(Connect(t, h), joined)
  {
    var r := Connect(t, h);
    AllSettledFind(t);
    AllSettledFind(r);
    forall g | g in Handles(r) ensures Settled(Find(r, g).value) {
      if g != h {
        assert Find(t, g).Some?;
      }
    }
  }

  lemma LostKeepsInv(t: Clients, joined: Joined, h: Handle)
    requires Inv(t, joined) && h in Handles(t)
    ensures Inv(Lost(t, h).value, joined)
  {
    var r := Lost(t, h).value;
    AllSettledFind(t);
    AllSettledFind(r);
    forall g | g in Handles(r) ensures Settled(Find(r, g).value) {
      assert Find(t, g).Some?;
    }
  }

  /** A line keeps the invariant: a client still reading has been settled by the
      welcome check, and the joined map is the handler's. */
  lemma ClientLineKeepsInv(t: Clients, joined: Joined, h: Handle, line: Received, b: Backend)
    requires Inv(t, joined) && h in Handles(t)
    ensures var r := ClientLine(t, joined, h, line, b); Inv(r.clients, r.joined)
  {
    var r := ClientLine(t, joined, h, line, b);
    var st := HandleLine(Find(t, h).value, joined, line, b);
    assert r.joined == st.joined;
    AllSettledFind(t);
    AllSettledFind(r.clients);
    forall g | g in Handles(r.clients) ensures Settled(Find(r.clients, g).value) {
      if g != h {
        assert Find(t, g).Some?;
      }
    }
  }

  lemma FanoutKeepsInv(ev: ConvEvent, t: Clients, joined: Joined)
    requires Inv(t, joined) && Registered(t, joined) && ev.ChatMessage?
    ensures var r := OnHangupsEvent(ev, t, joined); Inv(r.clients, r.joined)
  {
    var r := OnHangupsEvent(ev, t, joined);
    forall i, j | 0 <= i < j < |t| ensures r.clients[i].handle != r.clients[j].handle {
      assert r.clients[i].handle == t[i].handle && r.clients[j].handle == t[j].handle;
    }
    forall i | 0 <= i < |t| ensures Settled(r.clients[i].session) {
      assert Settled(t[i].session);
    }
    assert AllNoDup(r.joined);
  }

  /** Every transition keeps the invariant. */
  lemma InvPreserved(t: Clients, joined: Joined, b: Backend)
    requires Inv(t, joined)
    ensures forall h :: Inv(Connect(t, h), joined)
    ensures forall h :: h in Handles(t) ==> Inv(Lost(t, h).value, joined)
    ensures forall h, line :: h in Handles(t) ==>
      var r := ClientLine(t, joined, h, line, b); Inv(r.clients, r.joined)
    ensures Registered(t, joined) ==> forall ev: ConvEvent :: ev.ChatMessage? ==>
      var r := OnHangupsEvent(ev, t, joined); Inv(r.clients, r.joined)
  {
    forall h ensures Inv(Connect(t, h), joined) {
      ConnectKeepsInv(t, joined, h);
    }
    forall h | h in Handles(t) ensures Inv(Lost(t, h).value, joined) {
      LostKeepsInv(t, joined, h);
    }
    forall h, line | h in Handles(t)
      ensures var r := ClientLine(t, joined, h, line, b); Inv(r.clients, r.joined)
    {
      ClientLineKeepsInv(t, joined, h, line, b);
    }
    forall ev: ConvEvent | ev.ChatMessage? && Registered(t, joined)
      ensures var r := OnHangupsEvent(ev, t, joined); Inv(r.clients, r.joined)
    {
      FanoutKeepsInv(ev, t, joined);
    }
  }
}
