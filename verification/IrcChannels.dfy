/**
  Clients and channels as the objects of src/irc-server/irc-proto.c: a member array with a
  parallel flag array in every channel, a channel array in every client, and the channel hash.
  Every method is proved against the network it stands for.
*/
module IrcChannels {
  import opened Sequences
  import opened IrcSpec
  import opened IrcRuns
  import opened IrcGraph

  class Client {
    const nick: string
    var channel: seq<Channel>

    constructor (nick: string)
      ensures this.nick == nick && channel == []
    {
      this.nick, channel := nick, [];
    }

    method Position(h: Channel) returns (i: nat)
      requires h in channel
      ensures i < |channel| && channel[i] == h
    {
      i := 0;
      while channel[i] != h
        invariant i < |channel| && h !in channel[..i]
        decreases |channel| - i
      {
        i := i + 1;
      }
    }
  }

  class Channel {
    const id: ChannelId
    var client: seq<Client>
    var cflag: seq<Flags>
    var flag: Flags
    var users: int
    var key: string
    var invite: seq<Client>

    constructor (id: ChannelId, founder: Client)
      ensures Rec() == Record(id, [founder], [{OPERATOR}], {}, 0, "", [])
    {
      this.id, client, cflag := id, [founder], [{OPERATOR}];
      flag, users, key, invite := {}, 0, "", [];
    }

    ghost function Rec(): Record<Client>
      reads this
    {
      Record(id, client, cflag, flag, users, key, invite)
    }

    // irc_client_flag, for an issuer with operator flag `oper`
    method SetClientFlag(nickOf: Client -> string, oper: bool, nick: string, m: Mode, on: bool)
      requires |client| == |cflag| && NoDuplicates(client)
      requires forall c, d :: c in client && d in client && nickOf(c) == nickOf(d) ==> c == d
      modifies this`cflag
      ensures |cflag| == |client|
      ensures Rec() == old(Rec()).(cflag := cflag)
      ensures ChanOf(Rec()) == if oper then ClientFlag(old(ChanOf(Rec())), nickOf, nick, m, on) else old(ChanOf(Rec()))
    {
      hide Members, ClientFlag;
      if oper {
        var i := 0;
        while i < |client| && nickOf(client[i]) != nick
          invariant i <= |client|
          invariant forall j :: 0 <= j < i ==> nickOf(client[j]) != nick
        {
          i := i + 1;
        }
        if i < |client| {
          ClientFlagAt(Rec(), nickOf, i, m, on);
          cflag := cflag[i := Turn(cflag[i], m, on)];
        } else {
          ClientFlagNowhere(Rec(), nickOf, nick, m, on);
        }
      }
    }

    // irc_channel_arg
    method SetArgument(oper: bool, m: Mode, arg: string, on: bool, atoi: string -> int)
      requires |client| == |cflag| && m in {KEY, ULIMIT}
      modifies this`flag, this`key, this`users
      ensures Rec() == old(Rec()).(flag := flag, key := key, users := users)
      ensures ChanOf(Rec()) == if oper then ChannelArg(old(ChanOf(Rec())), m, arg, on, atoi) else old(ChanOf(Rec()))
    {
      if on && arg == "" {
        return;
      }
      if !oper {
        return;
      }
      if on {
        if m == KEY {
          if m in flag {
            return;
          }
          key := arg;
        } else {
          users := atoi(arg);
        }
        flag := flag + {m};
      } else {
        flag := flag - {m};
      }
    }

    // One letter of a mode string; `para` is the next parameter and `on` the current sign.
    method ModeStep(nickOf: Client -> string, atoi: string -> int, oper: bool, letter: char,
                    paras: seq<string>, para: nat, on: bool) returns (para': nat, on': bool)
      requires |client| == |cflag| && NoDuplicates(client)
      requires forall c, d :: c in client && d in client && nickOf(c) == nickOf(d) ==> c == d
      modifies this`cflag, this`flag, this`key, this`users
      ensures |cflag| == |client|
      ensures Rec() == old(Rec()).(cflag := cflag, flag := flag, key := key, users := users)
      ensures Moding(ChanOf(Rec()), para', on')
           == ModeLetter(Moding(old(ChanOf(Rec())), para, on), letter, paras, oper, nickOf, atoi)
    {
      hide Members, ClientFlag, ChannelArg;
      para', on' := para, on;
      var arg := Para(paras, para);
      match letter
      case '+' => on' := true;
      case '-' => on' := false;
      case 'b' => if para < |paras| { para' := para + 1; }
      case 'o' =>
        SetClientFlag(nickOf, oper, arg, OPERATOR, on);
        para' := para + 1;
      case 'v' =>
        SetClientFlag(nickOf, oper, arg, VOICE, on);
        para' := para + 1;
      case 'l' =>
        SetArgument(oper, ULIMIT, arg, on, atoi);
        if on { para' := para + 1; }
      case 'k' =>
        SetArgument(oper, KEY, arg, on, atoi);
        if on { para' := para + 1; }
      case _ =>
        if oper {
          flag := if on then flag + FlagOf(letter) else flag - FlagOf(letter);
        }
    }

    // The loop of irc_mode_callback over the mode string.
    method ModeString(nickOf: Client -> string, atoi: string -> int, oper: bool, paras: seq<string>)
      requires |paras| >= 2
      requires |client| == |cflag| && NoDuplicates(client)
      requires forall c, d :: c in client && d in client && nickOf(c) == nickOf(d) ==> c == d
      modifies this`cflag, this`flag, this`key, this`users
      ensures |cflag| == |client|
      ensures Rec() == old(Rec()).(cflag := cflag, flag := flag, key := key, users := users)
      ensures ChanOf(Rec())
           == ModeLetters(Moding(old(ChanOf(Rec())), 2, true), paras[1], paras, oper, nickOf, atoi).chan
    {
      hide Members, ModeLetter;
      var req := paras[1];
      var i, para, on := 0, 2, true;
      while i < |req|
        invariant i <= |req| && |cflag| == |client|
        invariant Rec() == old(Rec()).(cflag := cflag, flag := flag, key := key, users := users)
        invariant Moding(ChanOf(Rec()), para, on)
               == ModeLetters(Moding(old(ChanOf(Rec())), 2, true), req[..i], paras, oper, nickOf, atoi)
      {
        assert req[..i + 1][..i] == req[..i];
        para, on := ModeStep(nickOf, atoi, oper, req[i], paras, para, on);
        i := i + 1;
      }
      assert req[..i] == req;
    }

    // What a JOIN checks, in the order of the source.
    method Admitted(c: Client, t: Target) returns (ok: bool)
      requires |client| == |cflag| && NoDuplicates(client)
      modifies this`invite
      ensures Rec() == old(Rec()).(invite := invite)
      ensures (ok, ChanOf(Rec())) == Admit(old(ChanOf(Rec())), c, t)
    {
      hide Members, NoDuplicates;
      MembersCount(client, cflag);
      if KEY in flag && t.key != key {
        return false;
      }
      if INVITE in flag {
        var invited := SpendInvitation(c);
        if !invited {
          return false;
        }
      }
      if ULIMIT in flag && |client| >= users {
        return false;
      }
      return !t.banned;
    }

    method SpendInvitation(c: Client) returns (invited: bool)
      modifies this`invite
      ensures invited <==> c in old(multiset(invite))
      ensures multiset(invite) == old(multiset(invite)) - multiset{c}
      ensures !invited ==> invite == old(invite)
    {
      var i := 0;
      while i < |invite| && invite[i] != c
        invariant i <= |invite| && c !in invite[..i]
      {
        i := i + 1;
      }
      invited := i < |invite|;
      if invited {
        SwapDeleteRemovesOne(invite, i);
        assert invite[i] in invite;
        invite := SwapDelete(invite, i);
      } else {
        assert invite[..i] == invite;
        assert c !in invite;
        assert multiset(invite) == multiset(invite) - multiset{c};
      }
    }

    // irc_client_in_channel, with |client| for "not in channel"
    method Position(c: Client) returns (n: nat)
      ensures n <= |client|
      ensures n < |client| ==> client[n] == c
      ensures n == |client| ==> c !in client
    {
      n := 0;
      while n < |client| && client[n] != c
        invariant n <= |client| && c !in client[..n]
      {
        n := n + 1;
      }
    }
  }

  class IrcServer {
    const config: Server<Client>
    var channels: map<ChannelId, Channel>
    var clients: map<ChannelId, Client>

    ghost function View(): Graph<Client, Channel>
      reads this, channels.Values, clients.Values
    {
      Graph(channels, map h | h in channels.Values :: h.Rec(), map c | c in clients.Values :: c.channel)
    }

    ghost predicate Valid()
      reads this, channels.Values, clients.Values
    {
      && Consistent(View(), config.limit)
      && (forall k :: k in clients ==> config.id(clients[k].nick) == k && config.nickOf(clients[k]) == clients[k].nick)
    }

    ghost function Network(): Network<Client>
      reads this, channels.Values, clients.Values
      requires Valid()
    {
      Net(View())
    }

    lemma ViewOf(k: ChannelId)
      ensures View().index == channels
      ensures k in channels ==> channels[k] in View().chans && View().chans[channels[k]] == channels[k].Rec()
    {
    }

    constructor (config: Server<Client>)
      ensures Valid() && this.config == config && Network() == map[] && clients == map[]
    {
      this.config, channels, clients := config, map[], map[];
    }

    // irc_join_channel
    method JoinChannel(client: Client, id: ChannelId)
      requires Valid() && client in clients.Values
      modifies this`channels, client`channel, channels.Values
      ensures Valid() && clients == old(clients)
      ensures Network() == JoinSpec(old(Network()), config.limit, client, id)
      ensures forall h :: h in channels.Values ==> h in old(channels.Values) || fresh(h)
    {
      hide Consistent, Net, JoinSpec;
      if id in channels {
        var channel := channels[id];
        var n := channel.Position(client);
        UnderItsName(View(), config.limit, id);
        if n == |channel.client| && |client.channel| < config.limit {
          Enter(client, channel);
        } else {
          RefusedJoin(View(), config.limit, client, id);
        }
      } else if |client.channel| < config.limit {
        Open(client, id);
      } else {
        RefusedJoin(View(), config.limit, client, id);
      }
    }

    // Append the client to an existing channel.
    method Enter(client: Client, channel: Channel)
      requires Valid() && client in clients.Values && channel in channels.Values
      requires client !in channel.client && |client.channel| < config.limit
      modifies client`channel, channel`client, channel`cflag
      ensures Valid()
      ensures Network() == JoinSpec(old(Network()), config.limit, client, channel.id)
    {
      hide Consistent, Net, JoinSpec, AddMember;
      AddMemberConsistent(View(), config.limit, client, channel);
      Link(client, channel);
    }

    // Both sides list each other.
    method Link(client: Client, channel: Channel)
      requires client in clients.Values && channel in channels.Values
      modifies client`channel, channel`client, channel`cflag
      ensures View() == AddMember(old(View()), client, channel)
    {
      ghost var g := View();
      channel.client := channel.client + [client];
      channel.cflag := channel.cflag + [{}];
      client.channel := client.channel + [channel];
      assert View().chans == g.chans[channel := channel.Rec()];
      assert View().joined == g.joined[client := client.channel];
    }

    // Create a channel with the client as its operator.
    method Open(client: Client, id: ChannelId)
      requires Valid() && client in clients.Values
      requires id !in channels && |client.channel| < config.limit
      modifies this`channels, client`channel
      ensures Valid()
      ensures Network() == JoinSpec(old(Network()), config.limit, client, id)
      ensures forall h :: h in channels.Values ==> h in old(channels.Values) || fresh(h)
    {
      hide Consistent, Net, JoinSpec;
      ghost var g := View();
      var channel := new Channel(id, client);
      assert channel !in g.chans;
      FoundChannelConsistent(g, config.limit, client, channel, id);
      AddedValue(channels, id, channel);
      Register(client, channel);
    }

    method Register(client: Client, channel: Channel)
      requires client in clients.Values && channel !in channels.Values && channel.id !in channels
      requires channels[channel.id := channel].Values == channels.Values + {channel}
      requires channel.Rec() == Record(channel.id, [client], [{OPERATOR}], {}, 0, "", [])
      modifies this`channels, client`channel
      ensures channels == old(channels)[channel.id := channel] && clients == old(clients)
      ensures View() == FoundChannel(old(View()), client, channel, channel.id)
    {
      client.channel := client.channel + [channel];
      channels := channels[channel.id := channel];
    }

    // irc_leave_channel
    method LeaveChannel(client: Client, channel: Channel)
      requires Valid() && client in clients.Values && channel in channels.Values
      modifies this`channels, client`channel, channel`client, channel`cflag
      ensures Valid() && channels.Values <= old(channels.Values)
      ensures Network() == LeaveSpec(old(Network()), client, channel.id)
      ensures old(client in channel.client) ==> |client.channel| == old(|client.channel|) - 1
    {
      hide Consistent, Net, LeaveSpec;
      MembersAreListed(View(), config.limit, client, channel);
      var n := channel.Position(client);
      if n < |channel.client| {
        var i := client.Position(channel);
        DropMemberConsistent(View(), config.limit, channel, n, i);
        Unlink(client, channel, n, i);
      } else {
        NotAMember(View(), config.limit, client, channel);
      }
    }

    // Remove the member at position `n` on both sides, and the channel with its last member.
    method Unlink(client: Client, channel: Channel, n: nat, i: nat)
      requires client in clients.Values && channel in channels.Values
      requires channel.id in channels && channels[channel.id] == channel
      requires forall k :: k in channels && channels[k] == channel ==> k == channel.id
      requires n < |channel.client| == |channel.cflag| && channel.client[n] == client
      requires i < |client.channel|
      modifies this`channels, client`channel, channel`client, channel`cflag
      ensures View() == DropMember(old(View()), channel, n, i)
      ensures channels.Values <= old(channels.Values)
      ensures |client.channel| == old(|client.channel|) - 1
    {
      ghost var g := View();
      Drop(client, channel, n, i);
      if |channel.client| == 0 {
        DeleteChannel(channel);
        assert g.chans[channel := channel.Rec()] - {channel} == g.chans - {channel};
      }
    }

    // The client at position `n` leaves the channel, which is at position `i` of its list.
    method Drop(client: Client, channel: Channel, n: nat, i: nat)
      requires client in clients.Values && channel in channels.Values
      requires n < |channel.client| == |channel.cflag|
      requires i < |client.channel|
      modifies client`channel, channel`client, channel`cflag
      ensures channel.Rec() == old(channel.Rec()).(client := SwapDelete(old(channel.client), n),
                                                   cflag := SwapDelete(old(channel.cflag), n))
      ensures client.channel == SwapDelete(old(client.channel), i)
      ensures View().index == channels
      ensures View().chans == old(View()).chans[channel := channel.Rec()]
      ensures View().joined == old(View()).joined[client := client.channel]
    {
      channel.client := SwapDelete(channel.client, n);
      channel.cflag := SwapDelete(channel.cflag, n);
      client.channel := SwapDelete(client.channel, i);
    }

    // irc_delete_channel
    method DeleteChannel(channel: Channel)
      requires channel.id in channels && channels[channel.id] == channel
      requires forall k :: k in channels && channels[k] == channel ==> k == channel.id
      modifies this`channels
      ensures channels == old(channels) - {channel.id} && channels.Values <= old(channels.Values)
      ensures View() == Graph(channels, old(View()).chans - {channel}, old(View()).joined)
    {
      RemovedValue(channels, channel.id);
      channels := channels - {channel.id};
    }

    // ----- PART, KICK, QUIT -----

    // irc_part_callback
    method Part(client: Client, names: seq<string>)
      requires Valid() && client in clients.Values
      modifies this`channels, client`channel, channels.Values
      ensures Valid() && channels.Values <= old(channels.Values)
      ensures Network() == Applied(config, old(Network()), Parts(config, old(Network()), client, names, 0))
    {
      hide Consistent, Net, View, Apply, Applied, Joined, Parts, Parting;
      var n: nat := 0;
      ghost var net := Network();
      PartingStart(config, net, client, names);
      while n < |names|
        invariant Valid() && channels.Values <= old(channels.Values) && client in clients.Values
        invariant Parting(config, net, Network(), client, names, n)
        decreases |client.channel|
      {
        PartingNext(config, net, Network(), client, names, n);
        var gone, members := PartOne(client, names[n]);
        if !gone {
          return;
        }
        n := members + 1;
      }
      PartingEnd(config, net, Network(), client, names, n);
    }

    // One target of a PART: whether the client has left it, and how many members it had.
    method PartOne(client: Client, name: string) returns (gone: bool, members: nat)
      requires Valid() && client in clients.Values
      modifies this`channels, client`channel, channels.Values
      ensures Valid() && channels.Values <= old(channels.Values)
      ensures Network() == Apply(config, old(Network()), Command.Part(client, config.id(name)))
      ensures gone <==> config.id(name) in old(Joined(Network(), client))
      ensures !gone ==> Network() == old(Network())
      ensures gone ==> members == |old(Network())[config.id(name)].members|
      ensures gone ==> |client.channel| < old(|client.channel|)
    {
      hide Consistent, Net;
      var k := config.id(name);
      gone, members := false, 0;
      MemberOf(View(), config.limit, k, client);
      if k in channels {
        var channel := channels[k];
        var n := channel.Position(client);
        members := |channel.client|;
        MembersNumber(View(), config.limit, k);
        if n < members {
          LeaveChannel(client, channel);
          gone := true;
        }
      }
    }

    // irc_kick_callback: the targets in turn
    method Kick(client: Client, targets: seq<(string, string)>)
      requires Valid() && client in clients.Values
      modifies this`channels, clients.Values, channels.Values
      ensures Valid() && clients == old(clients)
      ensures Network() == Applied(config, old(Network()), Kicks(config, clients, client, targets))
    {
      hide Consistent, Net, Apply;
      var n := 0;
      assert targets[..0] == [];
      while n < |targets|
        invariant n <= |targets| && Valid() && clients == old(clients) && channels.Values <= old(channels.Values)
        invariant Network() == Applied(config, old(Network()), Kicks(config, clients, client, targets[..n]))
      {
        var (name, nick) := targets[n];
        NextKick(targets, n, client, old(Network()));
        KickOne(client, name, nick);
        n := n + 1;
      }
      assert targets[..n] == targets;
    }

    lemma NextKick(targets: seq<(string, string)>, n: nat, client: Client, net: Network<Client>)
      requires n < |targets|
      ensures var (name, nick) := targets[n];
        var before := Applied(config, net, Kicks(config, clients, client, targets[..n]));
        Applied(config, net, Kicks(config, clients, client, targets[..n + 1])) ==
          if config.id(nick) in clients
          then Apply(config, before, Command.Kick(client, config.id(name), clients[config.id(nick)])) else before
    {
      hide Apply;
      var (name, nick) := targets[n];
      var earlier := Kicks(config, clients, client, targets[..n]);
      assert targets[..n + 1][..n] == targets[..n];
      assert Kicks(config, clients, client, targets[..n + 1]) == earlier +
        if config.id(nick) in clients then [Command.Kick(client, config.id(name), clients[config.id(nick)])] else [];
      assert earlier + [] == earlier;
      if config.id(nick) in clients {
        var cmd := Command.Kick(client, config.id(name), clients[config.id(nick)]);
        assert (earlier + [cmd])[..|earlier|] == earlier;
      }
    }

    // One target of a KICK.
    method KickOne(client: Client, name: string, nick: string)
      requires Valid() && client in clients.Values
      modifies this`channels, clients.Values, channels.Values
      ensures Valid() && channels.Values <= old(channels.Values) && clients == old(clients)
      ensures config.id(nick) in clients ==>
                var victim := clients[config.id(nick)];
                Network() == Apply(config, old(Network()), Command.Kick(client, config.id(name), victim))
      ensures config.id(nick) !in clients ==> Network() == old(Network())
    {
      hide Consistent, Net, View;
      var k := config.id(name);
      ViewOf(k);
      MemberOf(View(), config.limit, k, client);
      if k in channels {
        var channel := channels[k];
        var i := channel.Position(client);
        if i < |channel.client| {
          FlagsAt(View(), config.limit, k, i);
          if OPERATOR in channel.cflag[i] && config.id(nick) in clients {
            var victim := clients[config.id(nick)];
            MemberOf(View(), config.limit, k, victim);
            var j := channel.Position(victim);
            if j < |channel.client| {
              LeaveChannel(victim, channel);
            }
          }
        }
      }
    }

    // irc_leave_all_channels: the loop ends because leaving shortens the client's own list,
    // and that is so because the channel lists the client exactly if the client lists it.
    method LeaveAllChannels(client: Client)
      requires Valid() && client in clients.Values
      modifies this`channels, this`clients, client`channel, channels.Values
      ensures Valid() && channels.Values <= old(channels.Values)
      ensures Network() == Apply(config, old(Network()), Command.Quit(client))
      ensures clients.Values == old(clients.Values) - {client}
    {
      hide Consistent, Net;
      while |client.channel| > 0
        invariant Valid() && clients == old(clients) && channels.Values <= old(channels.Values)
        invariant QuitSpec(Network(), client) == QuitSpec(old(Network()), client)
        decreases |client.channel|
      {
        ListedChannel(View(), config.limit, client, 0);
        LeaveThenQuit(Network(), client, client.channel[0].id);
        LeaveChannel(client, client.channel[0]);
      }
      JoinedCount(View(), config.limit, client);
      QuitWhenNowhere(Network(), client);
      DeleteClient(client);
    }

    // irc_delete_client
    method DeleteClient(client: Client)
      requires Valid() && client in clients.Values && client.channel == []
      modifies this`clients
      ensures Valid() && Network() == old(Network())
      ensures clients.Values == old(clients.Values) - {client}
    {
      hide Consistent, Net;
      RemovedClient(View(), config.limit, client);
      ghost var g := View();
      var k := config.id(client.nick);
      assert k in clients && clients[k] == client;
      RemovedValue(clients, k);
      clients := clients - {k};
      assert View() == g.(joined := g.joined - {client});
    }

    // ----- JOIN -----

    // irc_join_callback
    method Join(client: Client, targets: seq<Target>)
      requires Valid() && client in clients.Values
      modifies this`channels, client`channel, channels.Values
      ensures Valid() && clients == old(clients)
      ensures Network() == Apply(config, old(Network()), Command.Join(client, targets))
    {
      hide Consistent, Net, JoinTarget;
      var n := 0;
      while n < |targets|
        invariant n <= |targets| && Valid() && clients == old(clients)
        invariant forall h :: h in channels.Values ==> h in old(channels.Values) || fresh(h)
        invariant JoinCommand(old(Network()), config.limit, config.id, client, targets)
               == JoinCommand(Network(), config.limit, config.id, client, targets[n..])
      {
        assert targets[n..][1..] == targets[n + 1..];
        var go := JoinOne(client, targets[n]);
        if !go {
          return;
        }
        n := n + 1;
      }
    }

    method JoinOne(client: Client, t: Target) returns (go: bool)
      requires Valid() && client in clients.Values
      modifies this`channels, client`channel, channels.Values
      ensures Valid() && clients == old(clients)
      ensures (go, Network()) == JoinTarget(old(Network()), config.limit, config.id, client, t)
      ensures forall h :: h in channels.Values ==> h in old(channels.Values) || fresh(h)
    {
      hide Consistent, Net, JoinSpec, Admit;
      if t.name == "" {
        return false;
      }
      var k := config.id(t.name);
      MemberOf(View(), config.limit, k, client);
      if k in channels {
        go := Admission(client, k, t);
        if !go {
          return;
        }
      }
      JoinChannel(client, k);
      return true;
    }

    // The checks of a JOIN to an existing channel.
    method Admission(client: Client, k: ChannelId, t: Target) returns (ok: bool)
      requires Valid() && k in channels
      modifies channels.Values
      ensures Valid() && channels == old(channels) && clients == old(clients)
      ensures k in old(Network())
      ensures ok == Admit(old(Network())[k], client, t).0
      ensures Network() == old(Network())[k := Admit(old(Network())[k], client, t).1]
    {
      hide Consistent, Net, Members, Admit;
      ghost var g := View();
      MemberOf(g, config.limit, k, client);
      SoundAt(g, config.limit, k);
      var channel := channels[k];
      ok := channel.Admitted(client, t);
      assert View() == SetRecord(g, channel, channel.Rec());
      SetRecordConsistent(g, config.limit, channel, channel.Rec());
    }

    // ----- MODE, INVITE and registration -----

    // irc_mode_callback for a channel
    method Mode(client: Client, paras: seq<string>)
      requires Valid() && client in clients.Values && |paras| >= 1
      modifies channels.Values
      ensures Valid() && channels == old(channels) && clients == old(clients)
      ensures Network() == Apply(config, old(Network()), Command.Mode(client, config.id(paras[0]), paras))
    {
      hide Consistent, Net, Members, ModeLetters, View;
      var k := config.id(paras[0]);
      ViewOf(k);
      ghost var g := View();
      MemberOf(g, config.limit, k, client);
      if k in channels && |paras| >= 2 {
        SoundAt(g, config.limit, k);
        NicksDiffer(k);
        var channel := channels[k];
        var n := channel.Position(client);
        if n < |channel.client| {
          FlagsAt(g, config.limit, k, n);
          SetModes(channel, OPERATOR in channel.cflag[n], paras);
          SetRecordConsistent(g, config.limit, channel, channel.Rec());
        }
      }
    }

    // The mode string is applied to one channel of the server.
    method SetModes(channel: Channel, oper: bool, paras: seq<string>)
      requires channel in channels.Values && |paras| >= 2
      requires |channel.client| == |channel.cflag| && NoDuplicates(channel.client)
      requires forall c, d | c in channel.client && d in channel.client ::
        config.nickOf(c) == config.nickOf(d) ==> c == d
      modifies channel`cflag, channel`flag, channel`key, channel`users
      ensures View() == SetRecord(old(View()), channel, channel.Rec()) && |channel.cflag| == |channel.client|
      ensures channel.Rec() == old(channel.Rec()).(cflag := channel.cflag, flag := channel.flag, key := channel.key,
                                                   users := channel.users)
      ensures ChanOf(channel.Rec())
           == ModeLetters(Moding(old(ChanOf(channel.Rec())), 2, true), paras[1], paras, oper,
                          config.nickOf, config.atoi).chan
    {
      hide Members, ModeLetters;
      ghost var g := View();
      channel.ModeString(config.nickOf, config.atoi, oper, paras);
      assert View().chans == g.chans[channel := channel.Rec()];
    }

    lemma NicksDiffer(k: ChannelId)
      requires Valid() && k in channels
      ensures forall c, d :: (c in channels[k].client && d in channels[k].client
                              && config.nickOf(c) == config.nickOf(d)) ==> c == d
    {
      MembersKnown(View(), config.limit, k);
    }

    // irc_invite_callback
    method Invite(client: Client, nick: string, name: string, away: bool)
      requires Valid() && client in clients.Values
      modifies channels.Values
      ensures Valid() && channels == old(channels) && clients == old(clients)
      ensures config.id(nick) in clients ==>
                Network() == Apply(config, old(Network()),
                                   Command.Invite(client, config.id(name), clients[config.id(nick)], away))
      ensures config.id(nick) !in clients ==> Network() == old(Network())
    {
      hide Consistent, Net, View;
      var k := config.id(name);
      ViewOf(k);
      MemberOf(View(), config.limit, k, client);
      if config.id(nick) in clients && k in channels {
        var guest := clients[config.id(nick)];
        MemberOf(View(), config.limit, k, guest);
        var channel := channels[k];
        var n := channel.Position(client);
        if n < |channel.client| {
          FlagsAt(View(), config.limit, k, n);
          var i := channel.Position(guest);
          if i == |channel.client| && OPERATOR in channel.cflag[n] && !away {
            AddInvitation(k, guest);
          }
        }
      }
    }

    method AddInvitation(k: ChannelId, guest: Client)
      requires Valid() && k in channels
      modifies channels.Values
      ensures Valid() && channels == old(channels) && k in old(Network())
      ensures var chan := old(Network())[k];
              Network() == old(Network())[k := chan.(invited := chan.invited + multiset{guest})]
    {
      hide Consistent, Net, Members;
      ghost var g := View();
      MemberOf(g, config.limit, k, guest);
      SoundAt(g, config.limit, k);
      var channel := channels[k];
      channel.invite := channel.invite + [guest];
      assert View() == SetRecord(g, channel, channel.Rec());
      SetRecordConsistent(g, config.limit, channel, channel.Rec());
    }

    // irc_add_client for a client that is in no channel yet
    method AddClient(client: Client) returns (added: bool)
      requires Valid() && client.channel == [] && client !in clients.Values
      requires config.nickOf(client) == client.nick
      modifies this`clients
      ensures Valid() && Network() == old(Network())
      ensures added <==> config.id(client.nick) !in old(clients)
      ensures clients == if added then old(clients)[config.id(client.nick) := client] else old(clients)
    {
      hide Consistent, Net;
      var k := config.id(client.nick);
      added := k !in clients;
      if added {
        ghost var g := View();
        AddedClient(g, config.limit, client);
        AddedValue(clients, k, client);
        clients := clients[k := client];
        assert View() == g.(joined := g.joined[client := []]);
      }
    }
  }
}
