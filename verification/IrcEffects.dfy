/**
  What JOIN, PART, KICK, INVITE and QUIT mean for memberships, flags and invitations, and over
  whole runs how somebody comes into a channel and out of it.
*/
module IrcEffects {
  import opened Options
  import opened IrcSpec
  import opened IrcRuns
  import opened IrcModes

  // The flags of a member.
  ghost function FlagsIn<C>(net: Network<C>, k: ChannelId, c: C): Option<Flags> {
    if k in net && c in net[k].members then Some(net[k].members[c]) else None
  }

  // Nobody but `c` in `k` has come, gone or changed flags.
  ghost predicate OthersStay<C(!new)>(net: Network<C>, net': Network<C>, k: ChannelId, c: C) {
    forall h, d :: h != k || d != c ==> FlagsIn(net', h, d) == FlagsIn(net, h, d)
  }

  ghost predicate SettingsStay<C>(net: Network<C>, net': Network<C>) {
    forall h :: h in net && h in net' ==>
      net'[h].flag == net[h].flag && net'[h].users == net[h].users && net'[h].key == net[h].key
  }

  ghost predicate InvitationsStay<C>(net: Network<C>, net': Network<C>) {
    forall h :: h in net && h in net' ==> net'[h].invited == net[h].invited
  }

  // ----- JOIN -----

  // Who may join an existing channel.
  ghost predicate Welcome<C>(chan: Chan<C>, c: C, t: Target) {
    && (KEY in chan.flag ==> t.key == chan.key)
    && (INVITE in chan.flag ==> c in chan.invited)
    && (ULIMIT in chan.flag ==> |chan.members| < chan.users)
    && !t.banned
  }

  // An invitation is used up, if one is needed and the key was right.
  ghost predicate Spends<C>(chan: Chan<C>, c: C, t: Target) {
    INVITE in chan.flag && (KEY in chan.flag ==> t.key == chan.key) && c in chan.invited
  }

  lemma JoinOne<C>(sv: Server<C>, net: Network<C>, c: C, t: Target)
    ensures Apply(sv, net, Command.Join(c, [t])) == JoinTarget(net, sv.limit, sv.id, c, t).1
  {
    hide JoinTarget;
    var net' := JoinTarget(net, sv.limit, sv.id, c, t).1;
    assert [t][1..] == [] && JoinCommand(net', sv.limit, sv.id, c, []) == net';
  }

  lemma AdmitIs<C>(chan: Chan<C>, c: C, t: Target)
    ensures Admit(chan, c, t).0 <==> Welcome(chan, c, t)
    ensures Admit(chan, c, t).1 ==
      if Spends(chan, c, t) then chan.(invited := chan.invited - multiset{c}) else chan
  {
    if c !in chan.invited { assert chan.invited - multiset{c} == chan.invited; }
  }

  // A stranger becomes a member of an existing channel if and only if it is welcome and not in
  // too many channels already.
  lemma JoinAsStranger<C(!new)>(sv: Server<C>, net: Network<C>, c: C, t: Target)
    requires t.name != "" && sv.id(t.name) in net && c !in net[sv.id(t.name)].members
    ensures var (k, net') := (sv.id(t.name), Apply(sv, net, Command.Join(c, [t])));
      && net'.Keys == net.Keys && OthersStay(net, net', k, c) && SettingsStay(net, net')
      && FlagsIn(net', k, c) == (if Welcome(net[k], c, t) && |Joined(net, c)| < sv.limit then Some({}) else None)
      && forall h :: h in net ==>
           net'[h].invited == net[h].invited - if h == k && Spends(net[k], c, t) then multiset{c} else multiset{}
  {
    hide Welcome, Spends;
    StrangerShape(sv, net, c, t);
    hide Apply, Joined;
    var k := sv.id(t.name);
    var (left, enters) := (if Spends(net[k], c, t) then net[k].invited - multiset{c} else net[k].invited,
                           Welcome(net[k], c, t) && |Joined(net, c)| < sv.limit);
    ChannelChanged(net, k, c, left, enters);
  }

  lemma StrangerShape<C>(sv: Server<C>, net: Network<C>, c: C, t: Target)
    requires t.name != "" && sv.id(t.name) in net && c !in net[sv.id(t.name)].members
    ensures var k := sv.id(t.name);
      var left := if Spends(net[k], c, t) then net[k].invited - multiset{c} else net[k].invited;
      var enters := Welcome(net[k], c, t) && |Joined(net, c)| < sv.limit;
      Apply(sv, net, Command.Join(c, [t])) == Changed(net, k, c, left, enters)
  {
    hide Joined, Admit, Welcome, Spends;
    JoinOne(sv, net, c, t);
    var k := sv.id(t.name);
    AdmitIs(net[k], c, t);
    SameJoined(net, c, k, Admit(net[k], c, t).1);
  }

  ghost function Changed<C>(net: Network<C>, k: ChannelId, c: C, left: multiset<C>, enters: bool): Network<C>
    requires k in net
  {
    net[k := net[k].(invited := left, members := if enters then net[k].members[c := {}] else net[k].members)]
  }

  lemma ChannelChanged<C(!new)>(net: Network<C>, k: ChannelId, c: C, left: multiset<C>, enters: bool)
    requires k in net && c !in net[k].members
    ensures var net' := Changed(net, k, c, left, enters);
      && net'.Keys == net.Keys && OthersStay(net, net', k, c) && SettingsStay(net, net')
      && FlagsIn(net', k, c) == (if enters then Some({}) else None)
      && net'[k].invited == left && forall h :: h in net && h != k ==> net'[h] == net[h]
  {
  }

  // Settings and invitations do not matter for where somebody is.
  lemma SameJoined<C>(net: Network<C>, c: C, k: ChannelId, chan: Chan<C>)
    requires k in net && chan.members.Keys == net[k].members.Keys
    ensures Joined(net[k := chan], c) == Joined(net, c)
  {
  }

  // A member stays one, and its invitation may be used up.
  lemma JoinAsMember<C(!new)>(sv: Server<C>, net: Network<C>, c: C, t: Target)
    requires t.name != "" && FlagsIn(net, sv.id(t.name), c).Some?
    ensures var (k, net') := (sv.id(t.name), Apply(sv, net, Command.Join(c, [t])));
      && net'.Keys == net.Keys && SettingsStay(net, net')
      && (forall h, d :: FlagsIn(net', h, d) == FlagsIn(net, h, d))
      && forall h :: h in net ==>
           net'[h].invited == net[h].invited - if h == k && Spends(net[k], c, t) then multiset{c} else multiset{}
  {
    MemberShape(sv, net, c, t);
    hide Apply, Spends;
    var k := sv.id(t.name);
    InvitationsChanged(net, k, if Spends(net[k], c, t) then net[k].invited - multiset{c} else net[k].invited);
  }

  lemma MemberShape<C>(sv: Server<C>, net: Network<C>, c: C, t: Target)
    requires t.name != "" && FlagsIn(net, sv.id(t.name), c).Some?
    ensures var k := sv.id(t.name);
      var left := if Spends(net[k], c, t) then net[k].invited - multiset{c} else net[k].invited;
      Apply(sv, net, Command.Join(c, [t])) == net[k := net[k].(invited := left)]
  {
    hide Joined, Admit, Welcome, Spends;
    JoinOne(sv, net, c, t);
    AdmitIs(net[sv.id(t.name)], c, t);
  }

  // Whoever joins a channel that does not exist founds it, unless it is in too many already.
  lemma JoinAsFounder<C(!new)>(sv: Server<C>, net: Network<C>, c: C, t: Target)
    requires t.name != "" && sv.id(t.name) !in net
    ensures var (k, net') := (sv.id(t.name), Apply(sv, net, Command.Join(c, [t])));
      if |Joined(net, c)| < sv.limit then
        && net'.Keys == net.Keys + {k} && OthersStay(net, net', k, c) && SettingsStay(net, net')
        && InvitationsStay(net, net') && FlagsIn(net', k, c) == Some({OPERATOR})
        && net'[k].flag == {} && net'[k].invited == multiset{}
      else net' == net
  {
    hide Joined;
    JoinOne(sv, net, c, t);
  }

  // Several targets are taken one after the other up to the first that is refused. Being in too
  // many channels is no refusal.
  lemma JoinInTurn<C>(sv: Server<C>, net: Network<C>, c: C, ts: seq<Target>)
    ensures ts == [] ==> Apply(sv, net, Command.Join(c, ts)) == net
    ensures ts != [] ==>
      var (k, one) := (sv.id(ts[0].name), Apply(sv, net, Command.Join(c, [ts[0]])));
      Apply(sv, net, Command.Join(c, ts)) ==
        if ts[0].name == "" then net
        else if k in net && !Welcome(net[k], c, ts[0]) then one
        else Apply(sv, one, Command.Join(c, ts[1..]))
  {
    hide JoinSpec, Admit, Welcome;
    if ts != [] {
      JoinOne(sv, net, c, ts[0]);
      var k := sv.id(ts[0].name);
      if k in net { AdmitIs(net[k], c, ts[0]); }
    }
  }

  // ----- PART, KICK, QUIT -----

  // `c` is out of `k`, which is gone if that was its last member.
  ghost predicate IsOut<C(!new)>(net: Network<C>, net': Network<C>, k: ChannelId, c: C) {
    && OthersStay(net, net', k, c) && SettingsStay(net, net') && InvitationsStay(net, net')
    && FlagsIn(net', k, c) == None
    && (forall h :: h in net' ==> h in net)
    && (forall h :: h in net && h !in net' ==> h == k && net[k].members.Keys == {c})
  }

  lemma LeaveIs<C(!new)>(net: Network<C>, c: C, k: ChannelId)
    ensures IsOut(net, LeaveSpec(net, c, k), k, c)
    ensures FlagsIn(net, k, c).None? ==> LeaveSpec(net, c, k) == net
  {
    var net' := LeaveSpec(net, c, k);
    if k in net && net[k].members.Keys == {c} {
      forall d | d != c ensures d !in net[k].members { assert d !in net[k].members.Keys; }
    }
  }

  lemma PartIs<C(!new)>(sv: Server<C>, net: Network<C>, c: C, k: ChannelId)
    ensures var net' := Apply(sv, net, Command.Part(c, k));
      IsOut(net, net', k, c) && (FlagsIn(net, k, c).None? ==> net' == net)
  {
    LeaveIs(net, c, k);
  }

  // The victim of an operator is out, and nobody else; anybody else's KICK does nothing.
  lemma KickIs<C(!new)>(sv: Server<C>, net: Network<C>, c: C, k: ChannelId, victim: C)
    ensures var net' := Apply(sv, net, Command.Kick(c, k, victim));
      if FlagsIn(net, k, c).Some? && OPERATOR in FlagsIn(net, k, c).value
      then IsOut(net, net', k, victim) && (FlagsIn(net, k, victim).None? ==> net' == net)
      else net' == net
  {
    LeaveIs(net, victim, k);
  }

  // A KICK with several targets is a KICK for each of them that names somebody on the server.
  lemma {:induction false} KicksConcat<C>(sv: Server<C>, clients: map<ChannelId, C>, c: C,
                                          a: seq<(string, string)>, b: seq<(string, string)>)
    ensures Kicks(sv, clients, c, a + b) == Kicks(sv, clients, c, a) + Kicks(sv, clients, c, b)
    decreases |b|
  {
    if b == [] {
      assert a + b == a && Kicks(sv, clients, c, a) + [] == Kicks(sv, clients, c, a);
    } else {
      var n := |b| - 1;
      KicksConcat(sv, clients, c, a, b[..n]);
      assert (a + b)[..|a + b| - 1] == a + b[..n];
    }
  }

  lemma KicksOne<C>(sv: Server<C>, clients: map<ChannelId, C>, c: C, name: string, nick: string)
    ensures Kicks(sv, clients, c, [(name, nick)]) ==
      if sv.id(nick) in clients then [Command.Kick(c, sv.id(name), clients[sv.id(nick)])] else []
  {
    assert [(name, nick)][..0] == [];
  }

  lemma QuitIs<C(!new)>(sv: Server<C>, net: Network<C>, c: C)
    requires forall k :: k in net ==> net[k].members != map[]
    ensures var net' := Apply(sv, net, Command.Quit(c));
      && (forall h, d :: FlagsIn(net', h, d) == if d == c then None else FlagsIn(net, h, d))
      && SettingsStay(net, net') && InvitationsStay(net, net')
  {
    QuitLeavesOthers(net, c);
  }

  // ----- INVITE -----

  // A guest who gets one invitation more: present, outside the channel, invited by an operator.
  ghost predicate Given<C>(net: Network<C>, c: C, k: ChannelId, guest: C, away: bool) {
    && FlagsIn(net, k, c).Some? && OPERATOR in FlagsIn(net, k, c).value
    && FlagsIn(net, k, guest).None? && !away
  }

  // That is all an INVITE does.
  lemma InviteIs<C(!new)>(sv: Server<C>, net: Network<C>, c: C, k: ChannelId, guest: C, away: bool)
    ensures var net' := Apply(sv, net, Command.Invite(c, k, guest, away));
      && net'.Keys == net.Keys && SettingsStay(net, net')
      && (forall h, d :: FlagsIn(net', h, d) == FlagsIn(net, h, d))
      && forall h :: h in net ==>
           net'[h].invited
           == net[h].invited + if h == k && Given(net, c, k, guest, away) then multiset{guest} else multiset{}
  {
    InviteShape(sv, net, c, k, guest, away);
    hide Apply, Given;
    if Given(net, c, k, guest, away) {
      InvitationsChanged(net, k, net[k].invited + multiset{guest});
    }
  }

  lemma InviteShape<C>(sv: Server<C>, net: Network<C>, c: C, k: ChannelId, guest: C, away: bool)
    ensures Given(net, c, k, guest, away) ==> k in net
    ensures Apply(sv, net, Command.Invite(c, k, guest, away)) ==
      if Given(net, c, k, guest, away) then net[k := net[k].(invited := net[k].invited + multiset{guest})] else net
  {
  }

  lemma InvitationsChanged<C(!new)>(net: Network<C>, k: ChannelId, invited: multiset<C>)
    requires k in net
    ensures var net' := net[k := net[k].(invited := invited)];
      && SettingsStay(net, net') && (forall h, d :: FlagsIn(net', h, d) == FlagsIn(net, h, d))
  {
  }

  // ----- how somebody goes -----

  lemma {:induction false} JoinDropsNobody<C>(sv: Server<C>, net: Network<C>, c: C, ts: seq<Target>, k: ChannelId, d: C)
    requires FlagsIn(net, k, d).Some?
    ensures FlagsIn(JoinCommand(net, sv.limit, sv.id, c, ts), k, d).Some?
    decreases |ts|
  {
    if ts != [] {
      JoinDropsNobody(sv, JoinTarget(net, sv.limit, sv.id, c, ts[0]).1, c, ts[1..], k, d);
    }
  }

  // What takes a member out of a channel.
  ghost predicate TakesOut<C>(net: Network<C>, cmd: Command<C>, k: ChannelId, v: C) {
    || cmd == Command.Part(v, k) || cmd == Command.Quit(v)
    || (cmd.Kick? && cmd.chan == k && cmd.victim == v && IsOperator(net, k, cmd.client))
  }

  lemma Departs<C(!new)>(sv: Server<C>, net: Network<C>, cmd: Command<C>, k: ChannelId, v: C)
    requires Good(net, sv.limit) && FlagsIn(net, k, v).Some? && FlagsIn(Apply(sv, net, cmd), k, v).None?
    ensures TakesOut(net, cmd, k, v)
  {
    hide Apply;
    match cmd
    case Join(c, ts) =>
      JoinDropsNobody(sv, net, c, ts, k, v);
      JoinIs(sv, net, c, ts);
    case Part(c, h) => PartIs(sv, net, c, h);
    case Kick(c, h, w) => KickIs(sv, net, c, h, w);
    case Mode(c, h, ps) => ModeKeepsEverybody(sv, net, c, h, ps, k, v);
    case Invite(c, h, g, away) => InviteIs(sv, net, c, h, g, away);
    case Quit(c) => QuitIs(sv, net, c);
  }

  lemma JoinIs<C>(sv: Server<C>, net: Network<C>, c: C, ts: seq<Target>)
    ensures Apply(sv, net, Command.Join(c, ts)) == JoinCommand(net, sv.limit, sv.id, c, ts)
  {
  }

  lemma ModeKeepsEverybody<C>(sv: Server<C>, net: Network<C>, c: C, h: ChannelId, ps: seq<string>, k: ChannelId, v: C)
    ensures var net' := Apply(sv, net, Command.Mode(c, h, ps));
      && (FlagsIn(net', k, v).Some? <==> FlagsIn(net, k, v).Some?)
      && InvitationsStay(net, net') && net'.Keys == net.Keys
  {
    hide Apply;
    if IsOperator(net, h, c) && |ps| >= 2 {
      ModeShape(sv, net, c, h, ps);
      StaysSoFar(net[h], ps[1], ps, sv, |ps[1]|);
    } else {
      ModeNeedsOperator(sv, net, c, h, ps);
    }
  }

  // In any run: between two commands somebody leaves a channel only by a PART or a QUIT of their
  // own or by a KICK of a member who was operator when that command began.
  lemma {:induction false} Departure<C(!new)>(sv: Server<C>, cmds: seq<Command<C>>, i: nat, j: nat, k: ChannelId, v: C)
    returns (m: nat)
    requires i <= j <= |cmds|
    requires FlagsIn(After(sv, cmds[..i]), k, v).Some? && FlagsIn(After(sv, cmds[..j]), k, v).None?
    ensures i <= m < j && FlagsIn(After(sv, cmds[..m]), k, v).Some? && FlagsIn(After(sv, cmds[..m + 1]), k, v).None?
    ensures TakesOut(After(sv, cmds[..m]), cmds[m], k, v)
    decreases j
  {
    hide Apply, FlagsIn, Good, TakesOut;
    assert i < j;
    m := j - 1;
    if FlagsIn(After(sv, cmds[..m]), k, v).Some? {
      AfterNext(sv, cmds, m);
      RunKeepsGood(sv, cmds[..m]);
      Departs(sv, After(sv, cmds[..m]), cmds[m], k, v);
    } else {
      NoneOrSome(FlagsIn(After(sv, cmds[..m]), k, v));
      m := Departure(sv, cmds, i, j - 1, k, v);
    }
  }

  lemma NoneOrSome<T>(o: Option<T>)
    ensures o.None? || o.Some?
  {
  }

  lemma AfterNext<C>(sv: Server<C>, cmds: seq<Command<C>>, m: nat)
    requires m < |cmds|
    ensures After(sv, cmds[..m + 1]) == Apply(sv, After(sv, cmds[..m]), cmds[m])
  {
    hide Apply;
    assert cmds[..m + 1][..m] == cmds[..m];
  }

  // ----- how somebody comes -----

  lemma TargetStep<C>(sv: Server<C>, net: Network<C>, c: C, t: Target, k: ChannelId, d: C)
    requires FlagsIn(net, k, d).None?
    ensures var net' := JoinTarget(net, sv.limit, sv.id, c, t).1;
      if FlagsIn(net', k, d).Some? then
        d == c && t.name != "" && sv.id(t.name) == k && (k in net ==> Welcome(net[k], c, t))
      else if k in net then
        k in net' && net'[k].flag == net[k].flag && net'[k].key == net[k].key && net'[k].users == net[k].users
        && (d == c ==> |net'[k].members| == |net[k].members|) && net'[k].invited <= net[k].invited
      else d == c ==> k !in net'
  {
    hide Joined, Welcome, Admit, Spends;
    if sv.id(t.name) in net { AdmitIs(net[sv.id(t.name)], c, t); }
  }

  // Whoever comes into a channel has asked for it, with a target that the channel admits if it
  // existed before.
  lemma {:induction false} JoinEnters<C>(sv: Server<C>, net: Network<C>, c: C, ts: seq<Target>, k: ChannelId, d: C)
    returns (i: nat)
    requires FlagsIn(net, k, d).None? && FlagsIn(JoinCommand(net, sv.limit, sv.id, c, ts), k, d).Some?
    ensures i < |ts| && d == c && ts[i].name != "" && sv.id(ts[i].name) == k
    ensures k in net ==> Welcome(net[k], c, ts[i])
    decreases |ts|
  {
    hide JoinTarget, FlagsIn;
    assert ts != [];
    TargetStep(sv, net, c, ts[0], k, d);
    var net' := JoinTarget(net, sv.limit, sv.id, c, ts[0]).1;
    if FlagsIn(net', k, d).Some? {
      i := 0;
    } else {
      NoneOrSome(FlagsIn(net', k, d));
      var m := JoinEnters(sv, net', c, ts[1..], k, d);
      i := m + 1;
    }
  }

  lemma Enters<C(!new)>(sv: Server<C>, net: Network<C>, cmd: Command<C>, k: ChannelId, d: C) returns (i: nat)
    requires Good(net, sv.limit) && FlagsIn(net, k, d).None? && FlagsIn(Apply(sv, net, cmd), k, d).Some?
    ensures cmd.Join? && cmd.client == d && i < |cmd.targets|
    ensures cmd.targets[i].name != "" && sv.id(cmd.targets[i].name) == k
    ensures k in net ==> Welcome(net[k], d, cmd.targets[i])
  {
    hide Apply, Welcome;
    i := 0;
    match cmd
    case Join(c, ts) =>
      JoinIs(sv, net, c, ts);
      i := JoinEnters(sv, net, c, ts, k, d);
    case Part(c, h) => PartIs(sv, net, c, h);
    case Kick(c, h, w) => KickIs(sv, net, c, h, w);
    case Mode(c, h, ps) => ModeKeepsEverybody(sv, net, c, h, ps, k, d);
    case Invite(c, h, g, away) => InviteIs(sv, net, c, h, g, away);
    case Quit(c) => QuitIs(sv, net, c);
  }

  // ----- where invitations come from -----

  ghost predicate Invited<C>(net: Network<C>, k: ChannelId, g: C) {
    k in net && g in net[k].invited
  }

  // An operator invites somebody who is there.
  ghost predicate Invites<C>(net: Network<C>, cmd: Command<C>, k: ChannelId, g: C) {
    cmd.Invite? && cmd.chan == k && cmd.guest == g && !cmd.away && IsOperator(net, k, cmd.client)
  }

  lemma {:induction false} JoinInvitesNobody<C>(sv: Server<C>, net: Network<C>, c: C, ts: seq<Target>,
                                                k: ChannelId, g: C)
    requires Invited(JoinCommand(net, sv.limit, sv.id, c, ts), k, g)
    ensures Invited(net, k, g)
    decreases |ts|
  {
    if ts != [] {
      var net' := JoinTarget(net, sv.limit, sv.id, c, ts[0]).1;
      if !Invited(net', k, g) { JoinInvitesNobody(sv, net', c, ts[1..], k, g); }
    }
  }

  lemma NewInvitation<C(!new)>(sv: Server<C>, net: Network<C>, cmd: Command<C>, k: ChannelId, g: C)
    requires Good(net, sv.limit) && !Invited(net, k, g) && Invited(Apply(sv, net, cmd), k, g)
    ensures Invites(net, cmd, k, g)
  {
    hide Apply;
    match cmd
    case Join(c, ts) =>
      JoinIs(sv, net, c, ts);
      JoinInvitesNobody(sv, net, c, ts, k, g);
    case Part(c, h) => PartIs(sv, net, c, h);
    case Kick(c, h, w) => KickIs(sv, net, c, h, w);
    case Mode(c, h, ps) => ModeKeepsEverybody(sv, net, c, h, ps, k, g);
    case Invite(c, h, w, away) => InviteIs(sv, net, c, h, w, away);
    case Quit(c) => QuitShrinks(sv, net, c);
  }

  lemma QuitShrinks<C(!new)>(sv: Server<C>, net: Network<C>, c: C)
    requires Good(net, sv.limit)
    ensures InvitationsStay(net, Apply(sv, net, Command.Quit(c)))
    ensures forall h :: h in Apply(sv, net, Command.Quit(c)) ==> h in net
  {
  }

  // In any run: whoever comes into a channel that is by invitation only had been invited by one
  // of its operators.
  lemma InvitedBefore<C(!new)>(sv: Server<C>, cmds: seq<Command<C>>, n: nat, k: ChannelId, g: C) returns (j: nat)
    requires n < |cmds| && k in After(sv, cmds[..n]) && INVITE in After(sv, cmds[..n])[k].flag
    requires FlagsIn(After(sv, cmds[..n]), k, g).None? && FlagsIn(After(sv, cmds[..n + 1]), k, g).Some?
    ensures j < n && Invites(After(sv, cmds[..j]), cmds[j], k, g)
  {
    hide Apply, Invites;
    AfterNext(sv, cmds, n);
    RunKeepsGood(sv, cmds[..n]);
    var i := Enters(sv, After(sv, cmds[..n]), cmds[n], k, g);
    j := Invitation(sv, cmds, n, k, g);
  }

  lemma {:induction false} Invitation<C(!new)>(sv: Server<C>, cmds: seq<Command<C>>, n: nat, k: ChannelId, g: C)
    returns (j: nat)
    requires n <= |cmds| && Invited(After(sv, cmds[..n]), k, g)
    ensures j < n && Invites(After(sv, cmds[..j]), cmds[j], k, g)
    decreases n
  {
    hide Apply, Invites, Good;
    assert n > 0;
    j := n - 1;
    if Invited(After(sv, cmds[..j]), k, g) {
      j := Invitation(sv, cmds, n - 1, k, g);
    } else {
      AfterNext(sv, cmds, j);
      RunKeepsGood(sv, cmds[..j]);
      NewInvitation(sv, After(sv, cmds[..j]), cmds[j], k, g);
    }
  }
}
