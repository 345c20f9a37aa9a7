/**
  The channel network of an IRC server as a value: who is in which channel with which
  flags, and what each command of src/irc-server/irc-event-2.c does to it.
*/
module IrcSpec {

  datatype Mode = OPERATOR | PRIVATE | SECRET | INVITE | TOPIC | MESSAGE | MODERATE
                | ULIMIT | BAN | VOICE | KEY

  type Flags = set<Mode>

  // The channel table tells two names apart by hash code and by folded spelling.
  type ChannelId = (nat, string)

  datatype Chan<!C> = Chan(
    members: map<C, Flags>,   // `client` with the parallel `cflag`
    flag: Flags,              // channel flags
    users: int,               // user limit
    key: string,
    invited: multiset<C>)

  type Network<!C> = map<ChannelId, Chan<C>>

  // ----- membership -----

  ghost function Joined<C>(net: Network<C>, c: C): set<ChannelId>
  {
    set k | k in net && c in net[k].members
  }

  ghost predicate IsOperator<C>(net: Network<C>, k: ChannelId, c: C)
  {
    k in net && c in net[k].members && OPERATOR in net[k].members[c]
  }

  // A channel exists only while it has a member, and nobody is in too many channels.
  ghost predicate Good<C(!new)>(net: Network<C>, limit: nat)
  {
    && (forall k :: k in net ==> net[k].members != map[])
    && (forall c: C :: |Joined(net, c)| <= limit)
  }

  function Founded<C>(c: C): Chan<C>
  {
    Chan(map[c := {OPERATOR}], {}, 0, "", multiset{})
  }

  // irc_join_channel
  ghost function JoinSpec<C>(net: Network<C>, limit: nat, c: C, k: ChannelId): Network<C>
  {
    if |Joined(net, c)| >= limit || (k in net && c in net[k].members) then net
    else if k in net then net[k := net[k].(members := net[k].members[c := {}])]
    else net[k := Founded(c)]
  }

  // irc_leave_channel
  ghost function LeaveSpec<C>(net: Network<C>, c: C, k: ChannelId): Network<C>
  {
    if k !in net || c !in net[k].members then net
    else if net[k].members.Keys == {c} then net - {k}
    else net[k := net[k].(members := net[k].members - {c})]
  }

  // irc_leave_all_channels
  ghost function QuitSpec<C>(net: Network<C>, c: C): Network<C>
  {
    map k | k in net && net[k].members.Keys != {c} :: net[k].(members := net[k].members - {c})
  }

  // ----- JOIN -----

  // One target of a JOIN: `key` is the key given for it, `banned` what the ban list says.
  datatype Target = Target(name: string, key: string, banned: bool)

  // The checks before joining an existing channel.  An invitation is spent when the client
  // is on the list, even if the channel turns out to be full or the client banned.
  ghost function Admit<C>(chan: Chan<C>, c: C, t: Target): (bool, Chan<C>)
  {
    if KEY in chan.flag && t.key != chan.key then (false, chan)
    else if INVITE in chan.flag && c !in chan.invited then (false, chan)
    else
      var spent := if INVITE in chan.flag then chan.(invited := chan.invited - multiset{c}) else chan;
      (!(ULIMIT in chan.flag && |chan.members| >= chan.users) && !t.banned, spent)
  }

  // One target: whether the command goes on with the next one, and the network by then.
  ghost function JoinTarget<C>(net: Network<C>, limit: nat, id: string -> ChannelId, c: C,
                               t: Target): (bool, Network<C>)
  {
    var k := id(t.name);
    if t.name == "" then (false, net)
    else if k !in net then (true, JoinSpec(net, limit, c, k))
    else
      var (ok, chan) := Admit(net[k], c, t);
      (ok, if ok then JoinSpec(net[k := chan], limit, c, k) else net[k := chan])
  }

  ghost function JoinCommand<C>(net: Network<C>, limit: nat, id: string -> ChannelId, c: C, ts: seq<Target>): Network<C>
    decreases |ts|
  {
    if ts == [] then net
    else
      var (go, net') := JoinTarget(net, limit, id, c, ts[0]);
      if go then JoinCommand(net', limit, id, c, ts[1..]) else net'
  }

  // ----- KICK and INVITE -----

  ghost function KickSpec<C>(net: Network<C>, c: C, k: ChannelId, victim: C): Network<C>
  {
    if IsOperator(net, k, c) then LeaveSpec(net, victim, k) else net
  }

  ghost function InviteSpec<C>(net: Network<C>, c: C, k: ChannelId, guest: C, away: bool): Network<C>
  {
    if IsOperator(net, k, c) && guest !in net[k].members && !away
    then net[k := net[k].(invited := net[k].invited + multiset{guest})]
    else net
  }

  // ----- MODE -----

  // What the mode string has done so far: the channel, the next parameter, set or unset.
  datatype Moding<!C> = Moding(chan: Chan<C>, para: nat, on: bool)

  function Para(paras: seq<string>, i: nat): string
  {
    if i < |paras| then paras[i] else ""
  }

  function Turn(flags: Flags, m: Mode, on: bool): Flags
  {
    if on then flags + {m} else flags - {m}
  }

  // irc_client_flag, for an issuer who was operator when the command began
  ghost function ClientFlag<C>(chan: Chan<C>, nickOf: C -> string, nick: string, m: Mode, on: bool): Chan<C>
  {
    if exists c :: c in chan.members && nickOf(c) == nick then
      var c :| c in chan.members && nickOf(c) == nick;
      chan.(members := chan.members[c := Turn(chan.members[c], m, on)])
    else chan
  }

  // irc_channel_arg, likewise
  function ChannelArg<C>(chan: Chan<C>, m: Mode, arg: string, on: bool, atoi: string -> int): Chan<C>
  {
    if m == BAN then chan
    else if !on then chan.(flag := chan.flag - {m})
    else if arg == "" then chan
    else if m == KEY then
      (if KEY in chan.flag then chan else chan.(key := arg, flag := chan.flag + {KEY}))
    else chan.(users := atoi(arg), flag := chan.flag + {m})
  }

  function FlagOf(letter: char): set<Mode>
  {
    match letter
    case 'p' => {PRIVATE} case 's' => {SECRET} case 'i' => {INVITE}
    case 't' => {TOPIC} case 'n' => {MESSAGE} case 'm' => {MODERATE}
    case _ => {}
  }

  // One letter of the mode string.  `oper` is the issuer's operator flag, read once when the
  // command began.
  ghost function ModeLetter<C>(s: Moding<C>, letter: char, paras: seq<string>, oper: bool,
                               nickOf: C -> string, atoi: string -> int): Moding<C>
  {
    var arg := Para(paras, s.para);
    match letter
    case '+' => s.(on := true)
    case '-' => s.(on := false)
    case 'b' => if s.para >= |paras| then s else s.(para := s.para + 1)
    case 'o' => s.(chan := if oper then ClientFlag(s.chan, nickOf, arg, OPERATOR, s.on) else s.chan, para := s.para + 1)
    case 'v' => s.(chan := if oper then ClientFlag(s.chan, nickOf, arg, VOICE, s.on) else s.chan, para := s.para + 1)
    case 'l' => s.(chan := if oper then ChannelArg(s.chan, ULIMIT, arg, s.on, atoi) else s.chan,
                   para := if s.on then s.para + 1 else s.para)
    case 'k' => s.(chan := if oper then ChannelArg(s.chan, KEY, arg, s.on, atoi) else s.chan,
                   para := if s.on then s.para + 1 else s.para)
    case _ =>
      if !oper then s
      else s.(chan := s.chan.(flag := if s.on then s.chan.flag + FlagOf(letter) else s.chan.flag - FlagOf(letter)))
  }

  ghost function ModeLetters<C>(s: Moding<C>, req: string, paras: seq<string>, oper: bool,
                                nickOf: C -> string, atoi: string -> int): Moding<C>
  {
    if req == "" then s
    else
      var n := |req| - 1;
      ModeLetter(ModeLetters(s, req[..n], paras, oper, nickOf, atoi), req[n], paras, oper, nickOf, atoi)
  }

  // The channel branch of irc_mode_callback; `paras` holds channel, mode string and arguments.
  ghost function ModeSpec<C>(net: Network<C>, c: C, k: ChannelId, paras: seq<string>,
                             nickOf: C -> string, atoi: string -> int): Network<C>
  {
    if k !in net || |paras| < 2 || c !in net[k].members then net
    else net[k := ModeLetters(Moding(net[k], 2, true), paras[1], paras, IsOperator(net, k, c), nickOf, atoi).chan]
  }

  // ----- commands -----

  datatype Command<C> =
    | Join(client: C, targets: seq<Target>)
    | Part(client: C, chan: ChannelId)
    | Kick(client: C, chan: ChannelId, victim: C)
    | Mode(client: C, chan: ChannelId, paras: seq<string>)
    | Invite(client: C, chan: ChannelId, guest: C, away: bool)
    | Quit(client: C)      // QUIT, and a lost connection

  // What does not change while the server runs.
  datatype Server<!C> = Server(limit: nat, id: string -> ChannelId, nickOf: C -> string, atoi: string -> int)

  ghost function Apply<C>(sv: Server<C>, net: Network<C>, cmd: Command<C>): Network<C>
  {
    match cmd
    case Join(c, ts) => JoinCommand(net, sv.limit, sv.id, c, ts)
    case Part(c, k) => LeaveSpec(net, c, k)
    case Kick(c, k, v) => KickSpec(net, c, k, v)
    case Mode(c, k, ps) => ModeSpec(net, c, k, ps, sv.nickOf, sv.atoi)
    case Invite(c, k, g, away) => InviteSpec(net, c, k, g, away)
    case Quit(c) => QuitSpec(net, c)
  }

  ghost function Applied<C>(sv: Server<C>, net: Network<C>, cmds: seq<Command<C>>): Network<C>
  {
    if cmds == [] then net else Apply(sv, Applied(sv, net, cmds[..|cmds| - 1]), cmds[|cmds| - 1])
  }

  // The commands a KICK with several targets stands for: one for each pair of a channel and a
  // known nick.
  function Kicks<C>(sv: Server<C>, clients: map<ChannelId, C>, c: C, targets: seq<(string, string)>): seq<Command<C>>
  {
    if targets == [] then []
    else
      var (name, nick) := targets[|targets| - 1];
      Kicks(sv, clients, c, targets[..|targets| - 1]) +
      if sv.id(nick) in clients then [Kick(c, sv.id(name), clients[sv.id(nick)])] else []
  }

  // The commands a PART with several targets stands for, from target `n` on.  The loop over the
  // members of the channel that is left reuses the variable of the loop over the targets, so that
  // it goes on behind the number of members.
  ghost function Parts<C>(sv: Server<C>, net: Network<C>, c: C, names: seq<string>, n: nat): seq<Command<C>>
    decreases |Joined(net, c)|
  {
    if n >= |names| || sv.id(names[n]) !in net || c !in net[sv.id(names[n])].members then []
    else
      var k := sv.id(names[n]);
      LeftOne(net, c, k);
      [Part(c, k)] + Parts(sv, LeaveSpec(net, c, k), c, names, |net[k].members| + 1)
  }

  lemma LeftOne<C>(net: Network<C>, c: C, k: ChannelId)
    requires k in net && c in net[k].members
    ensures |Joined(LeaveSpec(net, c, k), c)| == |Joined(net, c)| - 1
  {
    assert Joined(LeaveSpec(net, c, k), c) == Joined(net, c) - {k};
  }

  ghost function After<C>(sv: Server<C>, cmds: seq<Command<C>>): Network<C>
  {
    Applied(sv, map[], cmds)
  }
}
