/**
  Properties of every run of channel commands: no empty channels, no client in too many of
  them, and no operator who is neither founder nor appointed by an operator.
*/
module IrcRuns {
  import opened Sequences
  import opened IrcSpec

  // ----- what single commands keep -----

  lemma ClientFlagKeepsMembers<C>(chan: Chan<C>, nickOf: C -> string, nick: string, m: Mode, on: bool)
    ensures ClientFlag(chan, nickOf, nick, m, on).members.Keys == chan.members.Keys
  {
  }

  // With different nicks for different members, the flag goes to the member of that nick.
  lemma ClientFlagIs<C>(chan: Chan<C>, nickOf: C -> string, c: C, m: Mode, on: bool)
    requires c in chan.members
    requires forall d :: d in chan.members && nickOf(d) == nickOf(c) ==> d == c
    ensures ClientFlag(chan, nickOf, nickOf(c), m, on)
         == chan.(members := chan.members[c := Turn(chan.members[c], m, on)])
  {
  }

  lemma NoSuchNick<C>(chan: Chan<C>, nickOf: C -> string, nick: string, m: Mode, on: bool)
    ensures (forall d :: d in chan.members ==> nickOf(d) != nick) ==> ClientFlag(chan, nickOf, nick, m, on) == chan
  {
  }

  lemma {:induction false} ModeKeepsMembers<C>(s: Moding<C>, req: string, paras: seq<string>, oper: bool,
                                               nickOf: C -> string, atoi: string -> int)
    ensures ModeLetters(s, req, paras, oper, nickOf, atoi).chan.members.Keys == s.chan.members.Keys
    ensures !oper ==> ModeLetters(s, req, paras, oper, nickOf, atoi).chan == s.chan
  {
    if req != "" {
      var n := |req| - 1;
      ModeKeepsMembers(s, req[..n], paras, oper, nickOf, atoi);
      var mid := ModeLetters(s, req[..n], paras, oper, nickOf, atoi);
      var arg := Para(paras, mid.para);
      ClientFlagKeepsMembers(mid.chan, nickOf, arg, OPERATOR, mid.on);
      ClientFlagKeepsMembers(mid.chan, nickOf, arg, VOICE, mid.on);
    }
  }

  lemma SmallerJoined<C(!new)>(net: Network<C>, net': Network<C>, limit: nat)
    requires forall c: C :: |Joined(net, c)| <= limit
    requires forall k, c :: k in net' && c in net'[k].members ==> k in net && c in net[k].members
    ensures forall c: C :: |Joined(net', c)| <= limit
  {
    forall c: C ensures |Joined(net', c)| <= limit {
      assert Joined(net', c) <= Joined(net, c);
      SubsetBound(Joined(net', c), Joined(net, c));
    }
  }

  lemma JoinKeepsGood<C(!new)>(net: Network<C>, limit: nat, c: C, k: ChannelId)
    requires Good(net, limit)
    ensures Good(JoinSpec(net, limit, c, k), limit)
  {
    hide Joined, JoinSpec;
    JoinShape(net, limit, c, k);
    var net' := JoinSpec(net, limit, c, k);
    if net' != net {
      assert c in net'[k].members;
      forall d: C ensures |Joined(net', d)| <= limit {
        JoinedAfter(net, net', c, k, d);
      }
    }
  }

  lemma JoinShape<C>(net: Network<C>, limit: nat, c: C, k: ChannelId)
    ensures var net' := JoinSpec(net, limit, c, k);
      net' == net || (
        && |Joined(net, c)| < limit && k in net' && net' == net[k := net'[k]]
        && net'[k].members.Keys == (if k in net then net[k].members.Keys else {}) + {c})
  {
    hide Joined;
  }

  lemma JoinedAfter<C>(net: Network<C>, net': Network<C>, c: C, k: ChannelId, d: C)
    requires k in net' && net' == net[k := net'[k]]
    requires net'[k].members.Keys == (if k in net then net[k].members.Keys else {}) + {c}
    ensures Joined(net', d) == if d == c then Joined(net, d) + {k} else Joined(net, d)
  {
  }

  lemma JoinTargetKeepsGood<C(!new)>(net: Network<C>, limit: nat, id: string -> ChannelId, c: C, t: Target)
    requires Good(net, limit)
    ensures Good(JoinTarget(net, limit, id, c, t).1, limit)
  {
    var k := id(t.name);
    var net' := if k in net then net[k := Admit(net[k], c, t).1] else net;
    SmallerJoined(net, net', limit);
    JoinKeepsGood(net', limit, c, k);
  }

  lemma {:induction false} JoinCommandKeepsGood<C(!new)>(net: Network<C>, limit: nat, id: string -> ChannelId,
                                                         c: C, ts: seq<Target>)
    requires Good(net, limit)
    ensures Good(JoinCommand(net, limit, id, c, ts), limit)
    decreases |ts|
  {
    hide Good, JoinTarget;
    if ts != [] {
      JoinTargetKeepsGood(net, limit, id, c, ts[0]);
      JoinCommandKeepsGood(JoinTarget(net, limit, id, c, ts[0]).1, limit, id, c, ts[1..]);
    }
  }

  lemma LeaveKeepsGood<C(!new)>(net: Network<C>, limit: nat, c: C, k: ChannelId)
    requires Good(net, limit)
    ensures Good(LeaveSpec(net, c, k), limit)
  {
    var net' := LeaveSpec(net, c, k);
    SmallerJoined(net, net', limit);
    if k in net && k in net' && net' != net {
      OthersRemain(net[k].members, c);
    }
  }

  lemma OthersRemain<C, T>(m: map<C, T>, c: C)
    requires c in m && m.Keys != {c}
    ensures m - {c} != map[]
  {
    assert m.Keys == {c} + (m.Keys - {c});
    var d :| d in m.Keys - {c};
    assert d in m - {c};
  }

  lemma CommandKeepsGood<C(!new)>(sv: Server<C>, net: Network<C>, cmd: Command<C>)
    requires Good(net, sv.limit)
    ensures Good(Apply(sv, net, cmd), sv.limit)
  {
    var net' := Apply(sv, net, cmd);
    match cmd
    case Join(c, ts) => JoinCommandKeepsGood(net, sv.limit, sv.id, c, ts);
    case Part(c, k) => LeaveKeepsGood(net, sv.limit, c, k);
    case Kick(c, k, v) => LeaveKeepsGood(net, sv.limit, v, k);
    case Mode(c, k, ps) =>
      if net' != net {
        ModeKeepsMembers(Moding(net[k], 2, true), ps[1], ps, IsOperator(net, k, c), sv.nickOf, sv.atoi);
      }
      SmallerJoined(net, net', sv.limit);
    case Invite(c, k, g, away) => SmallerJoined(net, net', sv.limit);
    case Quit(c) =>
      SmallerJoined(net, net', sv.limit);
      QuitLeavesOthers(net, c);
  }

  lemma {:induction false} RunKeepsGood<C(!new)>(sv: Server<C>, cmds: seq<Command<C>>)
    ensures Good(After(sv, cmds), sv.limit)
  {
    if cmds == [] {
      forall c: C ensures |Joined(After(sv, cmds), c)| <= sv.limit { assert Joined(After(sv, cmds), c) == {}; }
    } else {
      RunKeepsGood(sv, cmds[..|cmds| - 1]);
      CommandKeepsGood(sv, After(sv, cmds[..|cmds| - 1]), cmds[|cmds| - 1]);
    }
  }

  // ----- leaving -----

  // Quitting removes the client everywhere and leaves every other member's flags alone.
  lemma QuitLeavesOthers<C(!new)>(net: Network<C>, c: C)
    requires forall k :: k in net ==> net[k].members != map[]
    ensures Joined(QuitSpec(net, c), c) == {}
    ensures forall k :: k in QuitSpec(net, c) <==> k in net && exists d :: d in net[k].members && d != c
    ensures forall k, d :: k in net && d in net[k].members && d != c ==>
              k in QuitSpec(net, c) && d in QuitSpec(net, c)[k].members
              && QuitSpec(net, c)[k].members[d] == net[k].members[d]
  {
    forall k | k in net ensures net[k].members.Keys != {c} <==> exists d :: d in net[k].members && d != c {
      if forall d :: d in net[k].members ==> d == c {
        assert c in net[k].members;
        assert net[k].members.Keys == {c};
      }
    }
  }

  // Leaving one channel first makes no difference to the outcome of quitting.
  lemma LeaveThenQuit<C>(net: Network<C>, c: C, k: ChannelId)
    ensures QuitSpec(LeaveSpec(net, c, k), c) == QuitSpec(net, c)
  {
    var net' := LeaveSpec(net, c, k);
    if net' != net && net[k].members.Keys != {c} {
      assert net'[k].members - {c} == net[k].members - {c};
      assert c !in net'[k].members;
    }
  }

  // A PART of `names` from `net` on has come to `now` and target `n`.
  ghost predicate Parting<C>(sv: Server<C>, net: Network<C>, now: Network<C>, c: C, names: seq<string>, n: nat)
  {
    Applied(sv, net, Parts(sv, net, c, names, 0)) == Applied(sv, now, Parts(sv, now, c, names, n))
  }

  lemma PartingStart<C>(sv: Server<C>, net: Network<C>, c: C, names: seq<string>)
    ensures Parting(sv, net, net, c, names, 0)
  {
  }

  lemma PartingEnd<C>(sv: Server<C>, net: Network<C>, now: Network<C>, c: C, names: seq<string>, n: nat)
    requires Parting(sv, net, now, c, names, n) && n >= |names|
    ensures now == Applied(sv, net, Parts(sv, net, c, names, 0))
  {
  }

  lemma PartingNext<C>(sv: Server<C>, net: Network<C>, now: Network<C>, c: C, names: seq<string>, n: nat)
    requires Parting(sv, net, now, c, names, n) && n < |names|
    ensures var k := sv.id(names[n]);
      if k in Joined(now, c) then Parting(sv, net, Apply(sv, now, Part(c, k)), c, names, |now[k].members| + 1)
      else now == Applied(sv, net, Parts(sv, net, c, names, 0))
  {
    if sv.id(names[n]) in Joined(now, c) {
      AppliedRest(sv, now, Parts(sv, now, c, names, n));
    }
  }

  // The commands after the first one.
  lemma {:induction false} AppliedRest<C>(sv: Server<C>, net: Network<C>, cmds: seq<Command<C>>)
    requires cmds != []
    ensures Applied(sv, net, cmds) == Applied(sv, Apply(sv, net, cmds[0]), cmds[1..])
    decreases |cmds|
  {
    hide Apply;
    if |cmds| > 1 {
      var n := |cmds| - 1;
      AppliedRest(sv, net, cmds[..n]);
      assert cmds[1..][..n - 1] == cmds[..n][1..];
    } else {
      assert cmds[..0] == [];
    }
  }

  // A channel is not left by a PART that names it as the second target only.
  lemma {:induction false} PartSkipsSecond<C>(sv: Server<C>, net: Network<C>, c: C, names: seq<string>,
                                             n: nat, k: ChannelId)
    requires n != 1 && k in net
    requires forall i :: 0 <= i < |names| && i != 1 ==> sv.id(names[i]) != k
    ensures var net' := Applied(sv, net, Parts(sv, net, c, names, n)); k in net' && net'[k] == net[k]
    decreases |Joined(net, c)|
  {
    hide Joined;
    var cmds := Parts(sv, net, c, names, n);
    if cmds != [] {
      var h := sv.id(names[n]);
      LeftOne(net, c, h);
      AppliedRest(sv, net, cmds);
      assert |net[h].members| > 0;
      PartSkipsSecond(sv, LeaveSpec(net, c, h), c, names, |net[h].members| + 1, k);
    }
  }

  // So a PART of different channels leaves them all if and only if there is only one.
  lemma PartLeavesAllIff<C>(sv: Server<C>, net: Network<C>, c: C, names: seq<string>)
    requires forall i :: 0 <= i < |names| ==> sv.id(names[i]) in Joined(net, c)
    requires forall i, j :: 0 <= i < j < |names| ==> sv.id(names[i]) != sv.id(names[j])
    ensures var net' := Applied(sv, net, Parts(sv, net, c, names, 0));
            (forall i :: 0 <= i < |names| ==> sv.id(names[i]) !in Joined(net', c)) <==> |names| <= 1
  {
    var net' := Applied(sv, net, Parts(sv, net, c, names, 0));
    if |names| > 1 {
      PartSkipsSecond(sv, net, c, names, 0, sv.id(names[1]));
    } else if |names| == 1 {
      var k := sv.id(names[0]);
      LeftOne(net, c, k);
      AppliedRest(sv, net, Parts(sv, net, c, names, 0));
      assert |net[k].members| > 0;
    }
  }

  // Of three channels the third is left as well if and only if nobody else was in the first.
  lemma PartOfThree<C>(sv: Server<C>, net: Network<C>, c: C, names: seq<string>)
    requires |names| == 3 && forall i :: 0 <= i < |names| ==> sv.id(names[i]) in Joined(net, c)
    requires forall i, j :: 0 <= i < j < |names| ==> sv.id(names[i]) != sv.id(names[j])
    ensures var net' := Applied(sv, net, Parts(sv, net, c, names, 0));
            && sv.id(names[0]) !in Joined(net', c) && sv.id(names[1]) in Joined(net', c)
            && (sv.id(names[2]) !in Joined(net', c) <==> net[sv.id(names[0])].members.Keys == {c})
  {
    var (first, third) := (sv.id(names[0]), sv.id(names[2]));
    var (cmds, one) := (Parts(sv, net, c, names, 0), LeaveSpec(net, c, first));
    PartSkipsSecond(sv, net, c, names, 0, sv.id(names[1]));
    LeftOne(net, c, first);
    AppliedRest(sv, net, cmds);
    var n := |net[first].members|;
    OnlyMember(net[first].members, c);
    assert cmds[1..] == Parts(sv, one, c, names, n + 1);
    if n == 1 {
      LeftOne(one, c, third);
      AppliedRest(sv, one, cmds[1..]);
      FirstStaysOut(sv, LeaveSpec(one, c, third), c, names, |one[third].members| + 1, first, third);
    }
  }

  lemma OnlyMember<C, T>(m: map<C, T>, c: C)
    requires c in m
    ensures |m| >= 1 && (|m| == 1 <==> m.Keys == {c})
  {
    assert |m| == |m.Keys| && m.Keys == {c} + (m.Keys - {c});
    assert |m.Keys| == 1 + |m.Keys - {c}|;
  }

  // Leaving never leads back into a channel.
  lemma {:induction false} FirstStaysOut<C>(sv: Server<C>, net: Network<C>, c: C, names: seq<string>, n: nat,
                                            a: ChannelId, b: ChannelId)
    requires a !in Joined(net, c) && b !in Joined(net, c)
    ensures var net' := Applied(sv, net, Parts(sv, net, c, names, n)); a !in Joined(net', c) && b !in Joined(net', c)
    decreases |Joined(net, c)|
  {
    var cmds := Parts(sv, net, c, names, n);
    if cmds != [] {
      var h := sv.id(names[n]);
      LeftOne(net, c, h);
      AppliedRest(sv, net, cmds);
      FirstStaysOut(sv, LeaveSpec(net, c, h), c, names, |net[h].members| + 1, a, b);
    }
  }

  lemma QuitWhenNowhere<C>(net: Network<C>, c: C)
    requires Joined(net, c) == {}
    ensures QuitSpec(net, c) == net
  {
    forall k | k in net ensures net[k].members.Keys != {c} && net[k].(members := net[k].members - {c}) == net[k] {
      assert k !in Joined(net, c);
      assert net[k].members - {c} == net[k].members;
    }
  }

  // ----- where operators come from -----

  ghost predicate Founds<C>(net: Network<C>, cmd: Command<C>, k: ChannelId, c: C) {
    cmd.Join? && cmd.client == c && k !in net
  }

  // The letter at `i` is an 'o' under '+', and its parameter is the nick of `c`.
  ghost predicate Appoints<C>(s: Moding<C>, req: string, i: nat, paras: seq<string>, oper: bool,
                              nickOf: C -> string, atoi: string -> int, c: C)
    requires i < |req|
  {
    && req[i] == 'o'
    && var before := ModeLetters(s, req[..i], paras, oper, nickOf, atoi);
       before.on && Para(paras, before.para) == nickOf(c)
  }

  // A MODE by an operator of the channel that appoints `c`.
  ghost predicate Grants<C>(sv: Server<C>, net: Network<C>, cmd: Command<C>, k: ChannelId, c: C) {
    && cmd.Mode? && cmd.chan == k && IsOperator(net, k, cmd.client) && |cmd.paras| >= 2
    && exists i :: 0 <= i < |cmd.paras[1]| &&
         Appoints(Moding(net[k], 2, true), cmd.paras[1], i, cmd.paras, true, sv.nickOf, sv.atoi, c)
  }

  // A mode string makes an operator of nobody but the members its letters appoint.
  lemma {:induction false} ModeAppoints<C>(s: Moding<C>, req: string, paras: seq<string>, oper: bool,
                                           nickOf: C -> string, atoi: string -> int, c: C) returns (i: nat)
    requires c in s.chan.members && OPERATOR !in s.chan.members[c]
    requires c in ModeLetters(s, req, paras, oper, nickOf, atoi).chan.members
    requires OPERATOR in ModeLetters(s, req, paras, oper, nickOf, atoi).chan.members[c]
    ensures i < |req| && oper && Appoints(s, req, i, paras, oper, nickOf, atoi, c)
  {
    var n := |req| - 1;
    var mid := ModeLetters(s, req[..n], paras, oper, nickOf, atoi);
    ModeKeepsMembers(s, req[..n], paras, oper, nickOf, atoi);
    if OPERATOR in mid.chan.members[c] {
      i := ModeAppoints(s, req[..n], paras, oper, nickOf, atoi, c);
      assert req[..n][..i] == req[..i];
    } else {
      LetterAppoints(mid, req[n], paras, oper, nickOf, atoi, c);
      i := n;
    }
  }

  lemma LetterAppoints<C>(s: Moding<C>, letter: char, paras: seq<string>, oper: bool,
                          nickOf: C -> string, atoi: string -> int, c: C)
    requires c in s.chan.members && OPERATOR !in s.chan.members[c]
    requires c in ModeLetter(s, letter, paras, oper, nickOf, atoi).chan.members
    requires OPERATOR in ModeLetter(s, letter, paras, oper, nickOf, atoi).chan.members[c]
    ensures letter == 'o' && oper && s.on && Para(paras, s.para) == nickOf(c)
  {
  }

  lemma {:induction false} JoinMakesNoOperators<C>(net: Network<C>, limit: nat, id: string -> ChannelId,
                                                   c: C, ts: seq<Target>, k: ChannelId, d: C)
    ensures k in net ==> k in JoinCommand(net, limit, id, c, ts)
    ensures IsOperator(JoinCommand(net, limit, id, c, ts), k, d) ==>
              IsOperator(net, k, d) || (k !in net && d == c)
    decreases |ts|
  {
    if ts != [] {
      JoinMakesNoOperators(JoinTarget(net, limit, id, c, ts[0]).1, limit, id, c, ts[1..], k, d);
    }
  }

  // A new operator has just founded the channel or was appointed by name by one of its operators.
  lemma NewOperator<C>(sv: Server<C>, net: Network<C>, cmd: Command<C>, k: ChannelId, c: C)
    requires IsOperator(Apply(sv, net, cmd), k, c)
    ensures IsOperator(net, k, c) || Founds(net, cmd, k, c) || Grants(sv, net, cmd, k, c)
  {
    match cmd
    case Join(d, ts) => JoinMakesNoOperators(net, sv.limit, sv.id, d, ts, k, c);
    case Mode(d, h, ps) =>
      if h == k && h in net && |ps| >= 2 {
        var s, oper := Moding(net[h], 2, true), IsOperator(net, h, d);
        ModeKeepsMembers(s, ps[1], ps, oper, sv.nickOf, sv.atoi);
        if !IsOperator(net, k, c) {
          var i := ModeAppoints(s, ps[1], ps, oper, sv.nickOf, sv.atoi, c);
        }
      }
    case _ =>
  }

  lemma NobodyYet<C>(sv: Server<C>, k: ChannelId, c: C)
    ensures !IsOperator(After(sv, []), k, c)
  {
  }

  // Every operator of every run: some command made them one, as founder or by name in a MODE of a
  // member who was operator when that command began, and they have been operator since.
  lemma {:induction false} OperatorsAreGranted<C>(sv: Server<C>, cmds: seq<Command<C>>, k: ChannelId, c: C)
    returns (j: nat)
    requires IsOperator(After(sv, cmds), k, c)
    ensures j < |cmds|
    ensures var net := After(sv, cmds[..j]);
            !IsOperator(net, k, c) && (Founds(net, cmds[j], k, c) || Grants(sv, net, cmds[j], k, c))
    ensures forall i :: j < i <= |cmds| ==> IsOperator(After(sv, cmds[..i]), k, c)
  {
    hide Apply, IsOperator, Founds, Grants;
    NobodyYet(sv, k, c);
    assert cmds != [];
    var n := |cmds| - 1;
    var earlier := cmds[..n];
    assert cmds[..|cmds|] == cmds;
    if IsOperator(After(sv, earlier), k, c) {
      j := OperatorsAreGranted(sv, earlier, k, c);
      assert earlier[..j] == cmds[..j];
      forall i | j < i <= |cmds| ensures IsOperator(After(sv, cmds[..i]), k, c) {
        if i <= n { assert cmds[..i] == earlier[..i]; }
      }
    } else {
      NewOperator(sv, After(sv, earlier), cmds[n], k, c);
      j := n;
    }
  }

  ghost predicate Leaderless<C>(net: Network<C>, k: ChannelId) {
    k in net && forall c :: c in net[k].members ==> !IsOperator(net, k, c)
  }

  // A channel without an operator has none until it is emptied and destroyed.
  lemma {:induction false} LeaderlessForever<C>(sv: Server<C>, cmds: seq<Command<C>>, i: nat, k: ChannelId)
    requires i <= |cmds| && Leaderless(After(sv, cmds[..i]), k)
    requires forall j :: i <= j <= |cmds| ==> k in After(sv, cmds[..j])
    ensures Leaderless(After(sv, cmds), k)
  {
    hide Leaderless, Apply, IsOperator;
    assert cmds[..|cmds|] == cmds;
    if i < |cmds| {
      var n := |cmds| - 1;
      var earlier := cmds[..n];
      assert earlier[..i] == cmds[..i];
      forall j | i <= j <= n ensures k in After(sv, earlier[..j]) {
        assert earlier[..j] == cmds[..j];
      }
      LeaderlessForever(sv, earlier, i, k);
      LeaderlessStep(sv, After(sv, earlier), cmds[n], k);
    }
  }

  lemma LeaderlessStep<C>(sv: Server<C>, net: Network<C>, cmd: Command<C>, k: ChannelId)
    requires Leaderless(net, k) && k in Apply(sv, net, cmd)
    ensures Leaderless(Apply(sv, net, cmd), k)
  {
    forall c | c in Apply(sv, net, cmd)[k].members ensures !IsOperator(Apply(sv, net, cmd), k, c) {
      if IsOperator(Apply(sv, net, cmd), k, c) {
        NewOperator(sv, net, cmd, k, c);
      }
    }
  }
}
