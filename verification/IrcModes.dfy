/**
  What a mode string does to a channel, letter by letter: the sign and the parameter of every
  letter, and which letters decide flags, key, user limit and the flags of the members.
*/
module IrcModes {
  import opened IrcSpec
  import opened IrcRuns

  // ----- signs and parameters -----

  // Whether the letter at `i` stands under '+', as all do before the first sign.
  predicate Plus(req: string, i: nat)
    requires i <= |req|
  {
    i == 0 || req[i - 1] == '+' || (req[i - 1] != '-' && Plus(req, i - 1))
  }

  // The number of the next parameter at `i`; the first two are the channel and the mode string.
  function Next(req: string, paras: seq<string>, i: nat): nat
    requires i <= |req|
  {
    if i == 0 then 2
    else
      var (letter, n) := (req[i - 1], Next(req, paras, i - 1));
      if letter in "ov" || (letter in "lk" && Plus(req, i - 1)) || (letter == 'b' && n < |paras|) then n + 1 else n
  }

  function Arg(req: string, paras: seq<string>, i: nat): string
    requires i <= |req|
  {
    var n := Next(req, paras, i);
    if n < |paras| then paras[n] else ""
  }

  // ----- the letter that decides -----

  ghost predicate LastOf(s: set<nat>, i: nat) {
    i in s && forall j :: j in s ==> j <= i
  }

  ghost function Below(s: set<nat>, m: nat): set<nat> {
    set i | i in s && i < m
  }

  // The last of these letters stands under '+', or there is none and it was so before.
  ghost predicate SetBy(req: string, s: set<nat>, was: bool)
    requires forall i :: i in s ==> i < |req|
  {
    (exists i :: LastOf(s, i) && Plus(req, i)) || (s == {} && was)
  }

  ghost function Places(req: string, letter: char): set<nat> {
    set i | 0 <= i < |req| && req[i] == letter
  }

  // The letters with that nick for a parameter.
  ghost function Naming(req: string, paras: seq<string>, letter: char, nick: string): set<nat> {
    set i | 0 <= i < |req| && req[i] == letter && Arg(req, paras, i) == nick
  }

  // The letters 'k' and 'l' that do anything: setting takes a parameter.
  ghost function Working(req: string, paras: seq<string>, letter: char): set<nat> {
    set i | 0 <= i < |req| && req[i] == letter && (Plus(req, i) ==> Arg(req, paras, i) != "")
  }

  // The letters that set a limit.
  ghost function Limiting(req: string, paras: seq<string>): set<nat> {
    set i | 0 <= i < |req| && req[i] == 'l' && Plus(req, i) && Arg(req, paras, i) != ""
  }

  // The letters that set a key: there was none when it was their turn.
  ghost function Locking(req: string, paras: seq<string>, had: bool): set<nat> {
    set i | 0 <= i < |req| && req[i] == 'k' && Plus(req, i) && Arg(req, paras, i) != ""
            && !SetBy(req, Below(Working(req, paras, 'k'), i), had)
  }

  lemma LastOfBelow(s: set<nat>, m: nat, i: nat)
    ensures m in s ==> (LastOf(Below(s, m + 1), i) <==> i == m)
    ensures m !in s ==> Below(s, m + 1) == Below(s, m)
  {
    if m in s { assert m in Below(s, m + 1); }
  }

  lemma SetByNext(req: string, s: set<nat>, was: bool, m: nat)
    requires (forall i :: i in s ==> i < |req|) && m < |req|
    ensures SetBy(req, Below(s, m + 1), was) <==> if m in s then Plus(req, m) else SetBy(req, Below(s, m), was)
  {
    if m in s {
      LastOfBelow(s, m, m);
      assert LastOf(Below(s, m + 1), m);
      if i :| LastOf(Below(s, m + 1), i) && Plus(req, i) {
        LastOfBelow(s, m, i);
      }
    } else {
      LastOfBelow(s, m, m);
    }
  }

  lemma BelowAll(req: string, s: set<nat>)
    requires forall i :: i in s ==> i < |req|
    ensures Below(s, |req|) == s && Below(s, 0) == {}
  {
  }

  // ----- a mode string of an operator, up to its letter `m` -----

  ghost function At<C>(chan: Chan<C>, req: string, paras: seq<string>, sv: Server<C>, m: nat): Moding<C>
    requires m <= |req|
  {
    ModeLetters(Moding(chan, 2, true), req[..m], paras, true, sv.nickOf, sv.atoi)
  }

  lemma AtNext<C>(chan: Chan<C>, req: string, paras: seq<string>, sv: Server<C>, m: nat)
    requires m < |req|
    ensures At(chan, req, paras, sv, 0) == Moding(chan, 2, true)
    ensures At(chan, req, paras, sv, m + 1)
         == ModeLetter(At(chan, req, paras, sv, m), req[m], paras, true, sv.nickOf, sv.atoi)
  {
    hide ModeLetter;
    assert req[..m + 1][..m] == req[..m];
  }

  lemma {:induction false} SignAndParameter<C>(chan: Chan<C>, req: string, paras: seq<string>, sv: Server<C>, m: nat)
    requires m <= |req|
    ensures At(chan, req, paras, sv, m).on == Plus(req, m)
    ensures At(chan, req, paras, sv, m).para == Next(req, paras, m)
  {
    hide ClientFlag, ChannelArg;
    if m > 0 {
      SignAndParameter(chan, req, paras, sv, m - 1);
      AtNext(chan, req, paras, sv, m - 1);
    }
  }

  // ----- one letter -----

  predicate Simple(letter: char, flag: Mode) {
    || (letter == 'p' && flag == PRIVATE) || (letter == 's' && flag == SECRET) || (letter == 'i' && flag == INVITE)
    || (letter == 't' && flag == TOPIC) || (letter == 'n' && flag == MESSAGE) || (letter == 'm' && flag == MODERATE)
  }

  ghost function After1<C>(s: Moding<C>, x: char, paras: seq<string>, sv: Server<C>): Chan<C> {
    ModeLetter(s, x, paras, true, sv.nickOf, sv.atoi).chan
  }

  lemma LetterOnFlag<C>(s: Moding<C>, x: char, paras: seq<string>, sv: Server<C>, letter: char, flag: Mode)
    requires Simple(letter, flag)
    ensures flag in After1(s, x, paras, sv).flag <==> if x == letter then s.on else flag in s.chan.flag
  {
    hide ClientFlag;
    ClientFlagOnly(s.chan, sv.nickOf, Para(paras, s.para), OPERATOR, s.on);
    ClientFlagOnly(s.chan, sv.nickOf, Para(paras, s.para), VOICE, s.on);
  }

  lemma ClientFlagOnly<C>(chan: Chan<C>, nickOf: C -> string, nick: string, m: Mode, on: bool)
    ensures var chan' := ClientFlag(chan, nickOf, nick, m, on);
      chan' == chan.(members := chan'.members) && chan'.members.Keys == chan.members.Keys
  {
  }

  lemma LetterOnLocks<C>(s: Moding<C>, x: char, paras: seq<string>, sv: Server<C>)
    ensures var (arg, now, was) := (Para(paras, s.para), After1(s, x, paras, sv), s.chan);
      && (KEY in now.flag <==> if x == 'k' && (s.on ==> arg != "") then s.on else KEY in was.flag)
      && (ULIMIT in now.flag <==> if x == 'l' && (s.on ==> arg != "") then s.on else ULIMIT in was.flag)
      && now.key == (if x == 'k' && s.on && arg != "" && KEY !in was.flag then arg else was.key)
      && now.users == (if x == 'l' && s.on && arg != "" then sv.atoi(arg) else was.users)
  {
    hide ClientFlag;
    ClientFlagOnly(s.chan, sv.nickOf, Para(paras, s.para), OPERATOR, s.on);
    ClientFlagOnly(s.chan, sv.nickOf, Para(paras, s.para), VOICE, s.on);
  }

  lemma LetterLeaves<C>(s: Moding<C>, x: char, paras: seq<string>, sv: Server<C>)
    ensures var (now, was) := (After1(s, x, paras, sv), s.chan);
      && now.members.Keys == was.members.Keys && now.invited == was.invited
      && forall flag | flag in {OPERATOR, VOICE, BAN} :: flag in now.flag <==> flag in was.flag
  {
    hide ClientFlag;
    ClientFlagOnly(s.chan, sv.nickOf, Para(paras, s.para), OPERATOR, s.on);
    ClientFlagOnly(s.chan, sv.nickOf, Para(paras, s.para), VOICE, s.on);
  }

  lemma LetterOnMember<C>(s: Moding<C>, x: char, paras: seq<string>, sv: Server<C>, d: C, flag: Mode)
    requires Unmistakable(s.chan, sv.nickOf, d)
    ensures d in After1(s, x, paras, sv).members
    ensures flag in After1(s, x, paras, sv).members[d] <==>
      if Para(paras, s.para) == sv.nickOf(d) && ((x == 'o' && flag == OPERATOR) || (x == 'v' && flag == VOICE))
      then s.on else flag in s.chan.members[d]
  {
    var arg := Para(paras, s.para);
    FlagOfNick(s.chan, sv.nickOf, arg, OPERATOR, s.on, d, flag);
    FlagOfNick(s.chan, sv.nickOf, arg, VOICE, s.on, d, flag);
    hide ClientFlag;
  }

  lemma FlagOfNick<C>(chan: Chan<C>, nickOf: C -> string, nick: string, m: Mode, on: bool, d: C, flag: Mode)
    requires Unmistakable(chan, nickOf, d)
    ensures var now := ClientFlag(chan, nickOf, nick, m, on);
      && d in now.members
      && (flag in now.members[d] <==> if nick == nickOf(d) && flag == m then on else flag in chan.members[d])
  {
    if nick == nickOf(d) { ClientFlagIs(chan, nickOf, d, m, on); }
  }

  // ----- all letters up to `m` -----

  lemma {:induction false} FlagSoFar<C>(chan: Chan<C>, req: string, paras: seq<string>, sv: Server<C>, m: nat,
                                        letter: char, flag: Mode)
    requires m <= |req| && Simple(letter, flag)
    ensures flag in At(chan, req, paras, sv, m).chan.flag <==>
            SetBy(req, Below(Places(req, letter), m), flag in chan.flag)
  {
    hide At, ModeLetter, Places, SetBy, Below, Simple;
    var s := Places(req, letter);
    PlacesAre(req, letter);
    if m == 0 {
      NothingSoFar(chan, req, paras, sv, s, flag in chan.flag);
    } else {
      FlagSoFar(chan, req, paras, sv, m - 1, letter, flag);
      var mid := At(chan, req, paras, sv, m - 1);
      AtNext(chan, req, paras, sv, m - 1);
      SignAndParameter(chan, req, paras, sv, m - 1);
      LetterOnFlag(mid, req[m - 1], paras, sv, letter, flag);
      SetByNext(req, s, flag in chan.flag, m - 1);
    }
  }

  lemma PlacesAre(req: string, letter: char)
    ensures forall i: nat :: i in Places(req, letter) <==> i < |req| && req[i] == letter
  {
  }

  lemma NothingSoFar<C>(chan: Chan<C>, req: string, paras: seq<string>, sv: Server<C>, s: set<nat>, was: bool)
    requires forall i :: i in s ==> i < |req|
    ensures At(chan, req, paras, sv, 0) == Moding(chan, 2, true)
    ensures SetBy(req, Below(s, 0), was) <==> was
  {
    BelowAll(req, s);
    assert req[..0] == "";
  }

  predicate Locks(letter: char, flag: Mode) {
    (letter == 'k' && flag == KEY) || (letter == 'l' && flag == ULIMIT)
  }

  // The letter that decides over key and limit is the last one that works.
  lemma {:induction false} LockSoFar<C>(chan: Chan<C>, req: string, paras: seq<string>, sv: Server<C>, m: nat,
                                        letter: char, flag: Mode)
    requires m <= |req| && Locks(letter, flag)
    ensures flag in At(chan, req, paras, sv, m).chan.flag <==>
            SetBy(req, Below(Working(req, paras, letter), m), flag in chan.flag)
  {
    hide At, ModeLetter, Working, SetBy, Below;
    var s := Working(req, paras, letter);
    WorkingAre(req, paras, letter);
    if m == 0 {
      NothingSoFar(chan, req, paras, sv, s, flag in chan.flag);
    } else {
      LockSoFar(chan, req, paras, sv, m - 1, letter, flag);
      AtNext(chan, req, paras, sv, m - 1);
      SignAndParameter(chan, req, paras, sv, m - 1);
      LetterOnLocks(At(chan, req, paras, sv, m - 1), req[m - 1], paras, sv);
      SetByNext(req, s, flag in chan.flag, m - 1);
    }
  }

  lemma WorkingAre(req: string, paras: seq<string>, letter: char)
    ensures forall i: nat :: i in Working(req, paras, letter) <==>
      i < |req| && req[i] == letter && (Plus(req, i) ==> Arg(req, paras, i) != "")
  {
  }

  // The last letter of `s` gives the value, or it is the old one.
  ghost predicate Gives<T>(s: set<nat>, value: nat -> T, now: T, was: T) {
    (forall i :: LastOf(s, i) ==> now == value(i)) && (s == {} ==> now == was)
  }

  lemma GivesNext<T>(s: set<nat>, value: nat -> T, now: T, now': T, was: T, m: nat)
    requires Gives(Below(s, m), value, now, was) && now' == if m in s then value(m) else now
    ensures Gives(Below(s, m + 1), value, now', was)
  {
    forall i | LastOf(Below(s, m + 1), i) ensures now' == value(i) {
      LastOfBelow(s, m, i);
    }
    LastOfBelow(s, m, m);
    if m in s { assert m in Below(s, m + 1); }
  }

  lemma {:induction false} LimitSoFar<C>(chan: Chan<C>, req: string, paras: seq<string>, sv: Server<C>, m: nat)
    requires m <= |req|
    ensures Gives(Below(Limiting(req, paras), m), (i: nat) => if i <= |req| then sv.atoi(Arg(req, paras, i)) else 0,
                  At(chan, req, paras, sv, m).chan.users, chan.users)
  {
    hide At, Limiting, SetBy, Below, Gives, Plus, Arg;
    var s, value := Limiting(req, paras), (i: nat) => if i <= |req| then sv.atoi(Arg(req, paras, i)) else 0;
    LimitingAre(req, paras);
    if m == 0 {
      NothingGiven(chan, req, paras, sv, s, value, chan.users);
    } else {
      LimitSoFar(chan, req, paras, sv, m - 1);
      LocksNext(chan, req, paras, sv, m - 1);
      GivesNext(s, value, At(chan, req, paras, sv, m - 1).chan.users, At(chan, req, paras, sv, m).chan.users,
                chan.users, m - 1);
    }
  }

  // What the letter at `m` does to key and limit.
  lemma LocksNext<C>(chan: Chan<C>, req: string, paras: seq<string>, sv: Server<C>, m: nat)
    requires m < |req|
    ensures var (was, now) := (At(chan, req, paras, sv, m).chan, At(chan, req, paras, sv, m + 1).chan);
      && now.key == (if req[m] == 'k' && Plus(req, m) && Arg(req, paras, m) != "" && KEY !in was.flag
                     then Arg(req, paras, m) else was.key)
      && now.users == (if req[m] == 'l' && Plus(req, m) && Arg(req, paras, m) != ""
                       then sv.atoi(Arg(req, paras, m)) else was.users)
  {
    hide At, ModeLetter;
    AtNext(chan, req, paras, sv, m);
    SignAndParameter(chan, req, paras, sv, m);
    LetterOnLocks(At(chan, req, paras, sv, m), req[m], paras, sv);
  }

  lemma LimitingAre(req: string, paras: seq<string>)
    ensures forall i: nat :: i in Limiting(req, paras) <==>
      i < |req| && req[i] == 'l' && Plus(req, i) && Arg(req, paras, i) != ""
  {
  }

  lemma NothingGiven<C, T>(chan: Chan<C>, req: string, paras: seq<string>, sv: Server<C>, s: set<nat>,
                           value: nat -> T, was: T)
    requires forall i :: i in s ==> i < |req|
    ensures At(chan, req, paras, sv, 0) == Moding(chan, 2, true)
    ensures Gives(Below(s, 0), value, was, was)
  {
    BelowAll(req, s);
    assert req[..0] == "";
  }

  lemma {:induction false} KeySoFar<C>(chan: Chan<C>, req: string, paras: seq<string>, sv: Server<C>, m: nat)
    requires m <= |req|
    ensures Gives(Below(Locking(req, paras, KEY in chan.flag), m),
                  (i: nat) => if i <= |req| then Arg(req, paras, i) else "",
                  At(chan, req, paras, sv, m).chan.key, chan.key)
  {
    hide At, Locking, SetBy, Below, Gives, Plus, Arg;
    var s := Locking(req, paras, KEY in chan.flag);
    var value := (i: nat) => if i <= |req| then Arg(req, paras, i) else "";
    LockingAre(req, paras, KEY in chan.flag);
    if m == 0 {
      NothingGiven(chan, req, paras, sv, s, value, chan.key);
    } else {
      KeySoFar(chan, req, paras, sv, m - 1);
      LockSoFar(chan, req, paras, sv, m - 1, 'k', KEY);
      LocksNext(chan, req, paras, sv, m - 1);
      GivesNext(s, value, At(chan, req, paras, sv, m - 1).chan.key, At(chan, req, paras, sv, m).chan.key,
                chan.key, m - 1);
    }
  }

  lemma LockingAre(req: string, paras: seq<string>, had: bool)
    ensures forall i: nat :: i in Working(req, paras, 'k') ==> i < |req|
    ensures forall i: nat :: i in Locking(req, paras, had) <==>
      (i < |req| && req[i] == 'k' && Plus(req, i) && Arg(req, paras, i) != ""
       && !SetBy(req, Below(Working(req, paras, 'k'), i), had))
  {
  }

  predicate Ranks(letter: char, flag: Mode) {
    (letter == 'o' && flag == OPERATOR) || (letter == 'v' && flag == VOICE)
  }

  // Nobody else among the members has the nick of `d`.
  ghost predicate Unmistakable<C>(chan: Chan<C>, nickOf: C -> string, d: C) {
    d in chan.members && forall e :: e in chan.members && nickOf(e) == nickOf(d) ==> e == d
  }

  lemma {:induction false} StaysSoFar<C>(chan: Chan<C>, req: string, paras: seq<string>, sv: Server<C>, m: nat)
    requires m <= |req|
    ensures var now := At(chan, req, paras, sv, m).chan;
      && now.members.Keys == chan.members.Keys && now.invited == chan.invited
      && forall flag | flag in {OPERATOR, VOICE, BAN} :: flag in now.flag <==> flag in chan.flag
  {
    hide At, ModeLetter;
    if m == 0 {
      NothingSoFar(chan, req, paras, sv, {}, false);
    } else {
      StaysSoFar(chan, req, paras, sv, m - 1);
      AtNext(chan, req, paras, sv, m - 1);
      LetterLeaves(At(chan, req, paras, sv, m - 1), req[m - 1], paras, sv);
    }
  }

  lemma {:induction false} RankSoFar<C>(chan: Chan<C>, req: string, paras: seq<string>, sv: Server<C>, m: nat, d: C,
                                        letter: char, flag: Mode)
    requires m <= |req| && Ranks(letter, flag) && Unmistakable(chan, sv.nickOf, d)
    ensures d in At(chan, req, paras, sv, m).chan.members
    ensures flag in At(chan, req, paras, sv, m).chan.members[d] <==>
            SetBy(req, Below(Naming(req, paras, letter, sv.nickOf(d)), m), flag in chan.members[d])
  {
    hide At, ModeLetter, Naming, SetBy, Below;
    var s := Naming(req, paras, letter, sv.nickOf(d));
    NamingAre(req, paras, letter, sv.nickOf(d));
    if m == 0 {
      NothingSoFar(chan, req, paras, sv, s, flag in chan.members[d]);
    } else {
      RankSoFar(chan, req, paras, sv, m - 1, d, letter, flag);
      AtNext(chan, req, paras, sv, m - 1);
      SignAndParameter(chan, req, paras, sv, m - 1);
      StaysSoFar(chan, req, paras, sv, m - 1);
      LetterOnMember(At(chan, req, paras, sv, m - 1), req[m - 1], paras, sv, d, flag);
      SetByNext(req, s, flag in chan.members[d], m - 1);
    }
  }

  lemma {:induction false} OtherFlagsSoFar<C>(chan: Chan<C>, req: string, paras: seq<string>, sv: Server<C>, m: nat,
                                              d: C, flag: Mode)
    requires m <= |req| && flag !in {OPERATOR, VOICE} && Unmistakable(chan, sv.nickOf, d)
    ensures d in At(chan, req, paras, sv, m).chan.members
    ensures flag in At(chan, req, paras, sv, m).chan.members[d] <==> flag in chan.members[d]
  {
    hide At, ModeLetter;
    if m == 0 {
      NothingSoFar(chan, req, paras, sv, {}, false);
    } else {
      OtherFlagsSoFar(chan, req, paras, sv, m - 1, d, flag);
      AtNext(chan, req, paras, sv, m - 1);
      StaysSoFar(chan, req, paras, sv, m - 1);
      LetterOnMember(At(chan, req, paras, sv, m - 1), req[m - 1], paras, sv, d, flag);
    }
  }

  lemma NamingAre(req: string, paras: seq<string>, letter: char, nick: string)
    ensures forall i: nat :: i in Naming(req, paras, letter, nick) <==>
      i < |req| && req[i] == letter && Arg(req, paras, i) == nick
  {
  }

  // ----- a MODE of an operator -----

  // The channel is kept with its members, and no other channel changes.
  lemma ModeShape<C>(sv: Server<C>, net: Network<C>, c: C, k: ChannelId, paras: seq<string>)
    requires IsOperator(net, k, c) && |paras| >= 2
    ensures var net' := Apply(sv, net, Command.Mode(c, k, paras));
      && net'.Keys == net.Keys && (forall h :: h in net && h != k ==> net'[h] == net[h])
      && net'[k] == At(net[k], paras[1], paras, sv, |paras[1]|).chan
  {
    hide ModeLetters;
    assert paras[1][..|paras[1]|] == paras[1];
  }

  // Each of the simple flags goes by the last of its letters.
  lemma ModeSetsFlag<C>(sv: Server<C>, net: Network<C>, c: C, k: ChannelId, paras: seq<string>,
                        letter: char, flag: Mode)
    requires IsOperator(net, k, c) && |paras| >= 2
    requires || (letter == 'p' && flag == PRIVATE) || (letter == 's' && flag == SECRET)
             || (letter == 'i' && flag == INVITE) || (letter == 't' && flag == TOPIC)
             || (letter == 'n' && flag == MESSAGE) || (letter == 'm' && flag == MODERATE)
    ensures var (net', req) := (Apply(sv, net, Command.Mode(c, k, paras)), paras[1]);
      k in net' && (flag in net'[k].flag <==>
        (exists i :: 0 <= i < |req| && req[i] == letter && letter !in req[i + 1..] && Plus(req, i))
        || (letter !in req && flag in net[k].flag))
  {
    hide Apply, At, ModeLetter;
    var req := paras[1];
    ModeShape(sv, net, c, k, paras);
    FlagSoFar(net[k], req, paras, sv, |req|, letter, flag);
    BelowAll(req, Places(req, letter));
    forall i | 0 <= i < |req| ensures LastOf(Places(req, letter), i) <==> req[i] == letter && letter !in req[i + 1..] {
      LastPlace(req, letter, i);
    }
    assert letter !in req <==> Places(req, letter) == {};
  }

  lemma LastPlace(req: string, letter: char, i: nat)
    requires i < |req|
    ensures LastOf(Places(req, letter), i) <==> req[i] == letter && letter !in req[i + 1..]
  {
    InRest(req, letter, i);
    PlacesAre(req, letter);
  }

  lemma InRest(req: string, letter: char, i: nat)
    requires i < |req|
    ensures letter !in req[i + 1..] <==> forall j :: i < j < |req| ==> req[j] != letter
  {
    assert forall j :: i < j < |req| ==> req[j] == req[i + 1..][j - (i + 1)];
  }

  // So do voice and, under '-', the operator flag of a member that nobody else is named like: by
  // the last of the letters with its nick. No other flag of a member changes, and nobody comes
  // or goes.
  lemma ModeSetsMember<C>(sv: Server<C>, net: Network<C>, c: C, k: ChannelId, paras: seq<string>, d: C)
    requires IsOperator(net, k, c) && |paras| >= 2 && Unmistakable(net[k], sv.nickOf, d)
    ensures var (net', req, nick) := (Apply(sv, net, Command.Mode(c, k, paras)), paras[1], sv.nickOf(d));
      && k in net' && net'[k].members.Keys == net[k].members.Keys && net'[k].invited == net[k].invited
      && (OPERATOR in net'[k].members[d] <==>
            SetBy(req, Naming(req, paras, 'o', nick), OPERATOR in net[k].members[d]))
      && (VOICE in net'[k].members[d] <==>
            SetBy(req, Naming(req, paras, 'v', nick), VOICE in net[k].members[d]))
      && net'[k].members[d] - {OPERATOR, VOICE} == net[k].members[d] - {OPERATOR, VOICE}
      && net'[k].flag * {OPERATOR, VOICE, BAN} == net[k].flag * {OPERATOR, VOICE, BAN}
  {
    hide Apply, At, ModeLetter;
    var (req, nick) := (paras[1], sv.nickOf(d));
    ModeShape(sv, net, c, k, paras);
    StaysSoFar(net[k], req, paras, sv, |req|);
    RankSoFar(net[k], req, paras, sv, |req|, d, 'o', OPERATOR);
    RankSoFar(net[k], req, paras, sv, |req|, d, 'v', VOICE);
    forall flag | flag !in {OPERATOR, VOICE}
      ensures flag in At(net[k], req, paras, sv, |req|).chan.members[d] <==> flag in net[k].members[d]
    {
      OtherFlagsSoFar(net[k], req, paras, sv, |req|, d, flag);
    }
    BelowAll(req, Naming(req, paras, 'o', nick));
    BelowAll(req, Naming(req, paras, 'v', nick));
  }

  // Key and limit go by the last of their letters that works. A key is the parameter of the last
  // letter that found none set, a limit the number in the last parameter.
  lemma ModeSetsLocks<C>(sv: Server<C>, net: Network<C>, c: C, k: ChannelId, paras: seq<string>)
    requires IsOperator(net, k, c) && |paras| >= 2
    ensures var (net', req) := (Apply(sv, net, Command.Mode(c, k, paras)), paras[1]);
      && k in net'
      && (KEY in net'[k].flag <==> SetBy(req, Working(req, paras, 'k'), KEY in net[k].flag))
      && (ULIMIT in net'[k].flag <==> SetBy(req, Working(req, paras, 'l'), ULIMIT in net[k].flag))
    ensures var (net', req) := (Apply(sv, net, Command.Mode(c, k, paras)), paras[1]);
      && (forall i: nat :: i <= |req| && LastOf(Locking(req, paras, KEY in net[k].flag), i) ==>
            net'[k].key == Arg(req, paras, i))
      && (Locking(req, paras, KEY in net[k].flag) == {} ==> net'[k].key == net[k].key)
      && (forall i: nat :: i <= |req| && LastOf(Limiting(req, paras), i) ==>
            net'[k].users == sv.atoi(Arg(req, paras, i)))
      && (Limiting(req, paras) == {} ==> net'[k].users == net[k].users)
  {
    hide Apply, At, ModeLetter;
    var req := paras[1];
    ModeShape(sv, net, c, k, paras);
    LockSoFar(net[k], req, paras, sv, |req|, 'k', KEY);
    LockSoFar(net[k], req, paras, sv, |req|, 'l', ULIMIT);
    KeySoFar(net[k], req, paras, sv, |req|);
    LimitSoFar(net[k], req, paras, sv, |req|);
    BelowAll(req, Working(req, paras, 'k'));
    BelowAll(req, Working(req, paras, 'l'));
    BelowAll(req, Locking(req, paras, KEY in net[k].flag));
    BelowAll(req, Limiting(req, paras));
  }

  // A MODE of anybody else changes nothing.
  lemma ModeNeedsOperator<C>(sv: Server<C>, net: Network<C>, c: C, k: ChannelId, paras: seq<string>)
    requires !IsOperator(net, k, c) || |paras| < 2
    ensures Apply(sv, net, Command.Mode(c, k, paras)) == net
  {
    if k in net && |paras| >= 2 {
      ModeKeepsMembers(Moding(net[k], 2, true), paras[1], paras, false, sv.nickOf, sv.atoi);
    }
  }
}
