/**
  The client/channel graph as the server stores it: twice, in the member array of every
  channel (with the parallel flag array) and in the channel array of every client.
*/
module IrcGraph {
  import opened Sequences
  import opened IrcSpec
  import opened IrcRuns

  datatype Record<C> = Record(
    id: ChannelId, client: seq<C>, cflag: seq<Flags>,
    flag: Flags, users: int, key: string, invite: seq<C>)

  datatype Graph<!C, !H> = Graph(index: map<ChannelId, H>, chans: map<H, Record<C>>, joined: map<C, seq<H>>)

  // The channel hash holds exactly the channels, each under its own name, and each has a member.
  ghost predicate Indexed<C, H>(g: Graph<C, H>)
  {
    && (forall k :: k in g.index ==> g.index[k] in g.chans && g.chans[g.index[k]].id == k)
    && (forall h :: h in g.chans ==> g.chans[h].id in g.index && g.index[g.chans[h].id] == h)
  }

  ghost predicate Sound<C, H>(g: Graph<C, H>)
  {
    forall h :: h in g.chans ==>
      |g.chans[h].client| == |g.chans[h].cflag| && NoDuplicates(g.chans[h].client) && g.chans[h].client != []
  }

  ghost predicate Limited<C, H>(g: Graph<C, H>, limit: nat)
  {
    forall c :: c in g.joined ==> NoDuplicates(g.joined[c]) && |g.joined[c]| <= limit
  }

  ghost predicate Symmetric<C, H>(g: Graph<C, H>)
  {
    && (forall h, c :: h in g.chans && c in g.chans[h].client ==> c in g.joined && h in g.joined[c])
    && (forall c, h :: c in g.joined && h in g.joined[c] ==> h in g.chans && c in g.chans[h].client)
  }

  ghost predicate Consistent<C, H>(g: Graph<C, H>, limit: nat)
  {
    Indexed(g) && Sound(g) && Limited(g, limit) && Symmetric(g)
  }

  // ----- the network a graph stands for -----

  ghost function Members<C>(client: seq<C>, cflag: seq<Flags>): map<C, Flags>
    requires |client| == |cflag|
  {
    if client == [] then map[]
    else var n := |client| - 1; Members(client[..n], cflag[..n])[client[n] := cflag[n]]
  }

  lemma {:induction false} MembersAt<C>(client: seq<C>, cflag: seq<Flags>)
    requires |client| == |cflag| && NoDuplicates(client)
    ensures forall c :: c in client ==> c in Members(client, cflag)
    ensures forall c {:trigger c in Members(client, cflag)} :: c in Members(client, cflag) ==> c in client
    ensures forall i :: 0 <= i < |client| ==>
      client[i] in Members(client, cflag) && Members(client, cflag)[client[i]] == cflag[i]
    ensures |Members(client, cflag)| == |client|
  {
    hide NoDuplicates;
    if client != [] {
      var n := |client| - 1;
      WithoutLast(client);
      MembersAt(client[..n], cflag[..n]);
      assert client == client[..n] + [client[n]] && cflag == cflag[..n] + [cflag[n]];
      MembersLast(client[..n], cflag[..n], Members(client[..n], cflag[..n]), client[n], cflag[n]);
    }
  }

  lemma MembersCount<C>(client: seq<C>, cflag: seq<Flags>)
    requires |client| == |cflag| && NoDuplicates(client)
    ensures |Members(client, cflag)| == |client|
  {
    MembersAt(client, cflag);
  }

  lemma WithoutLast<C>(client: seq<C>)
    requires client != [] && NoDuplicates(client)
    ensures var n := |client| - 1; NoDuplicates(client[..n]) && client[n] !in client[..n]
  {
  }

  // One member more, behind the others.
  lemma MembersLast<C>(client: seq<C>, cflag: seq<Flags>, m: map<C, Flags>, c: C, f: Flags)
    requires |client| == |cflag| && c !in client
    requires forall d :: d in m <==> d in client
    requires forall i :: 0 <= i < |client| ==> client[i] in m && m[client[i]] == cflag[i]
    ensures var (clients, cflags, all) := (client + [c], cflag + [f], m[c := f]);
      && (forall d :: d in all <==> d in clients)
      && (forall i :: 0 <= i < |clients| ==> clients[i] in all && all[clients[i]] == cflags[i])
      && |all| == |m| + 1
  {
    assert m[c := f].Keys == m.Keys + {c};
  }

  lemma MembersAppend<C>(client: seq<C>, cflag: seq<Flags>, c: C, f: Flags)
    requires |client| == |cflag|
    ensures Members(client + [c], cflag + [f]) == Members(client, cflag)[c := f]
  {
    assert (client + [c])[..|client|] == client && (cflag + [f])[..|client|] == cflag;
  }

  lemma MembersIs<C>(client: seq<C>, cflag: seq<Flags>, m: map<C, Flags>)
    requires |client| == |cflag| && NoDuplicates(client)
    requires forall c :: c in m <==> c in client
    requires forall i :: 0 <= i < |client| ==> m[client[i]] == cflag[i]
    ensures Members(client, cflag) == m
  {
    var m' := Members(client, cflag);
    MembersAt(client, cflag);
    SameFlags(client, cflag, m, m');
  }

  lemma SameFlags<C>(client: seq<C>, cflag: seq<Flags>, a: map<C, Flags>, b: map<C, Flags>)
    requires |client| == |cflag|
    requires forall c :: c in a <==> c in client
    requires forall c :: c in b <==> c in client
    requires forall i :: 0 <= i < |client| ==> a[client[i]] == cflag[i]
    requires forall i :: 0 <= i < |client| ==> b[client[i]] == cflag[i]
    ensures a == b
  {
    assert forall c :: c in a ==> c in client && c in b;
    assert forall c :: c in b ==> c in client && c in a;
    forall c | c in client ensures a[c] == b[c] {
      var i :| 0 <= i < |client| && client[i] == c;
    }
  }

  lemma OnlyMember<C>(client: seq<C>, cflag: seq<Flags>)
    requires |client| == |cflag| == 1
    ensures Members(client, cflag).Keys == {client[0]}
  {
    assert client == [client[0]];
    MembersIs(client, cflag, map[client[0] := cflag[0]]);
  }

  lemma MembersUpdate<C>(client: seq<C>, cflag: seq<Flags>, n: nat, f: Flags)
    requires |client| == |cflag| && NoDuplicates(client) && n < |client|
    ensures Members(client, cflag[n := f]) == Members(client, cflag)[client[n] := f]
  {
    hide Members;
    MembersAt(client, cflag);
    MembersIs(client, cflag[n := f], Members(client, cflag)[client[n] := f]);
  }

  // Both arrays move their last element into the same gap, so nobody else's flags change.
  lemma MembersSwapDelete<C>(client: seq<C>, cflag: seq<Flags>, n: nat)
    requires |client| == |cflag| && NoDuplicates(client) && n < |client|
    ensures Members(SwapDelete(client, n), SwapDelete(cflag, n)) == Members(client, cflag) - {client[n]}
  {
    hide Members;
    SwapDeleteElements(client, n);
    MembersAt(client, cflag);
    MembersIs(SwapDelete(client, n), SwapDelete(cflag, n), Members(client, cflag) - {client[n]});
  }

  ghost function ChanOf<C>(r: Record<C>): Chan<C>
    requires |r.client| == |r.cflag|
  {
    Chan(Members(r.client, r.cflag), r.flag, r.users, r.key, multiset(r.invite))
  }

  ghost function Net<C, H>(g: Graph<C, H>): Network<C>
    requires Indexed(g) && Sound(g)
  {
    map k | k in g.index :: ChanOf(g.chans[g.index[k]])
  }

  // One channel was changed or added.
  lemma NetChange<C, H>(g: Graph<C, H>, g': Graph<C, H>, k: ChannelId, h: H)
    requires Indexed(g) && Sound(g) && Indexed(g') && Sound(g')
    requires h in g'.chans && g'.index == g.index[k := h]
    requires forall x :: x in g.chans && x != h ==> x in g'.chans && g'.chans[x] == g.chans[x]
    requires k in g.index || h !in g.chans
    ensures Net(g') == Net(g)[k := ChanOf(g'.chans[h])]
  {
    hide Members, ChanOf, Sound;
    assert forall q :: q in g.index && q != k ==> g'.index[q] == g.index[q];
    forall q | q in g.index && q != k ensures g.index[q] != h {
      assert g'.index[k] == h;
      assert g'.chans[g'.index[q]].id == q && g'.chans[h].id == k;
    }
  }

  lemma NetRemoval<C, H>(g: Graph<C, H>, g': Graph<C, H>, k: ChannelId)
    requires Indexed(g) && Sound(g) && Indexed(g') && Sound(g')
    requires g'.index == g.index - {k}
    requires forall x :: x in g'.chans ==> x in g.chans && g'.chans[x] == g.chans[x]
    ensures Net(g') == Net(g) - {k}
  {
    hide Members, ChanOf, Sound;
  }

  // The counter `client->channels` is the number of channels the client is a member of.
  lemma JoinedCount<C, H>(g: Graph<C, H>, limit: nat, c: C)
    requires Consistent(g, limit) && c in g.joined
    ensures |Joined(Net(g), c)| == |g.joined[c]|
  {
    hide Members, ChanOf, Net, Sound;
    NetDomain(g);
    var hs := set h | h in g.joined[c];
    DistinctElements(g.joined[c]);
    var id: H -> ChannelId := h => if h in g.chans then g.chans[h].id else (0, "");
    InjectiveImage(hs, id);
    var ids := set h | h in hs :: id(h);
    forall k | k in Joined(Net(g), c) ensures k in ids {
      NetMembers(g, k);
      assert g.index[k] in hs;
    }
    forall h | h in hs ensures id(h) in Joined(Net(g), c) {
      NetMembers(g, id(h));
    }
    assert Joined(Net(g), c) == ids;
  }

  lemma NetDomain<C, H>(g: Graph<C, H>)
    requires Indexed(g) && Sound(g)
    ensures Net(g).Keys == g.index.Keys
  {
  }

  lemma NetMembers<C, H>(g: Graph<C, H>, k: ChannelId)
    requires Indexed(g) && Sound(g) && k in g.index
    ensures forall c :: c in Net(g)[k].members <==> c in g.chans[g.index[k]].client
  {
    var r := g.chans[g.index[k]];
    MembersAt(r.client, r.cflag);
  }

  // ----- graph steps -----

  function AddMember<C, H>(g: Graph<C, H>, c: C, h: H): Graph<C, H>
    requires h in g.chans && c in g.joined
  {
    var r := g.chans[h];
    g.(chans := g.chans[h := r.(client := r.client + [c], cflag := r.cflag + [{}])],
       joined := g.joined[c := g.joined[c] + [h]])
  }

  function FoundChannel<C, H>(g: Graph<C, H>, c: C, h: H, k: ChannelId): Graph<C, H>
    requires c in g.joined
  {
    Graph(g.index[k := h],
          g.chans[h := Record(k, [c], [{OPERATOR}], {}, 0, "", [])],
          g.joined[c := g.joined[c] + [h]])
  }

  // irc_leave_channel for the member at position `n`, whose own list has the channel at `i`.
  function DropMember<C, H>(g: Graph<C, H>, h: H, n: nat, i: nat): Graph<C, H>
    requires h in g.chans && n < |g.chans[h].client| == |g.chans[h].cflag|
    requires g.chans[h].client[n] in g.joined && i < |g.joined[g.chans[h].client[n]]|
  {
    var r := g.chans[h];
    var c := r.client[n];
    var joined := g.joined[c := SwapDelete(g.joined[c], i)];
    if |r.client| == 1 then Graph(g.index - {r.id}, g.chans - {h}, joined)
    else g.(chans := g.chans[h := r.(client := SwapDelete(r.client, n), cflag := SwapDelete(r.cflag, n))],
            joined := joined)
  }

  function SetRecord<C, H>(g: Graph<C, H>, h: H, r: Record<C>): Graph<C, H>
  {
    g.(chans := g.chans[h := r])
  }

  lemma UnderItsName<C, H>(g: Graph<C, H>, limit: nat, k: ChannelId)
    requires Consistent(g, limit) && k in g.index
    ensures g.index[k] in g.chans && g.chans[g.index[k]].id == k
  {
  }

  // Nothing happens to a member, nor to a client with too many channels.
  lemma RefusedJoin<C, H>(g: Graph<C, H>, limit: nat, c: C, k: ChannelId)
    requires Consistent(g, limit) && c in g.joined
    requires |g.joined[c]| >= limit || (k in g.index && c in g.chans[g.index[k]].client)
    ensures JoinSpec(Net(g), limit, c, k) == Net(g)
  {
    JoinedCount(g, limit, c);
    if k in g.index { NetMembers(g, k); }
  }

  lemma AddMemberConsistent<C, H>(g: Graph<C, H>, limit: nat, c: C, h: H)
    requires Consistent(g, limit) && h in g.chans && c in g.joined
    requires c !in g.chans[h].client && |g.joined[c]| < limit
    ensures Consistent(AddMember(g, c, h), limit)
    ensures Net(AddMember(g, c, h)) == JoinSpec(Net(g), limit, c, g.chans[h].id)
  {
    hide Net, JoinSpec, AddMember, Indexed, Sound, Limited, Symmetric;
    AddMemberSound(g, limit, c, h);
    AddMemberSymmetric(g, c, h);
    AddMemberNet(g, limit, c, h);
  }

  lemma AddMemberSound<C, H>(g: Graph<C, H>, limit: nat, c: C, h: H)
    requires Consistent(g, limit) && h in g.chans && c in g.joined
    requires c !in g.chans[h].client && |g.joined[c]| < limit
    ensures Indexed(AddMember(g, c, h)) && Sound(AddMember(g, c, h)) && Limited(AddMember(g, c, h), limit)
  {
    hide NoDuplicates, Indexed;
    AddMemberIndexed(g, c, h);
    assert h !in g.joined[c];
    AppendDistinct(g.chans[h].client, c);
    AppendDistinct(g.joined[c], h);
  }

  lemma AddMemberIndexed<C, H>(g: Graph<C, H>, c: C, h: H)
    requires Indexed(g) && h in g.chans && c in g.joined
    ensures Indexed(AddMember(g, c, h))
  {
  }

  lemma AddMemberSymmetric<C, H>(g: Graph<C, H>, c: C, h: H)
    requires Symmetric(g) && h in g.chans && c in g.joined
    ensures Symmetric(AddMember(g, c, h))
  {
    var g' := AddMember(g, c, h);
    forall d, x | d in g'.joined && x in g'.joined[d] ensures x in g'.chans && d in g'.chans[x].client {
      if x !in g.joined[d] {
        assert g'.chans[h].client[|g.chans[h].client|] == c;
      }
    }
    forall x, d | x in g'.chans && d in g'.chans[x].client ensures d in g'.joined && x in g'.joined[d] {
      if d !in g.chans[x].client {
        assert g'.joined[c][|g.joined[c]|] == h;
      }
    }
  }

  lemma AddMemberNet<C, H>(g: Graph<C, H>, limit: nat, c: C, h: H)
    requires Consistent(g, limit) && h in g.chans && c in g.joined
    requires c !in g.chans[h].client && |g.joined[c]| < limit
    requires Indexed(AddMember(g, c, h)) && Sound(AddMember(g, c, h))
    ensures Net(AddMember(g, c, h)) == JoinSpec(Net(g), limit, c, g.chans[h].id)
  {
    hide Members, Net, Symmetric, Limited;
    var r := g.chans[h];
    MembersAppend(r.client, r.cflag, c, {});
    JoinedCount(g, limit, c);
    NetAt(g, r.id);
    NetMembers(g, r.id);
    NetChange(g, AddMember(g, c, h), r.id, h);
    assert ChanOf(AddMember(g, c, h).chans[h]) == ChanOf(r).(members := ChanOf(r).members[c := {}]);
  }

  lemma NetAt<C, H>(g: Graph<C, H>, k: ChannelId)
    requires Indexed(g) && Sound(g) && k in g.index
    ensures k in Net(g) && Net(g)[k] == ChanOf(g.chans[g.index[k]])
  {
  }

  lemma FoundChannelConsistent<C, H>(g: Graph<C, H>, limit: nat, c: C, h: H, k: ChannelId)
    requires Consistent(g, limit) && h !in g.chans && k !in g.index && c in g.joined
    requires |g.joined[c]| < limit
    ensures Consistent(FoundChannel(g, c, h, k), limit)
    ensures Net(FoundChannel(g, c, h, k)) == JoinSpec(Net(g), limit, c, k)
  {
    hide Members, Net;
    FoundChannelSound(g, limit, c, h, k);
    FoundChannelSymmetric(g, c, h, k);
    JoinedCount(g, limit, c);
    FoundChannelNet(g, c, h, k);
    NetDomain(g);
  }

  lemma FoundChannelSound<C, H>(g: Graph<C, H>, limit: nat, c: C, h: H, k: ChannelId)
    requires Consistent(g, limit) && h !in g.chans && k !in g.index && c in g.joined
    requires |g.joined[c]| < limit
    ensures Indexed(FoundChannel(g, c, h, k)) && Sound(FoundChannel(g, c, h, k))
    ensures Limited(FoundChannel(g, c, h, k), limit)
  {
    assert h !in g.joined[c];
  }

  lemma FoundChannelSymmetric<C, H>(g: Graph<C, H>, c: C, h: H, k: ChannelId)
    requires Symmetric(g) && h !in g.chans && c in g.joined
    ensures Symmetric(FoundChannel(g, c, h, k))
  {
    var g' := FoundChannel(g, c, h, k);
    forall d, x | d in g'.joined && x in g'.joined[d] ensures x in g'.chans && d in g'.chans[x].client {
      if x !in g.joined[d] {
        assert g'.chans[h].client[0] == c;
      }
    }
    forall x, d | x in g'.chans && d in g'.chans[x].client ensures d in g'.joined && x in g'.joined[d] {
      if x == h {
        assert g'.joined[c][|g.joined[c]|] == h;
      }
    }
  }

  lemma FoundChannelNet<C, H>(g: Graph<C, H>, c: C, h: H, k: ChannelId)
    requires Indexed(g) && Sound(g) && h !in g.chans && k !in g.index && c in g.joined
    requires Indexed(FoundChannel(g, c, h, k)) && Sound(FoundChannel(g, c, h, k))
    ensures Net(FoundChannel(g, c, h, k)) == Net(g)[k := Founded(c)]
  {
    hide Indexed, Sound, Members;
    var g' := FoundChannel(g, c, h, k);
    MembersIs([c], [{OPERATOR}], map[c := {OPERATOR}]);
    assert ChanOf(g'.chans[h]) == Founded(c);
    NetChange(g, g', k, h);
  }

  // `n` is the position of a member of `h`, `i` the position of `h` in that member's own list.
  ghost predicate Placed<C, H>(g: Graph<C, H>, h: H, n: nat, i: nat)
  {
    && h in g.chans && n < |g.chans[h].client| == |g.chans[h].cflag|
    && g.chans[h].client[n] in g.joined
    && i < |g.joined[g.chans[h].client[n]]| && g.joined[g.chans[h].client[n]][i] == h
  }

  lemma DropMemberConsistent<C, H>(g: Graph<C, H>, limit: nat, h: H, n: nat, i: nat)
    requires Consistent(g, limit) && Placed(g, h, n, i)
    ensures Consistent(DropMember(g, h, n, i), limit)
    ensures Net(DropMember(g, h, n, i)) == LeaveSpec(Net(g), g.chans[h].client[n], g.chans[h].id)
  {
    hide Net, LeaveSpec, DropMember, Indexed, Sound, Limited, Symmetric;
    DropMemberSound(g, limit, h, n, i);
    DropMemberSymmetric(g, limit, h, n, i);
    DropMemberNet(g, h, n, i);
  }

  lemma DropMemberSound<C, H>(g: Graph<C, H>, limit: nat, h: H, n: nat, i: nat)
    requires Consistent(g, limit) && Placed(g, h, n, i)
    ensures Indexed(DropMember(g, h, n, i)) && Sound(DropMember(g, h, n, i)) && Limited(DropMember(g, h, n, i), limit)
  {
    hide Symmetric;
    SwapDeleteElements(g.chans[h].client, n);
    SwapDeleteElements(g.joined[g.chans[h].client[n]], i);
  }

  lemma DropMemberSymmetric<C, H>(g: Graph<C, H>, limit: nat, h: H, n: nat, i: nat)
    requires Consistent(g, limit) && Placed(g, h, n, i)
    ensures Symmetric(DropMember(g, h, n, i))
  {
    hide Indexed;
    var g' := DropMember(g, h, n, i);
    var r := g.chans[h];
    var c := r.client[n];
    SwapDeleteElements(r.client, n);
    SwapDeleteElements(g.joined[c], i);
    forall x, d | x in g'.chans && d in g'.chans[x].client ensures d in g'.joined && x in g'.joined[d] {
      assert d in g.chans[x].client;
    }
    forall d, x | d in g'.joined && x in g'.joined[d] ensures x in g'.chans && d in g'.chans[x].client {
      assert x in g.joined[d];
      if x == h {
        assert d != c && d in r.client;
        assert d in SwapDelete(r.client, n);
      }
    }
  }

  lemma DropMemberNet<C, H>(g: Graph<C, H>, h: H, n: nat, i: nat)
    requires Indexed(g) && Sound(g) && Placed(g, h, n, i)
    requires Indexed(DropMember(g, h, n, i)) && Sound(DropMember(g, h, n, i))
    ensures Net(DropMember(g, h, n, i)) == LeaveSpec(Net(g), g.chans[h].client[n], g.chans[h].id)
  {
    hide Members;
    var g' := DropMember(g, h, n, i);
    var r := g.chans[h];
    var c := r.client[n];
    var ms := Members(r.client, r.cflag);
    MembersAt(r.client, r.cflag);
    MembersSwapDelete(r.client, r.cflag, n);
    if |r.client| == 1 {
      OnlyMember(r.client, r.cflag);
      NetRemoval(g, g', r.id);
    } else {
      assert ms.Keys != {c} by { assert |ms.Keys| == |r.client|; }
      assert ChanOf(g'.chans[h]) == ChanOf(r).(members := ms - {c});
      assert g'.index == g.index[r.id := h];
      NetChange(g, g', r.id, h);
    }
  }

  // Changing a channel without touching who is in it.
  lemma SetRecordConsistent<C, H>(g: Graph<C, H>, limit: nat, h: H, r: Record<C>)
    requires Consistent(g, limit) && h in g.chans
    requires r.id == g.chans[h].id && r.client == g.chans[h].client && |r.cflag| == |r.client|
    ensures Consistent(SetRecord(g, h, r), limit)
    ensures Net(SetRecord(g, h, r)) == Net(g)[r.id := ChanOf(r)]
  {
    hide Members, ChanOf, Net;
    SetRecordSound(g, limit, h, r);
    var g' := SetRecord(g, h, r);
    assert g'.index == g.index[r.id := h];
    NetChange(g, g', r.id, h);
  }

  lemma SetRecordSound<C, H>(g: Graph<C, H>, limit: nat, h: H, r: Record<C>)
    requires Consistent(g, limit) && h in g.chans
    requires r.id == g.chans[h].id && r.client == g.chans[h].client && |r.cflag| == |r.client|
    ensures Consistent(SetRecord(g, h, r), limit)
  {
    var g' := SetRecord(g, h, r);
    assert Indexed(g') && Sound(g') && Limited(g', limit);
    SameMembersSymmetric(g, g');
  }

  lemma SameMembersSymmetric<C, H>(g: Graph<C, H>, g': Graph<C, H>)
    requires Symmetric(g) && g'.joined == g.joined && g'.chans.Keys == g.chans.Keys
    requires forall x :: x in g.chans ==> g'.chans[x].client == g.chans[x].client
    ensures Symmetric(g')
  {
  }

  // What a channel knows about a client, and the client about the channel.
  lemma MembersAreListed<C, H>(g: Graph<C, H>, limit: nat, c: C, h: H)
    requires Consistent(g, limit) && c in g.joined && h in g.chans
    ensures |g.chans[h].client| == |g.chans[h].cflag|
    ensures c in g.chans[h].client <==> h in g.joined[c]
    ensures g.chans[h].id in g.index && g.index[g.chans[h].id] == h
    ensures forall k :: k in g.index && g.index[k] == h ==> k == g.chans[h].id
  {
  }

  lemma NotAMember<C, H>(g: Graph<C, H>, limit: nat, c: C, h: H)
    requires Consistent(g, limit) && h in g.chans && c !in g.chans[h].client
    ensures LeaveSpec(Net(g), c, g.chans[h].id) == Net(g)
  {
    NetMembers(g, g.chans[h].id);
  }

  // The flags of the member at position `n`.
  lemma FlagsAt<C, H>(g: Graph<C, H>, limit: nat, k: ChannelId, n: nat)
    requires Consistent(g, limit) && k in g.index
    requires n < |g.chans[g.index[k]].client|
    ensures var r := g.chans[g.index[k]];
            && |r.client| == |r.cflag|
            && k in Net(g) && r.client[n] in Net(g)[k].members
            && Net(g)[k].members[r.client[n]] == r.cflag[n]
            && (IsOperator(Net(g), k, r.client[n]) <==> OPERATOR in r.cflag[n])
  {
    var r := g.chans[g.index[k]];
    MembersAt(r.client, r.cflag);
  }

  lemma MemberOf<C, H>(g: Graph<C, H>, limit: nat, k: ChannelId, c: C)
    requires Consistent(g, limit)
    ensures k in Net(g) <==> k in g.index
    ensures k in g.index ==> g.index[k] in g.chans && g.chans[g.index[k]].id == k
    ensures k in g.index ==> (c in Net(g)[k].members <==> c in g.chans[g.index[k]].client)
    ensures k in g.index ==> Net(g)[k] == ChanOf(g.chans[g.index[k]])
  {
    if k in g.index { NetMembers(g, k); }
  }

  lemma MembersNumber<C, H>(g: Graph<C, H>, limit: nat, k: ChannelId)
    requires Consistent(g, limit) && k in g.index
    ensures k in Net(g) && g.index[k] in g.chans && |Net(g)[k].members| == |g.chans[g.index[k]].client|
  {
    var r := g.chans[g.index[k]];
    MembersCount(r.client, r.cflag);
  }

  lemma ListedChannel<C, H>(g: Graph<C, H>, limit: nat, c: C, i: nat)
    requires Consistent(g, limit) && c in g.joined && i < |g.joined[c]|
    ensures g.joined[c][i] in g.chans && c in g.chans[g.joined[c][i]].client
    ensures exists k :: k in g.index && g.index[k] == g.joined[c][i]
  {
    assert g.joined[c][i] in g.joined[c];
    assert g.chans[g.joined[c][i]].id in g.index;
  }

  lemma RemovedClient<C, H>(g: Graph<C, H>, limit: nat, c: C)
    requires Consistent(g, limit) && c in g.joined && g.joined[c] == []
    ensures Consistent(g.(joined := g.joined - {c}), limit)
    ensures Net(g.(joined := g.joined - {c})) == Net(g)
  {
  }

  lemma SoundAt<C, H>(g: Graph<C, H>, limit: nat, k: ChannelId)
    requires Consistent(g, limit) && k in g.index
    ensures g.index[k] in g.chans
    ensures |g.chans[g.index[k]].client| == |g.chans[g.index[k]].cflag|
    ensures NoDuplicates(g.chans[g.index[k]].client)
  {
  }

  lemma MembersKnown<C, H>(g: Graph<C, H>, limit: nat, k: ChannelId)
    requires Consistent(g, limit) && k in g.index
    ensures forall c :: c in g.chans[g.index[k]].client ==> c in g.joined
  {
  }

  lemma AddedClient<C, H>(g: Graph<C, H>, limit: nat, c: C)
    requires Consistent(g, limit) && c !in g.joined
    ensures Consistent(g.(joined := g.joined[c := []]), limit)
    ensures Net(g.(joined := g.joined[c := []])) == Net(g)
  {
  }

  lemma ClientFlagAt<C>(r: Record<C>, nickOf: C -> string, i: nat, m: Mode, on: bool)
    requires |r.client| == |r.cflag| && NoDuplicates(r.client) && i < |r.client|
    requires forall c, d :: c in r.client && d in r.client && nickOf(c) == nickOf(d) ==> c == d
    ensures ClientFlag(ChanOf(r), nickOf, nickOf(r.client[i]), m, on)
         == ChanOf(r.(cflag := r.cflag[i := Turn(r.cflag[i], m, on)]))
  {
    MembersAt(r.client, r.cflag);
    var ms := Members(r.client, r.cflag);
    MembersUpdate(r.client, r.cflag, i, Turn(r.cflag[i], m, on));
    ClientFlagIs(ChanOf(r), nickOf, r.client[i], m, on);
  }

  lemma ClientFlagNowhere<C>(r: Record<C>, nickOf: C -> string, nick: string, m: Mode, on: bool)
    requires |r.client| == |r.cflag| && NoDuplicates(r.client)
    requires forall i :: 0 <= i < |r.client| ==> nickOf(r.client[i]) != nick
    ensures ClientFlag(ChanOf(r), nickOf, nick, m, on) == ChanOf(r)
  {
    MembersAt(r.client, r.cflag);
    var ms := Members(r.client, r.cflag);
    assert forall d :: d in ms ==> d in r.client;
    NoSuchNick(ChanOf(r), nickOf, nick, m, on);
  }
}
