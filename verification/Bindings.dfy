/**
  The listeners of src/libserveez/binding.c with their binding arrays, changed in place, and
  `svz_server_bind` proved against BindingSpec.
*/
module Bindings {
  import opened Arrays
  import opened BindingSpec

  class Listener<S(0,==), P(0,!new)> {
    const port: P
    var ears: Array?<Binding<S, P>>

    constructor (port: P)
      ensures this.port == port && ears == null
    {
      this.port := port;
      ears := null;
    }

    ghost predicate Sound()
      reads this, ears
    {
      ears != null ==> ears.Valid()
    }

    ghost function Bindings(): seq<Binding<S, P>>
      reads this, ears, if ears == null then {} else {ears.data}
      requires Sound()
    {
      if ears == null then [] else ears.Contents()
    }

    // find_binding and bindings_contain
    static method FindBinding(ports: Ports<P>, bindings: Array<Binding<S, P>>, b: Binding<S, P>) returns (found: bool)
      requires bindings.Valid()
      ensures found <==> ports.Contains(bindings.Contents(), b)
    {
      var i := 0;
      while i < bindings.size
        invariant i <= bindings.size
        invariant forall k :: 0 <= k < i ==> !ports.Same(bindings.Contents()[k], b)
      {
        var search := bindings.Get(i);
        if search.value.server == b.server {
          if ports.Eq(search.value.port, b.port) {
            return true;
          }
        }
        i := i + 1;
      }
      return false;
    }

    // add_server
    method AddServer(ports: Ports<P>, server: S, port: P) returns (r: int)
      requires Sound()
      modifies this, ears, if ears == null then {} else {ears.data}
      ensures Sound() && ears != null && Bindings() == ports.AddSpec(old(Bindings()), Binding(server, port))
      ensures r == if ports.Contains(old(Bindings()), Binding(server, port)) then -1 else 0
      ensures ears == old(ears) || fresh(ears)
      ensures fresh(ears.data) || (old(ears) == ears && old(ears.data) == ears.data)
    {
      var binding := Binding(server, port);
      if ears == null {
        ears := new Array(1);
        ears.Add(binding);
        return 0;
      }
      var found := FindBinding(ports, ears, binding);
      if !found {
        ears.Add(binding);
        return 0;
      }
      return -1;
    }

    // svz_sock_bindings_zonk_server; the index steps back after a deletion, from 0 too.
    method ZonkServer(server: S) returns (left: nat)
      requires Sound()
      modifies ears, if ears == null then {} else {ears.data}
      ensures Sound() && Bindings() == Without(old(Bindings()), server) && left == |Bindings()|
      ensures ears != null ==> ears.data == old(ears.data)
    {
      if ears == null {
        return 0;
      }
      hide Zonked;
      ghost var before := ears.Contents();
      ghost var seen: nat := 0;
      var i := 0;
      ZonkStart(before, server);
      while i < ears.size
        invariant 0 <= i <= ears.size && ears.Valid() && ears.data == old(ears.data)
        invariant Zonked(ears.Contents(), i, before, seen, server)
        decreases ears.size - i
      {
        ZonkStep(ears.Contents(), i, before, seen, server);
        var binding := ears.Get(i);
        if binding.value.server == server {
          var _ := ears.Del(i);
          i := i - 1;
        }
        seen := seen + 1;
        i := i + 1;
      }
      ZonkEnd(ears.Contents(), i, before, seen, server);
      return ears.size;
    }

    // adjoin: the bindings of this listener go into the array, which is made if there is none.
    method Adjoin(ports: Ports<P>, bindings: Array?<Binding<S, P>>) returns (r: Array<Binding<S, P>>)
      requires Sound() && (bindings != null ==> bindings.Valid() && bindings != ears)
      requires bindings != null && ears != null ==> bindings.data != ears.data
      modifies this, bindings, if bindings == null then {} else {bindings.data}
      ensures r.Valid()
      ensures r.Contents()
           == ports.JoinSpec(old(if bindings == null then [] else bindings.Contents()), old(Bindings()))
      ensures ears == null
      ensures r == bindings || fresh(r)
      ensures fresh(r.data) || (r == bindings && r.data == old(bindings.data))
    {
      if bindings == null {
        r := new Array(1);
      } else {
        r := bindings;
      }
      if ears != null {
        Join(ports, r, ears);
      }
      ears := null;
    }

    static method Join(ports: Ports<P>, r: Array<Binding<S, P>>, other: Array<Binding<S, P>>)
      requires r.Valid() && other.Valid() && r != other && r.data != other.data
      modifies r, r.data
      ensures r.Valid() && r.Contents() == ports.JoinSpec(old(r.Contents()), other.Contents())
      ensures fresh(r.data) || r.data == old(r.data)
    {
      var i := 0;
      assert other.Contents()[..0] == [];
      while i < other.size
        invariant i <= other.size && r.Valid() && (fresh(r.data) || r.data == old(r.data))
        invariant r.Contents() == ports.JoinSpec(old(r.Contents()), other.Contents()[..i])
      {
        var binding := other.Get(i);
        var found := FindBinding(ports, r, binding.value);
        assert other.Contents()[..i + 1][..i] == other.Contents()[..i];
        if !found {
          r.Add(binding.value);
        }
        i := i + 1;
      }
      assert other.Contents()[..i] == other.Contents();
    }
  }

  class Binder<S(0,==), P(0,!new)> {
    const ports: Ports<P>
    var listeners: seq<Listener<S, P>>

    ghost function Arrays(): set<Array<Binding<S, P>>>
      reads this, listeners
    {
      set l | l in listeners && l.ears != null :: l.ears
    }

    ghost function Places(): set<array<Binding<S, P>>>
      reads this, listeners, Arrays()
    {
      set a | a in Arrays() :: a.data
    }

    // Different listeners, each with an array of its own.
    ghost predicate Valid()
      reads this, listeners, Arrays()
    {
      Separate(listeners)
    }

    ghost function View(): (v: seq<Ear<S, P>>)
      reads this, listeners, Arrays(), Places()
      requires Valid()
    {
      Heard(listeners)
    }

    ghost function Repr(): set<object>
      reads this, listeners, Arrays()
    {
      (set l: object | l in listeners) + (set a: object | a in Arrays()) + (set d: object | d in Places())
    }

    // Whatever the listeners consist of now was theirs before or is new.
    twostate predicate Owned()
      reads this, listeners, Arrays()
    {
      && (forall l :: l in listeners ==> l in old(listeners) || fresh(l))
      && (forall l :: l in listeners && l.ears != null ==> l.ears in old(Arrays()) || fresh(l.ears))
      && (forall l :: l in listeners && l.ears != null ==> l.ears.data in old(Places()) || fresh(l.ears.data))
    }

    constructor (ports: Ports<P>)
      ensures this.ports == ports && Valid() && View() == []
    {
      this.ports := ports;
      listeners := [];
    }

    // socket_with_portcfg
    method SocketWithPortcfg(copy: P) returns (i: nat)
      requires Valid()
      ensures i == ports.FindEar(View(), copy)
    {
      i := 0;
      while i < |listeners|
        invariant i <= |listeners|
        invariant forall k :: 0 <= k < i ==> !ports.Fits(listeners[k].port, copy)
      {
        if ports.Fits(listeners[i].port, copy) {
          break;
        }
        i := i + 1;
      }
      FindEarIs(ports, View(), copy, i);
    }

    // svz_sock_enqueue: a new listener goes to the end of the list.
    method Enqueue(sock: Listener<S, P>)
      requires Valid() && sock.Sound() && forall l :: l in listeners ==> Apart(l, sock)
      modifies this
      ensures Valid() && View() == old(View()) + [Ear(sock.port, sock.Bindings())]
      ensures listeners == old(listeners) + [sock]
    {
      listeners := listeners + [sock];
    }

    // make_listener_socket and the first binding of the new listener.
    method Open(server: S, copy: P)
      requires Valid()
      modifies this
      ensures Valid() && View() == old(View()) + [Ear(copy, [Binding(server, copy)])] && Owned()
    {
      hide Heard, Separate;
      var _ := Reopen(null, server, copy);
      assert ports.AddSpec([], Binding(server, copy)) == [] + [Binding(server, copy)] == [Binding(server, copy)];
    }

    // add_server for a listener that is there.
    method AddTo(i: nat, server: S, copy: P)
      requires Valid() && i < |listeners|
      modifies listeners[i], listeners[i].ears, if listeners[i].ears == null then {} else {listeners[i].ears.data}
      ensures Valid() && listeners == old(listeners)
      ensures View()
           == old(View())[i := Ear(listeners[i].port, ports.AddSpec(old(View())[i].bindings, Binding(server, copy)))]
      ensures listeners[i].ears != null && (listeners[i].ears == old(listeners[i].ears) || fresh(listeners[i].ears))
      ensures fresh(listeners[i].ears.data) ||
        (old(listeners[i].ears) != null && listeners[i].ears.data == old(listeners[i].ears.data))
    {
      hide Ports.AddSpec, Ports.Contains;
      var _ := listeners[i].AddServer(ports, server, copy);
    }

    method AddOwned(i: nat, server: S, copy: P)
      requires Valid() && i < |listeners|
      modifies listeners[i], Arrays(), Places()
      ensures Valid() && Owned()
      ensures var was := old(View())[i];
              View() == old(View())[i := Ear(was.port, ports.AddSpec(was.bindings, Binding(server, copy)))]
    {
      hide Ports.AddSpec, Heard;
      assert View()[i].port == listeners[i].port by { PortAt(i); }
      AddTo(i, server, copy);
    }

    lemma PortAt(i: nat)
      requires Valid() && i < |listeners|
      ensures i < |View()| && View()[i].port == listeners[i].port
    {
    }

    // The listeners that fit are shut down, their bindings joined in one array.
    method Collect(port: P) returns (joined: Array?<Binding<S, P>>)
      requires Valid()
      modifies this, listeners
      ensures Valid() && View() == ports.Others(old(View()), port)
      ensures joined != null ==> fresh(joined) && fresh(joined.data) && joined.Valid()
      ensures (if joined == null then [] else joined.Contents()) == ports.Gather(old(View()), port)
      ensures forall l :: l in listeners ==> l in old(listeners) && l.ears == old(l.ears)
    {
      hide Ports.Gather, Ports.Others, Ports.JoinSpec, Ports.Fits;
      var others;
      ghost var kept;
      ghost var v := View();
      joined, others, kept := Adjoined(port);
      forall m | 0 <= m < |kept|
        ensures others[m].Sound() && Ear(others[m].port, others[m].Bindings()) == ports.Others(v, port)[m]
      {
        assert v[kept[m]] == Ear(others[m].port, old(listeners[kept[m]].Bindings()));
      }
      Retain(others, kept, ports.Others(v, port));
    }

    // The others are what is left of the list.
    method Retain(others: seq<Listener<S, P>>, ghost kept: seq<nat>, ghost ears: seq<Ear<S, P>>)
      requires Kept(kept, |listeners|) && |others| == |kept| == |ears|
      requires forall m :: 0 <= m < |kept| ==> others[m] == listeners[kept[m]] && others[m].Sound()
      requires forall m, n :: 0 <= m < n < |kept| ==> Apart(listeners[kept[m]], listeners[kept[n]])
      requires forall m :: 0 <= m < |kept| ==> Ear(others[m].port, others[m].Bindings()) == ears[m]
      modifies this
      ensures listeners == others && Valid() && View() == ears
    {
      listeners := others;
    }

    // The loop over the listeners.
    method Adjoined(port: P) returns (joined: Array?<Binding<S, P>>, others: seq<Listener<S, P>>, ghost kept: seq<nat>)
      requires Valid()
      modifies listeners
      ensures joined != null ==> fresh(joined) && fresh(joined.data) && joined.Valid()
      ensures (if joined == null then [] else joined.Contents()) == ports.Gather(old(View()), port)
      ensures |others| == |kept| == |ports.Others(old(View()), port)| && Kept(kept, |listeners|)
      ensures forall m :: 0 <= m < |kept| ==> others[m] == listeners[kept[m]] && others[m].ears == old(others[m].ears)
      ensures forall m :: 0 <= m < |kept| ==> ports.Others(old(View()), port)[m] == old(View())[kept[m]]
    {
      hide Parted, Kept, Ports.Gather, Ports.Others, Ports.JoinSpec, Ports.Fits, Changed;
      ghost var v := View();
      joined, others, kept := null, [], [];
      var i: nat := 0;
      PartStart(ports, v, port);
      while i < |listeners|
        invariant i <= |listeners| == |v|
        invariant forall k :: 0 <= k < |listeners| ==>
          listeners[k].ears == if k < i && ports.Fits(listeners[k].port, port) then null else old(listeners[k].ears)
        invariant joined != null ==> fresh(joined) && fresh(joined.data) && joined.Valid()
        invariant Parted(ports, v, port, i, kept, if joined == null then [] else joined.Contents())
        invariant |others| == |kept|
        invariant forall m :: 0 <= m < |kept| ==> kept[m] < |listeners| && others[m] == listeners[kept[m]]
      {
        PartStep(ports, v, port, i, kept, if joined == null then [] else joined.Contents());
        joined, others, kept := Part(ports, listeners[i], port, joined, others, kept, i);
        i := i + 1;
      }
      PartEnd(ports, v, port, i, kept, if joined == null then [] else joined.Contents());
    }

    // A listener for all addresses takes the place of those for single ones.
    method Widen(server: S, port: P, copy: P, created: bool)
      requires Valid()
      modifies this, listeners
      ensures Valid() && Owned()
      ensures View() == ports.Others(old(View()), port) +
        if created then [Ear(copy, ports.AddSpec(ports.Gather(old(View()), port), Binding(server, copy)))] else []
    {
      hide Ports.Gather, Ports.Others, Ports.AddSpec, Valid, View;
      var bindings := Collect(port);
      if created {
        var _ := Reopen(bindings, server, copy);
      } else {
        assert View() + [] == View();
      }
    }

    // It takes over the array and has the new binding added.
    static method Heir(ports: Ports<P>, bindings: Array?<Binding<S, P>>, server: S, copy: P)
      returns (sock: Listener<S, P>)
      requires bindings != null ==> bindings.Valid()
      modifies bindings, if bindings == null then {} else {bindings.data}
      ensures fresh(sock) && sock.port == copy && sock.Sound() && sock.ears != null
      ensures sock.Bindings()
           == ports.AddSpec(old(if bindings == null then [] else bindings.Contents()), Binding(server, copy))
      ensures sock.ears == bindings || fresh(sock.ears)
      ensures fresh(sock.ears.data) || (sock.ears == bindings && sock.ears.data == old(bindings.data))
    {
      hide Ports.AddSpec, Ports.Contains;
      sock := new Listener(copy);
      sock.ears := bindings;
      var _ := sock.AddServer(ports, server, copy);
    }

    // A new listener with the joined bindings.
    method Reopen(bindings: Array?<Binding<S, P>>, server: S, copy: P) returns (sock: Listener<S, P>)
      requires Valid() && (bindings != null ==> bindings.Valid())
      requires forall l | l in listeners && l.ears != null && bindings != null ::
        l.ears != bindings && l.ears.data != bindings.data
      modifies this, bindings, if bindings == null then {} else {bindings.data}
      ensures Valid() && View() == old(View()) +
        [Ear(copy, ports.AddSpec(old(if bindings == null then [] else bindings.Contents()), Binding(server, copy)))]
      ensures fresh(sock) && listeners == old(listeners) + [sock]
      ensures sock.ears != null && (sock.ears == bindings || fresh(sock.ears))
      ensures fresh(sock.ears.data) || (sock.ears == bindings && sock.ears.data == old(bindings.data))
    {
      hide Ports.AddSpec, Heard;
      sock := Heir(ports, bindings, server, copy);
      Enqueue(sock);
    }

    // svz_server_bind for one of the expanded configurations.
    method BindOne(server: S, port: P, copy: P, created: bool)
      requires Valid()
      modifies this, listeners, Arrays(), Places()
      ensures Valid() && View() == ports.BindSpec(old(View()), server, port, copy, created) && Owned()
    {
      hide Ports.Gather, Ports.Others, Ports.AddSpec, Heard, Separate;
      var i := SocketWithPortcfg(copy);
      if i < |listeners| { PortAt(i); }
      if i == |listeners| {
        if created {
          Open(server, copy);
        }
      } else if ports.any(copy) && !ports.any(listeners[i].port) {
        Widen(server, port, copy, created);
      } else {
        AddOwned(i, server, copy);
      }
    }

    method BindNext(server: S, port: P, copy: P, created: bool)
      requires Valid()
      modifies this, Repr()
      ensures Valid() && View() == ports.BindSpec(old(View()), server, port, copy, created)
      ensures fresh(Repr() - old(Repr()))
    {
      hide View, Heard, Valid, Separate, Ports.BindSpec;
      BindOne(server, port, copy, created);
      forall o | o in Repr() ensures o in old(Repr()) || fresh(o) {
        if o in Arrays() || o in Places() {
          var l :| l in listeners && l.ears != null && (l.ears == o || l.ears.data == o);
        }
      }
    }

    // svz_server_bind; `created` tells for each configuration whether a listener could be made.
    method ServerBind(server: S, port: P, copies: seq<P>, created: seq<bool>)
      requires Valid() && |created| == |copies|
      modifies this, Repr()
      ensures Valid() && View() == BindingSpec.Run(ports, old(View()), Binds(server, port, copies, created))
    {
      hide View, Heard, Valid, Separate, Repr, BindingSpec.Run, Ports.BindSpec;
      ghost var events := Binds(server, port, copies, created);
      var n := 0;
      assert events[..0] == [];
      RunNothing(ports, View());
      while n < |copies|
        invariant n <= |copies| && Valid() && (forall o :: o in Repr() ==> o in old(Repr()) || fresh(o))
        invariant View() == BindingSpec.Run(ports, old(View()), events[..n])
      {
        RunNext(ports, old(View()), events, n);
        ghost var before := Repr();
        label L:
        BindNext(server, port, copies[n], created[n]);
        forall o | o in Repr() ensures o in old(Repr()) || fresh(o) {
          if o !in before {
            assert o in Repr() - before;
            assert fresh@L(o);
          }
        }
        n := n + 1;
      }
      assert events[..n] == events;
    }

    // One pass of the loop.
    static method Part(ports: Ports<P>, sock: Listener<S, P>, port: P, joined: Array?<Binding<S, P>>,
                       others: seq<Listener<S, P>>, ghost kept: seq<nat>, ghost i: nat)
      returns (joined': Array?<Binding<S, P>>, others': seq<Listener<S, P>>, ghost kept': seq<nat>)
      requires sock.Sound() && (joined != null ==> joined.Valid() && joined != sock.ears)
      requires joined != null && sock.ears != null ==> joined.data != sock.ears.data
      modifies sock, joined, if joined == null then {} else {joined.data}
      ensures !ports.Fits(sock.port, port) ==>
        joined' == joined && others' == others + [sock] && kept' == kept + [i] && sock.ears == old(sock.ears)
      ensures !ports.Fits(sock.port, port) && joined != null ==>
        joined.Valid() && joined.Contents() == old(joined.Contents())
      ensures !ports.Fits(sock.port, port) && joined != null ==> joined.data == old(joined.data)
      ensures ports.Fits(sock.port, port) ==>
        && others' == others && kept' == kept && sock.ears == null
        && joined' != null && joined'.Valid()
        && joined'.Contents()
           == ports.JoinSpec(old(if joined == null then [] else joined.Contents()), old(sock.Bindings()))
        && (joined' == joined || fresh(joined'))
        && (fresh(joined'.data) || (joined' == joined && joined'.data == old(joined.data)))
    {
      joined', others', kept' := joined, others, kept;
      if ports.Fits(sock.port, port) {
        joined' := sock.Adjoin(ports, joined);
      } else {
        others', kept' := others + [sock], kept + [i];
      }
    }
  }

  function Binds<S, P>(server: S, port: P, copies: seq<P>, created: seq<bool>): seq<Event<S, P>>
    requires |created| == |copies|
  {
    seq(|copies|, i requires 0 <= i < |copies| => Event.Bind(server, port, copies[i], created[i]))
  }

  // The listeners before `i` are parted: the bindings of those that fit are joined, the places
  // of the others are kept.
  ghost predicate Parted<S, P(!new)>(ports: Ports<P>, v: seq<Ear<S, P>>, port: P, i: nat, kept: seq<nat>,
                                     joined: seq<Binding<S, P>>) {
    && i <= |v| && Kept(kept, i) && joined == ports.Gather(v[..i], port)
    && ports.Others(v[..i], port) == seq(|kept|, m requires 0 <= m < |kept| && kept[m] < |v| => v[kept[m]])
  }

  lemma PartStart<S, P(!new)>(ports: Ports<P>, v: seq<Ear<S, P>>, port: P)
    ensures Parted(ports, v, port, 0, [], [])
  {
    assert v[..0] == [];
  }

  lemma PartStep<S, P(!new)>(ports: Ports<P>, v: seq<Ear<S, P>>, port: P, i: nat, kept: seq<nat>,
                             joined: seq<Binding<S, P>>)
    requires Parted(ports, v, port, i, kept, joined) && i < |v|
    ensures if ports.Fits(v[i].port, port)
            then Parted(ports, v, port, i + 1, kept, ports.JoinSpec(joined, v[i].bindings))
            else Parted(ports, v, port, i + 1, kept + [i], joined)
  {
    assert v[..i + 1][..i] == v[..i] && v[..i + 1][i] == v[i];
  }

  lemma PartEnd<S, P(!new)>(ports: Ports<P>, v: seq<Ear<S, P>>, port: P, i: nat, kept: seq<nat>,
                            joined: seq<Binding<S, P>>)
    requires Parted(ports, v, port, i, kept, joined) && i == |v|
    ensures joined == ports.Gather(v, port) && |ports.Others(v, port)| == |kept| && Kept(kept, i)
    ensures forall m :: 0 <= m < |kept| ==> ports.Others(v, port)[m] == v[kept[m]] && !ports.Fits(v[kept[m]].port, port)
  {
    assert v[..i] == v;
    OthersDoNotFit(ports, v, port);
  }

  lemma {:induction false} OthersDoNotFit<S, P(!new)>(ports: Ports<P>, v: seq<Ear<S, P>>, port: P)
    ensures forall m :: 0 <= m < |ports.Others(v, port)| ==> !ports.Fits(ports.Others(v, port)[m].port, port)
  {
    if v != [] {
      OthersDoNotFit(ports, v[..|v| - 1], port);
    }
  }

  ghost predicate Kept(kept: seq<nat>, i: nat) {
    (forall m :: 0 <= m < |kept| ==> kept[m] < i) && (forall m, n :: 0 <= m < n < |kept| ==> kept[m] < kept[n])
  }

  // ----- lists of listeners -----

  ghost predicate Apart<S(0), P(0,!new)>(a: Listener<S, P>, b: Listener<S, P>)
    reads a, b, a.ears, b.ears
  {
    a != b && (a.ears != null && b.ears != null ==> a.ears != b.ears && a.ears.data != b.ears.data)
  }

  ghost predicate Separate<S(0), P(0,!new)>(listeners: seq<Listener<S, P>>)
    reads listeners, set l | l in listeners && l.ears != null :: l.ears
  {
    && (forall i :: 0 <= i < |listeners| ==> listeners[i].Sound())
    && (forall i, j :: 0 <= i < j < |listeners| ==> Apart(listeners[i], listeners[j]))
  }

  ghost function Heard<S(0), P(0,!new)>(listeners: seq<Listener<S, P>>): (v: seq<Ear<S, P>>)
    reads listeners, set l | l in listeners && l.ears != null :: l.ears
    reads set l | l in listeners && l.ears != null :: l.ears.data
    requires Separate(listeners)
    ensures |v| == |listeners|
  {
    seq(|listeners|, i requires 0 <= i < |listeners| && listeners[i].Sound()
                       reads listeners, set l | l in listeners && l.ears != null :: l.ears,
        set l | l in listeners && l.ears != null :: l.ears.data =>
      Ear(listeners[i].port, listeners[i].Bindings()))
  }

  lemma FindEarIs<S, P(!new)>(ports: Ports<P>, ears: seq<Ear<S, P>>, copy: P, i: nat)
    requires i <= |ears| && (i < |ears| ==> ports.Fits(ears[i].port, copy))
    requires forall k :: 0 <= k < i ==> !ports.Fits(ears[k].port, copy)
    ensures ports.FindEar(ears, copy) == i
  {
  }

  // The first `seen` bindings have been looked at, the first `i` are what is left of them.
  ghost predicate Zonked<S, P>(now: seq<Binding<S, P>>, i: nat, before: seq<Binding<S, P>>, seen: nat, server: S) {
    i <= |now| && seen <= |before| && now[..i] == Without(before[..seen], server) && now[i..] == before[seen..]
  }

  lemma ZonkStart<S, P>(s: seq<Binding<S, P>>, server: S)
    ensures Zonked(s, 0, s, 0, server)
  {
    assert s[..0] == [] && s[0..] == s;
  }

  lemma ZonkStep<S, P>(now: seq<Binding<S, P>>, i: nat, before: seq<Binding<S, P>>, seen: nat, server: S)
    requires Zonked(now, i, before, seen, server) && i < |now|
    ensures if now[i].server == server then Zonked(now[..i] + now[i + 1..], i, before, seen + 1, server)
            else Zonked(now, i + 1, before, seen + 1, server)
  {
    assert now[i] == now[i..][0] == before[seen..][0] == before[seen];
    assert before[..seen + 1][..seen] == before[..seen];
    assert now[i + 1..] == now[i..][1..] && before[seen + 1..] == before[seen..][1..];
    if now[i].server == server {
      var after := now[..i] + now[i + 1..];
      assert after[..i] == now[..i] && after[i..] == now[i + 1..];
      assert Without(before[..seen], server) + [] == Without(before[..seen], server);
    } else {
      assert now[..i + 1] == now[..i] + [now[i]];
    }
  }

  lemma ZonkEnd<S, P>(now: seq<Binding<S, P>>, i: nat, before: seq<Binding<S, P>>, seen: nat, server: S)
    requires Zonked(now, i, before, seen, server) && i == |now|
    ensures now == Without(before, server)
  {
    assert now[i..] == [] && |before[seen..]| == 0;
    assert now[..i] == now && before[..seen] == before;
  }
}
