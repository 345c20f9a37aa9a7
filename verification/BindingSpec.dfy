/**
  Which servers listen where (src/libserveez/binding.c), as values: every listener has a port
  configuration and the bindings it serves.
*/
module BindingSpec {

  // svz_portcfg_equal
  datatype Match = NoMatch | Matching | Equal | Conflict

  datatype Binding<S, P> = Binding(server: S, port: P)

  datatype Ear<S, P> = Ear(port: P, bindings: seq<Binding<S, P>>)

  // How port configurations compare, and which of them stand for all addresses.
  datatype Ports<!P(!new)> = Ports(compare: (P, P) -> Match, any: P -> bool)
  {
    predicate Eq(a: P, b: P) {
      compare(a, b) == Equal
    }

    predicate Fits(a: P, b: P) {
      compare(a, b) in {Equal, Matching}
    }

    ghost predicate Equivalence() {
      && (forall a :: Eq(a, a))
      && (forall a, b :: Eq(a, b) ==> Eq(b, a))
      && (forall a, b, c :: Eq(a, b) && Eq(b, c) ==> Eq(a, c))
    }

    predicate Same<S(==)>(a: Binding<S, P>, b: Binding<S, P>) {
      a.server == b.server && Eq(a.port, b.port)
    }

    // bindings_contain
    ghost predicate Contains<S>(s: seq<Binding<S, P>>, b: Binding<S, P>) {
      exists i :: 0 <= i < |s| && Same(s[i], b)
    }

    // No binding is there twice.
    ghost predicate Singular<S>(s: seq<Binding<S, P>>) {
      forall i, j :: 0 <= i < j < |s| ==> !Same(s[i], s[j])
    }

    // ----- adding and joining -----

    ghost function AddSpec<S>(s: seq<Binding<S, P>>, b: Binding<S, P>): seq<Binding<S, P>> {
      if Contains(s, b) then s else s + [b]
    }

    ghost function JoinSpec<S>(s: seq<Binding<S, P>>, t: seq<Binding<S, P>>): seq<Binding<S, P>>
      decreases |t|
    {
      if t == [] then s else AddSpec(JoinSpec(s, t[..|t| - 1]), t[|t| - 1])
    }

    lemma AddContains<S>(s: seq<Binding<S, P>>, b: Binding<S, P>, c: Binding<S, P>)
      requires Equivalence()
      ensures Contains(AddSpec(s, b), c) <==> Contains(s, c) || Same(b, c)
      ensures Singular(s) ==> Singular(AddSpec(s, b))
    {
      if Contains(s, b) {
        if Same(b, c) {
          var i :| 0 <= i < |s| && Same(s[i], b);
          assert Same(s[i], c);
        }
      } else {
        var r := s + [b];
        if Contains(s, c) {
          var i :| 0 <= i < |s| && Same(s[i], c);
          assert Same(r[i], c);
        }
        if Same(b, c) { assert Same(r[|s|], c); }
        if Contains(r, c) {
          var i :| 0 <= i < |r| && Same(r[i], c);
          assert i < |s| ==> Same(s[i], c);
        }
        forall i, j | Singular(s) && 0 <= i < j < |r| ensures !Same(r[i], r[j]) {
          if j == |s| { assert !Same(s[i], b); }
        }
      }
    }

    // Joining keeps what both sides contain, each once.
    lemma {:induction false} JoinContains<S>(s: seq<Binding<S, P>>, t: seq<Binding<S, P>>, c: Binding<S, P>)
      requires Equivalence()
      ensures Contains(JoinSpec(s, t), c) <==> Contains(s, c) || Contains(t, c)
      ensures Singular(s) ==> Singular(JoinSpec(s, t))
      decreases |t|
    {
      if t != [] {
        var n := |t| - 1;
        JoinContains(s, t[..n], c);
        AddContains(JoinSpec(s, t[..n]), t[n], c);
        if Contains(t[..n], c) {
          var i :| 0 <= i < n && Same(t[..n][i], c);
          assert Same(t[i], c);
        }
        if Contains(t, c) && !Same(t[n], c) {
          var i :| 0 <= i < |t| && Same(t[i], c);
          assert Same(t[..n][i], c);
        }
      }
    }

    // How often `c` is there.
    function Copies<S(==)>(s: seq<Binding<S, P>>, c: Binding<S, P>): nat {
      if s == [] then 0 else Copies(s[..|s| - 1], c) + if Same(s[|s| - 1], c) then 1 else 0
    }

    lemma {:induction false} CopiesOf<S>(s: seq<Binding<S, P>>, c: Binding<S, P>)
      requires Equivalence()
      ensures Copies(s, c) > 0 <==> Contains(s, c)
      ensures Singular(s) ==> Copies(s, c) <= 1
    {
      if s != [] {
        var n := |s| - 1;
        CopiesOf(s[..n], c);
        if Contains(s[..n], c) {
          var i :| 0 <= i < n && Same(s[..n][i], c);
          assert Same(s[i], c);
          if Same(s[n], c) { assert Same(s[i], s[n]); }
        }
        if Contains(s, c) && !Same(s[n], c) {
          var i :| 0 <= i < |s| && Same(s[i], c);
          assert Same(s[..n][i], c);
        }
      }
    }

    // ----- the listeners -----

    ghost predicate Serves<S>(ears: seq<Ear<S, P>>, i: int, c: Binding<S, P>) {
      0 <= i < |ears| && Contains(ears[i].bindings, c)
    }

    ghost predicate Bound<S>(ears: seq<Ear<S, P>>, c: Binding<S, P>) {
      exists i :: Serves(ears, i, c)
    }

    ghost predicate AllSingular<S>(ears: seq<Ear<S, P>>) {
      forall i :: 0 <= i < |ears| ==> Singular(ears[i].bindings)
    }

    // socket_with_portcfg: the first listener that fits.
    function FindEar<S>(ears: seq<Ear<S, P>>, copy: P): (i: nat)
      ensures i <= |ears| && (i < |ears| ==> Fits(ears[i].port, copy))
      ensures forall j :: 0 <= j < i ==> !Fits(ears[j].port, copy)
    {
      if ears == [] then 0
      else if Fits(ears[0].port, copy) then 0
      else
        var rest := FindEar(ears[1..], copy);
        assert forall j :: 1 <= j < |ears| ==> ears[j] == ears[1..][j - 1];
        1 + rest
    }

    // The bindings of all listeners that fit, joined, and the listeners that do not fit.
    ghost function Gather<S>(ears: seq<Ear<S, P>>, port: P): seq<Binding<S, P>> {
      if ears == [] then []
      else
        var (rest, last) := (Gather(ears[..|ears| - 1], port), ears[|ears| - 1]);
        if Fits(last.port, port) then JoinSpec(rest, last.bindings) else rest
    }

    function Others<S>(ears: seq<Ear<S, P>>, port: P): seq<Ear<S, P>> {
      if ears == [] then []
      else
        var (rest, last) := (Others(ears[..|ears| - 1], port), ears[|ears| - 1]);
        if Fits(last.port, port) then rest else rest + [last]
    }

    ghost predicate BoundAt<S>(ears: seq<Ear<S, P>>, port: P, fits: bool, c: Binding<S, P>) {
      exists i :: Serves(ears, i, c) && Fits(ears[i].port, port) == fits
    }

    lemma BoundAtLast<S>(ears: seq<Ear<S, P>>, port: P, fits: bool, c: Binding<S, P>)
      requires ears != []
      ensures var n := |ears| - 1;
        BoundAt(ears, port, fits, c) <==>
          BoundAt(ears[..n], port, fits, c) || (Contains(ears[n].bindings, c) && Fits(ears[n].port, port) == fits)
    {
      var n := |ears| - 1;
      if BoundAt(ears[..n], port, fits, c) {
        var i :| Serves(ears[..n], i, c) && Fits(ears[..n][i].port, port) == fits;
        assert Serves(ears, i, c);
      }
      if BoundAt(ears, port, fits, c) {
        var i :| Serves(ears, i, c) && Fits(ears[i].port, port) == fits;
        if i < n { assert Serves(ears[..n], i, c); }
      }
      if Contains(ears[n].bindings, c) { assert Serves(ears, n, c); }
    }

    lemma {:induction false} GatherContains<S>(ears: seq<Ear<S, P>>, port: P, c: Binding<S, P>)
      requires Equivalence()
      ensures Contains(Gather(ears, port), c) <==> BoundAt(ears, port, true, c)
      ensures Singular(Gather(ears, port))
    {
      if ears != [] {
        var n := |ears| - 1;
        BoundAtLast(ears, port, true, c);
        GatherContains(ears[..n], port, c);
        JoinContains(Gather(ears[..n], port), ears[n].bindings, c);
      }
    }

    lemma {:induction false} OthersBound<S>(ears: seq<Ear<S, P>>, port: P, c: Binding<S, P>)
      ensures Bound(Others(ears, port), c) <==> BoundAt(ears, port, false, c)
      ensures AllSingular(ears) ==> AllSingular(Others(ears, port))
    {
      if ears != [] {
        var n := |ears| - 1;
        OthersBound(ears[..n], port, c);
        BoundAtLast(ears, port, false, c);
        if !Fits(ears[n].port, port) {
          BoundWith(Others(ears[..n], port), ears[n], c);
        }
      }
    }

    lemma BoundWith<S>(ears: seq<Ear<S, P>>, ear: Ear<S, P>, c: Binding<S, P>)
      ensures Bound(ears + [ear], c) <==> Bound(ears, c) || Contains(ear.bindings, c)
    {
      var all := ears + [ear];
      if Bound(ears, c) {
        var i :| Serves(ears, i, c);
        assert Serves(all, i, c);
      }
      if Contains(ear.bindings, c) { assert Serves(all, |ears|, c); }
      if Bound(all, c) {
        var i :| Serves(all, i, c);
        if i < |ears| { assert Serves(ears, i, c); }
      }
    }

    lemma BoundSplit<S>(ears: seq<Ear<S, P>>, port: P, c: Binding<S, P>)
      ensures Bound(ears, c) <==> BoundAt(ears, port, true, c) || BoundAt(ears, port, false, c)
    {
      if Bound(ears, c) {
        var i :| Serves(ears, i, c);
        assert Serves(ears, i, c) && Fits(ears[i].port, port) == Fits(ears[i].port, port);
      }
    }

    // ----- svz_server_bind for one of the expanded configurations -----

    // A listener for one address is in the place of the new one for all addresses.
    predicate Widens<S>(ears: seq<Ear<S, P>>, copy: P) {
      var i := FindEar(ears, copy);
      i < |ears| && any(copy) && !any(ears[i].port)
    }

    // `created` tells whether a listener could be made if one was needed.
    ghost function BindSpec<S>(ears: seq<Ear<S, P>>, server: S, port: P, copy: P, created: bool): seq<Ear<S, P>>
    {
      var (i, b) := (FindEar(ears, copy), Binding(server, copy));
      if i == |ears| then if created then ears + [Ear(copy, [b])] else ears
      else if Widens(ears, copy) then
        Others(ears, port) + if created then [Ear(copy, AddSpec(Gather(ears, port), b))] else []
      else ears[i := ears[i].(bindings := AddSpec(ears[i].bindings, b))]
    }

    // The new listener serves every binding of the listeners it replaces and the new one, each
    // exactly once; the listeners on other ports are as before.
    lemma WidenedServesAll<S>(ears: seq<Ear<S, P>>, server: S, port: P, copy: P, c: Binding<S, P>)
      requires Equivalence() && Widens(ears, copy)
      ensures var after := BindSpec(ears, server, port, copy, true);
        && after != [] && after[..|after| - 1] == Others(ears, port) && after[|after| - 1].port == copy
        && Copies(after[|after| - 1].bindings, c) ==
             if BoundAt(ears, port, true, c) || Same(Binding(server, copy), c) then 1 else 0
    {
      var (all, b) := (Gather(ears, port), Binding(server, copy));
      GatherContains(ears, port, c);
      AddContains(all, b, c);
      CopiesOf(AddSpec(all, b), c);
    }

    // What is bound afterwards, in every case. Bindings are lost exactly when a listener that
    // was to replace others could not be made.
    lemma BoundAfter<S>(ears: seq<Ear<S, P>>, server: S, port: P, copy: P, created: bool, c: Binding<S, P>)
      requires Equivalence()
      ensures var after := BindSpec(ears, server, port, copy, created);
        Bound(after, c) <==>
          if created || (FindEar(ears, copy) < |ears| && !Widens(ears, copy))
          then Bound(ears, c) || Same(Binding(server, copy), c)
          else if Widens(ears, copy) then BoundAt(ears, port, false, c)
          else Bound(ears, c)
    {
      var (i, b) := (FindEar(ears, copy), Binding(server, copy));
      if i == |ears| {
        if created {
          BoundWith(ears, Ear(copy, [b]), c);
          AddContains([], b, c);
          assert [] + [b] == [b];
        }
      } else if Widens(ears, copy) {
        OthersBound(ears, port, c);
        if created {
          BoundSplit(ears, port, c);
          GatherContains(ears, port, c);
          AddContains(Gather(ears, port), b, c);
          BoundWith(Others(ears, port), Ear(copy, AddSpec(Gather(ears, port), b)), c);
        } else {
          assert Others(ears, port) + [] == Others(ears, port);
        }
      } else {
        BoundAdded(ears, i, b, c);
      }
    }

    // How the first listener that fits decides, if there is one: it takes the binding, unless it
    // is for one address and the binding is for all of them; then a listener for all addresses
    // takes the place of every listener that fits `port`.
    lemma BindCases<S>(ears: seq<Ear<S, P>>, server: S, port: P, copy: P, created: bool, i: nat)
      requires i <= |ears| && forall j :: 0 <= j < i ==> compare(ears[j].port, copy) !in {Equal, Matching}
      requires i < |ears| ==> compare(ears[i].port, copy) in {Equal, Matching}
      ensures var after := BindSpec(ears, server, port, copy, created);
        if i == |ears| then
          after == if created then ears + [Ear(copy, [Binding(server, copy)])] else ears
        else if any(copy) && !any(ears[i].port) then
          && |after| == |Others(ears, port)| + (if created then 1 else 0)
          && (forall j :: 0 <= j < |Others(ears, port)| ==>
                after[j] in ears && compare(after[j].port, port) !in {Equal, Matching})
          && (forall ear :: ear in ears && compare(ear.port, port) !in {Equal, Matching} ==> ear in after)
          && (created ==> after[|after| - 1].port == copy)
        else
          && |after| == |ears| && (forall j :: 0 <= j < |ears| && j != i ==> after[j] == ears[j])
          && after[i].port == ears[i].port
          && (after[i].bindings == ears[i].bindings || after[i].bindings == ears[i].bindings + [Binding(server, copy)])
          && (after[i].bindings == ears[i].bindings <==> Contains(ears[i].bindings, Binding(server, copy)))
    {
      var n := FindEar(ears, copy);
      assert n == i;
      OthersAre(ears, port);
      var (others, after) := (Others(ears, port), BindSpec(ears, server, port, copy, created));
      if i < |ears| && any(copy) && !any(ears[i].port) {
        forall j | 0 <= j < |others| ensures after[j] in ears && !Fits(after[j].port, port) {
          assert after[j] == others[j] && others[j] in others;
        }
      }
    }

    lemma {:induction false} OthersAre<S>(ears: seq<Ear<S, P>>, port: P)
      ensures forall ear :: ear in Others(ears, port) <==> ear in ears && !Fits(ear.port, port)
    {
      if ears != [] {
        OthersAre(ears[..|ears| - 1], port);
        assert ears == ears[..|ears| - 1] + [ears[|ears| - 1]];
      }
    }

    lemma BoundAdded<S>(ears: seq<Ear<S, P>>, i: nat, b: Binding<S, P>, c: Binding<S, P>)
      requires Equivalence() && i < |ears|
      ensures Bound(ears[i := ears[i].(bindings := AddSpec(ears[i].bindings, b))], c) <==> Bound(ears, c) || Same(b, c)
    {
      var after := ears[i := ears[i].(bindings := AddSpec(ears[i].bindings, b))];
      AddContains(ears[i].bindings, b, c);
      if Bound(ears, c) {
        var k :| Serves(ears, k, c);
        assert Serves(after, k, c);
      }
      if Same(b, c) { assert Serves(after, i, c); }
      if Bound(after, c) {
        var k :| Serves(after, k, c);
        if k != i || !Same(b, c) { assert Serves(ears, k, c); }
      }
    }

    lemma BindKeepsSingular<S>(ears: seq<Ear<S, P>>, server: S, port: P, copy: P, created: bool)
      requires Equivalence() && AllSingular(ears)
      ensures AllSingular(BindSpec(ears, server, port, copy, created))
    {
      var (i, b) := (FindEar(ears, copy), Binding(server, copy));
      OthersBound(ears, port, b);
      GatherContains(ears, port, b);
      AddContains(Gather(ears, port), b, b);
      if i < |ears| { AddContains(ears[i].bindings, b, b); }
    }
  }

  // ----- removing a server -----

  // svz_sock_bindings_zonk_server: the others stay, in their order.
  function Without<S(==), P>(s: seq<Binding<S, P>>, server: S): (r: seq<Binding<S, P>>)
    ensures |r| <= |s|
  {
    if s == [] then []
    else Without(s[..|s| - 1], server) + if s[|s| - 1].server == server then [] else [s[|s| - 1]]
  }

  lemma {:induction false} CopiesWithout<S, P(!new)>(ports: Ports<P>, s: seq<Binding<S, P>>, server: S,
                                                     c: Binding<S, P>)
    ensures ports.Copies(Without(s, server), c) == if c.server == server then 0 else ports.Copies(s, c)
  {
    if s != [] {
      var (rest, last) := (Without(s[..|s| - 1], server), s[|s| - 1]);
      CopiesWithout(ports, s[..|s| - 1], server, c);
      if last.server != server {
        assert (rest + [last])[..|rest|] == rest;
      } else {
        assert rest + [] == rest;
      }
    }
  }

  lemma ContainsWithout<S, P(!new)>(ports: Ports<P>, s: seq<Binding<S, P>>, server: S, c: Binding<S, P>)
    requires ports.Equivalence()
    ensures ports.Contains(Without(s, server), c) <==> ports.Contains(s, c) && c.server != server
  {
    CopiesWithout(ports, s, server, c);
    ports.CopiesOf(s, c);
    ports.CopiesOf(Without(s, server), c);
  }

  lemma {:induction false} SingularWithout<S, P(!new)>(ports: Ports<P>, s: seq<Binding<S, P>>, server: S)
    requires ports.Equivalence() && ports.Singular(s)
    ensures ports.Singular(Without(s, server))
  {
    if s != [] {
      var (rest, last) := (Without(s[..|s| - 1], server), s[|s| - 1]);
      assert s == s[..|s| - 1] + [last];
      SingularWith(ports, s[..|s| - 1], last);
      SingularWithout(ports, s[..|s| - 1], server);
      ContainsWithout(ports, s[..|s| - 1], server, last);
      SingularWith(ports, rest, last);
      assert rest + [] == rest;
    }
  }

  lemma SingularWith<S, P(!new)>(ports: Ports<P>, s: seq<Binding<S, P>>, b: Binding<S, P>)
    ensures ports.Singular(s + [b]) <==> ports.Singular(s) && !ports.Contains(s, b)
  {
    var r := s + [b];
    if ports.Singular(r) {
      forall i | 0 <= i < |s| ensures !ports.Same(s[i], b) {
        assert !ports.Same(r[i], r[|s|]);
      }
      forall i, j | 0 <= i < j < |s| ensures !ports.Same(s[i], s[j]) {
        assert !ports.Same(r[i], r[j]);
      }
    }
    if ports.Singular(s) && !ports.Contains(s, b) {
      forall i, j | 0 <= i < j < |r| ensures !ports.Same(r[i], r[j]) {
        assert j == |s| ==> !ports.Same(s[i], b);
      }
    }
  }

  // ----- whole runs -----

  datatype Event<S, P> =
    | Bind(server: S, port: P, copy: P, created: bool)
    | Zonk(listener: nat, server: S)

  ghost function Step<S, P(!new)>(ports: Ports<P>, ears: seq<Ear<S, P>>, e: Event<S, P>): seq<Ear<S, P>> {
    match e
    case Bind(server, port, copy, created) => ports.BindSpec(ears, server, port, copy, created)
    case Zonk(i, server) =>
      if i < |ears| then ears[i := ears[i].(bindings := Without(ears[i].bindings, server))] else ears
  }

  ghost function Run<S, P(!new)>(ports: Ports<P>, ears: seq<Ear<S, P>>, events: seq<Event<S, P>>): seq<Ear<S, P>>
    decreases |events|
  {
    if events == [] then ears else Run(ports, Step(ports, ears, events[0]), events[1..])
  }

  lemma RunNothing<S, P(!new)>(ports: Ports<P>, ears: seq<Ear<S, P>>)
    ensures Run(ports, ears, []) == ears
  {
  }

  lemma {:induction false} RunNext<S, P(!new)>(ports: Ports<P>, ears: seq<Ear<S, P>>, events: seq<Event<S, P>>, n: nat)
    requires n < |events|
    ensures Run(ports, ears, events[..n + 1]) == Step(ports, Run(ports, ears, events[..n]), events[n])
    decreases n
  {
    hide Step;
    if n > 0 {
      assert events[..n + 1][1..] == events[1..][..n] && events[..n][1..] == events[1..][..n - 1];
      RunNext(ports, Step(ports, ears, events[0]), events[1..], n - 1);
    } else {
      assert events[..1][1..] == [] && events[..0] == [];
    }
  }

  // In every run no listener serves a server twice on equal ports.
  lemma {:induction false} RunKeepsSingular<S, P(!new)>(ports: Ports<P>, ears: seq<Ear<S, P>>, events: seq<Event<S, P>>)
    requires ports.Equivalence() && ports.AllSingular(ears)
    ensures ports.AllSingular(Run(ports, ears, events))
    decreases |events|
  {
    if events != [] {
      match events[0] {
        case Bind(server, port, copy, created) =>
          ports.BindKeepsSingular(ears, server, port, copy, created);
        case Zonk(i, server) =>
          if i < |ears| { SingularWithout(ports, ears[i].bindings, server); }
      }
      RunKeepsSingular(ports, Step(ports, ears, events[0]), events[1..]);
    }
  }

  // A step that takes something from a server: it is removed from a listener, or a listener
  // that was to replace others could not be made.
  ghost predicate Harmless<S, P(!new)>(ports: Ports<P>, ears: seq<Ear<S, P>>, e: Event<S, P>, server: S) {
    match e
    case Bind(_, _, copy, created) => created || !ports.Widens(ears, copy)
    case Zonk(_, gone) => gone != server
  }

  ghost predicate HarmlessRun<S, P(!new)>(ports: Ports<P>, ears: seq<Ear<S, P>>, events: seq<Event<S, P>>, server: S)
    decreases |events|
  {
    events == [] ||
    (Harmless(ports, ears, events[0], server) && HarmlessRun(ports, Step(ports, ears, events[0]), events[1..], server))
  }

  // However often listeners are widened, what is bound stays bound until such a step.
  lemma {:induction false} StaysBound<S, P(!new)>(ports: Ports<P>, ears: seq<Ear<S, P>>, events: seq<Event<S, P>>,
                                                  c: Binding<S, P>)
    requires ports.Equivalence() && ports.Bound(ears, c) && HarmlessRun(ports, ears, events, c.server)
    ensures ports.Bound(Run(ports, ears, events), c)
    decreases |events|
  {
    if events != [] {
      match events[0] {
        case Bind(server, port, copy, created) =>
          ports.BoundAfter(ears, server, port, copy, created, c);
        case Zonk(i, server) =>
          var k :| ports.Serves(ears, k, c);
          if i < |ears| { ContainsWithout(ports, ears[i].bindings, server, c); }
          assert ports.Serves(Step(ports, ears, events[0]), k, c);
      }
      StaysBound(ports, Step(ports, ears, events[0]), events[1..], c);
    }
  }
}
