/**
  Process masks of proxies: a backend ends up bound to all processes of the frontends that lead to it.
 */
module Propagation {

  /** One element per bit of an unsigned long. */
  type Mask = set<nat>

  /** A use_backend rule. Names of backends have been resolved, except where they are computed for each request. */
  datatype Rule = Rule(dynamic: bool, backend: Proxy?)

  class Proxy {
    var bind_proc: Mask
    var frontend: bool
    var stopped: bool
    var defbe: Proxy?
    var switching_rules: seq<Rule>

    /** The masks of the proxy's listeners. */
    var listeners: seq<Mask>

    constructor (bind_proc: Mask, frontend: bool, stopped: bool, listeners: seq<Mask>)
      ensures this.bind_proc == bind_proc && this.frontend == frontend && this.stopped == stopped
      ensures defbe == null && switching_rules == [] && this.listeners == listeners
    {
      this.bind_proc, this.frontend, this.stopped, this.listeners := bind_proc, frontend, stopped, listeners;
      defbe, switching_rules := null, [];
    }
  }

  // ---- What is asked of the masks ----

  type Masks = map<Proxy, Mask>
  type Graph = map<Proxy, set<Proxy>>

  /** The targets that a live frontend names outside dynamic rules. */
  ghost function Targets(p: Proxy): set<Proxy>
    reads p
  {
    if p.frontend && !p.stopped then
      (if p.defbe == null then {} else {p.defbe})
      + set i | 0 <= i < |p.switching_rules| && !p.switching_rules[i].dynamic
        && p.switching_rules[i].backend != null :: p.switching_rules[i].backend
    else {}
  }

  /** All names are resolved. */
  ghost predicate AllResolved(P: set<Proxy>)
    reads P
  {
    forall p :: p in P ==>
      && (p.defbe != null ==> p.defbe in P)
      && forall i :: 0 <= i < |p.switching_rules| && !p.switching_rules[i].dynamic ==> p.switching_rules[i].backend in P
  }

  ghost predicate Resolved(P: set<Proxy>)
    reads P
  {
    AllResolved(P) && forall p :: p in P ==> Targets(p) <= P
  }

  ghost function GraphOf(P: set<Proxy>): (g: Graph)
    reads P
    ensures g.Keys == P
  {
    map p: Proxy | p in P :: Targets(p)
  }

  ghost function MasksOf(P: set<Proxy>): (m: Masks)
    reads P
    ensures m.Keys == P
  {
    map p: Proxy | p in P :: p.bind_proc
  }

  ghost predicate Grown(a: Masks, b: Masks)
  {
    a.Keys == b.Keys && forall p :: p in a ==> a[p] <= b[p]
  }

  ghost predicate ClosedAt(g: Graph, m: Masks, p: Proxy)
  {
    p in g && p in m && forall q :: q in g[p] ==> q in m && m[p] <= m[q]
  }

  /** Every live frontend's mask is included in each static target's mask. */
  ghost predicate Closed(g: Graph, m: Masks)
  {
    g.Keys == m.Keys && forall p :: p in g ==> ClosedAt(g, m, p)
  }

  /** Masks have only grown from a to b, and where they have, they have been passed on. */
  ghost predicate Settled(g: Graph, a: Masks, b: Masks)
  {
    Grown(a, b) && g.Keys == a.Keys && forall p :: p in a && b[p] != a[p] ==> ClosedAt(g, b, p)
  }

  lemma ClosedStays(g: Graph, a: Masks, b: Masks, p: Proxy)
    requires Settled(g, a, b) && ClosedAt(g, a, p)
    ensures ClosedAt(g, b, p)
  {
    if b[p] == a[p] {
      forall q | q in g[p] ensures q in b && b[p] <= b[q] { assert a[q] <= b[q]; }
    }
  }

  lemma SettledTransitive(g: Graph, a: Masks, b: Masks, c: Masks)
    requires Settled(g, a, b) && Settled(g, b, c)
    ensures Settled(g, a, c)
  {
    forall p | p in a && c[p] != a[p] ensures ClosedAt(g, c, p) {
      if b[p] != a[p] { ClosedStays(g, b, c, p); }
    }
  }

  /** One proxy's mask grows, and the targets passed it on. */
  lemma SettledAround(g: Graph, a: Masks, p: Proxy, mask: Mask, b: Masks)
    requires g.Keys == a.Keys && p in a && a[p] <= mask && Settled(g, a[p := mask], b) && ClosedAt(g, b, p)
    ensures Settled(g, a, b)
  {
    assert a[p := mask].Keys == a.Keys;
    forall q | q in a ensures a[q] <= b[q] && (b[q] != a[q] ==> ClosedAt(g, b, q)) {
      if q != p { assert a[p := mask][q] == a[q]; }
    }
  }

  /** Of the targets of p, those in done have p's mask. */
  ghost predicate PassedOn(m: Masks, p: Proxy, done: set<Proxy>)
  {
    p in m && forall q :: q in done ==> q in m && m[p] <= m[q]
  }

  lemma PassedOnStep(g: Graph, a: Masks, b: Masks, p: Proxy, done: set<Proxy>, q: Proxy)
    requires p in g && done <= g[p] && q in g[p] && Settled(g, a, b) && PassedOn(a, p, done) && q in b && b[p] <= b[q]
    ensures PassedOn(b, p, done + {q})
  {
    if b[p] == a[p] {
      forall r | r in done ensures b[p] <= b[r] { assert a[p] <= a[r] <= b[r]; }
    } else {
      assert ClosedAt(g, b, p);
    }
  }

  // ---- Propagation ----

  /** What a call works towards: proxies to unbind if it starts from an unbound one, and else bits to add. */
  ghost function Unbindable(m: Masks, from: Proxy): set<Proxy>
    requires from in m
  {
    if m[from] == {} then set p | p in m && m[p] != {} else {}
  }

  ghost function Missing(m: Masks, word: Mask): set<(Proxy, nat)>
  {
    set p, b | p in m && b in word && b !in m[p] :: (p, b)
  }

  ghost predicate Bounded(m: Masks, word: Mask)
  {
    forall p :: p in m ==> m[p] <= word
  }

  /** Proxies have only been unbound. */
  ghost predicate Unbound(a: Masks, b: Masks)
  {
    a.Keys == b.Keys && forall p :: p in a ==> b[p] == a[p] || b[p] == {}
  }

  /** What a call that starts from a proxy makes of the masks. */
  ghost predicate Propagated(g: Graph, a: Masks, b: Masks, from: Proxy)
    requires from in a
  {
    if a[from] == {} then Unbound(a, b) else Settled(g, a, b)
  }

  lemma MeasureDrops(g: Graph, a: Masks, b: Masks, from: Proxy, word: Mask)
    requires from in a && Propagated(g, a, b, from) && Bounded(a, word)
    ensures b.Keys == a.Keys && (a[from] == {} <==> b[from] == {})
    ensures Unbindable(b, from) <= Unbindable(a, from)
    ensures Unbindable(b, from) == Unbindable(a, from) ==> Missing(b, word) <= Missing(a, word)
  {
    if a[from] == {} && Unbindable(b, from) == Unbindable(a, from) {
      forall p | p in a ensures a[p] == b[p] {
        assert p in Unbindable(a, from) <==> p in Unbindable(b, from);
      }
    }
  }

  lemma PropagatedTransitive(g: Graph, a: Masks, b: Masks, c: Masks, from: Proxy)
    requires from in a && from in b && (a[from] == {} <==> b[from] == {})
    requires Propagated(g, a, b, from) && Propagated(g, b, c, from)
    ensures Propagated(g, a, c, from)
  {
    if a[from] != {} { SettledTransitive(g, a, b, c); }
  }

  /** The binding of to at the start of a call. */
  function Bind(from: Mask, to: Mask): Mask
  {
    if from != {} then to + from else {}
  }

  lemma BindDrops(m: Masks, from: Proxy, to: Proxy, word: Mask)
    requires from in m && to in m && Bounded(m, word)
    requires !(m[from] != {} && m[from] * m[to] == m[from]) && !(m[from] == {} && m[to] == {})
    ensures var m' := m[to := Bind(m[from], m[to])];
      && Bounded(m', word) && (m'[to] == {} <==> m[from] == {})
      && (Unbindable(m', to) < Unbindable(m, from)
        || (Unbindable(m', to) == Unbindable(m, from) && Missing(m', word) < Missing(m, word)))
  {
    var m' := m[to := Bind(m[from], m[to])];
    if m[from] == {} {
      assert to in Unbindable(m, from) && to !in Unbindable(m', to);
    } else {
      var b :| b in m[from] && b !in m[to];
      assert (to, b) in Missing(m, word) && (to, b) !in Missing(m', word);
    }
  }

  /** The loop over the targets of a proxy has dealt with those in done. */
  ghost predicate Descended(g: Graph, a: Masks, b: Masks, from: Proxy, done: set<Proxy>, word: Mask)
  {
    && from in a && from in g && Propagated(g, a, b, from) && from in b && Bounded(b, word) && done <= g[from]
    && (a[from] == {} <==> b[from] == {})
    && (a[from] != {} ==> PassedOn(b, from, done))
  }

  lemma DescendedStep(g: Graph, a: Masks, b: Masks, c: Masks, from: Proxy, done: set<Proxy>, q: Proxy, word: Mask)
    requires Bounded(a, word) && Descended(g, a, b, from, done, word) && q in g[from] && q in c && Bounded(c, word)
    requires Propagated(g, b, c, from) && (a[from] != {} ==> c[from] <= c[q])
    ensures Descended(g, a, c, from, done + {q}, word)
  {
    PropagatedTransitive(g, a, b, c, from);
    if a[from] != {} { PassedOnStep(g, b, c, from, done, q); }
    MeasureDrops(g, a, c, from, word);
  }

  /** At the end, all targets being done. */
  lemma DescendedAll(g: Graph, a: Masks, b: Masks, from: Proxy, word: Mask)
    requires from in g && Descended(g, a, b, from, g[from], word)
    ensures a[from] != {} ==> ClosedAt(g, b, from)
  {
  }

  /** The binding of to, passed on by a call for it, counts as one for from. */
  lemma BoundAndDown(g: Graph, a: Masks, b: Masks, from: Proxy, to: Proxy)
    requires from in a && to in a && from in g && to in g[from] && g.Keys == a.Keys
    requires var a' := a[to := Bind(a[from], a[to])];
      Propagated(g, a', b, to) && to in b && (a[from] != {} ==> ClosedAt(g, b, to))
    ensures Propagated(g, a, b, from)
    ensures a[from] != {} ==> b[from] <= b[to]
  {
    var mask := Bind(a[from], a[to]);
    if a[from] != {} {
      SettledAround(g, a, to, mask, b);
      assert a[to := mask][to] == mask;
      if b[from] != a[from] { assert ClosedAt(g, b, from); } else { assert a[from] <= mask <= b[to]; }
    }
  }

  lemma BoundGrown(g: Graph, a: Masks, from: Proxy, to: Proxy, m: Masks)
    requires from in a && to in a && from in g && to in g[from] && Closed(g, m) && Grown(a, m) && a[from] != {}
    ensures Grown(a[to := Bind(a[from], a[to])], m)
  {
    assert ClosedAt(g, m, from);
  }

  ghost predicate Known(P: set<Proxy>, g: Graph, m: Masks, word: Mask)
    reads P
  {
    Resolved(P) && g == GraphOf(P) && m == MasksOf(P) && Bounded(m, word)
  }

  method SetBinding(p: Proxy, mask: Mask, ghost P: set<Proxy>, ghost g: Graph, ghost m: Masks, ghost word: Mask)
    requires p in P && Known(P, g, m, word) && Bounded(m[p := mask], word)
    modifies p`bind_proc
    ensures Known(P, g, m[p := mask], word)
  {
    p.bind_proc := mask;
    assert GraphOf(P) == g;
  }

  /** The static rules among the first i name targets in done, and done is no more than the targets. */
  ghost predicate Covered(rules: seq<Rule>, i: nat, done: set<Proxy>, targets: set<Proxy>)
  {
    && i <= |rules| && done <= targets
    && (forall j :: 0 <= j < |rules| && !rules[j].dynamic ==> rules[j].backend != null && rules[j].backend in targets)
    && forall j :: 0 <= j < i && !rules[j].dynamic ==> rules[j].backend in done
  }

  /** One more rule is dealt with: it is dynamic, or its target joins those done. */
  lemma CoveredStep(rules: seq<Rule>, i: nat, done: set<Proxy>, targets: set<Proxy>, q: Proxy?)
    requires i < |rules| && Covered(rules, i, done, targets) && rules[i].backend == q
    ensures rules[i].dynamic ==> Covered(rules, i + 1, done, targets)
    ensures !rules[i].dynamic ==> q != null && q in targets && Covered(rules, i + 1, done + {q}, targets)
  {
  }

  lemma TargetsAre(from: Proxy, P: set<Proxy>, g: Graph)
    requires from in P && Resolved(P) && g == GraphOf(P) && from.frontend && !from.stopped
    ensures Covered(from.switching_rules, 0, {}, g[from])
    ensures from.defbe != null ==> from.defbe in g[from]
    ensures forall done ::
      Covered(from.switching_rules, |from.switching_rules|, done, g[from])
      && (from.defbe != null ==> from.defbe in done)
      ==> done == g[from]
  {
    assert g[from] == Targets(from);
  }

  /** propagate_processes, from the point where the proxy to descend from is known. */
  method PropagateDown(from: Proxy, ghost P: set<Proxy>, ghost g: Graph, ghost a: Masks, ghost word: Mask)
    returns (ghost b: Masks)
    requires from in P && Known(P, g, a, word)
    modifies P`bind_proc
    ensures Known(P, g, b, word) && Propagated(g, a, b, from)
    ensures a[from] != {} ==> ClosedAt(g, b, from)
    ensures g[from] == {} ==> b == a
    ensures forall m: Masks :: a[from] != {} && Closed(g, m) && Grown(a, m) ==> Grown(b, m)
    decreases Unbindable(a, from), Missing(a, word), 3
  {
    b := a;
    if !from.frontend || from.stopped { return; }
    TargetsAre(from, P, g);
    var rules, defbe := from.switching_rules, from.defbe;
    ghost var done: set<Proxy> := {};
    if defbe != null {
      b := PropagateTo(from, defbe, P, g, a, a, word, {});
      done := {defbe};
      MeasureDrops(g, a, b, from, word);
    }
    b, done := PropagateRules(from, rules, P, g, a, b, word, done);
    assert done == g[from];
    DescendedAll(g, a, b, from, word);
  }

  /** The loop over the use_backend rules. */
  method PropagateRules(from: Proxy, rules: seq<Rule>, ghost P: set<Proxy>, ghost g: Graph, ghost a: Masks,
      ghost b0: Masks, ghost word: Mask, ghost done0: set<Proxy>)
    returns (ghost b: Masks, ghost done: set<Proxy>)
    requires from in P && Known(P, g, b0, word) && Bounded(a, word) && Descended(g, a, b0, from, done0, word)
    requires Covered(rules, 0, done0, g[from]) && (done0 == {} ==> b0 == a)
    modifies P`bind_proc
    ensures Known(P, g, b, word) && Descended(g, a, b, from, done, word)
    ensures Covered(rules, |rules|, done, g[from]) && done0 <= done && (done == {} ==> b == a)
    ensures forall m: Masks :: a[from] != {} && Closed(g, m) && Grown(b0, m) ==> Grown(b, m)
    decreases Unbindable(b0, from), Missing(b0, word), 2
  {
    b, done := b0, done0;
    var i := 0;
    while i < |rules|
      invariant Known(P, g, b, word) && Descended(g, a, b, from, done, word) && Propagated(g, b0, b, from)
      invariant forall m: Masks :: a[from] != {} && Closed(g, m) && Grown(b0, m) ==> Grown(b, m)
      invariant Covered(rules, i, done, g[from]) && done0 <= done && (done == {} ==> b == a)
    {
      var rule := rules[i];
      CoveredStep(rules, i, done, g[from], rule.backend);
      i := i + 1;
      if rule.dynamic { continue; }
      MeasureDrops(g, b0, b, from, word);
      ghost var b' := PropagateTo(from, rule.backend, P, g, a, b, word, done);
      PropagatedTransitive(g, b0, b, b', from);
      b, done := b', done + {rule.backend};
    }
  }

  /** One of the calls on the targets of from, after those in done. */
  method PropagateTo(from: Proxy, to: Proxy, ghost P: set<Proxy>, ghost g: Graph, ghost a: Masks, ghost b: Masks,
      ghost word: Mask, ghost done: set<Proxy>)
    returns (ghost b': Masks)
    requires from in P && Known(P, g, b, word) && Bounded(a, word) && Descended(g, a, b, from, done, word)
      && to in g[from]
    modifies P`bind_proc
    ensures Known(P, g, b', word) && Descended(g, a, b', from, done + {to}, word) && Propagated(g, b, b', from)
    ensures forall m: Masks :: a[from] != {} && Closed(g, m) && Grown(b, m) ==> Grown(b', m)
    decreases Unbindable(b, from), Missing(b, word), 1
  {
    b' := Propagate(from, to, P, g, b, word);
    DescendedStep(g, a, b, b', from, done, to, word);
  }

  /** propagate_processes. */
  method Propagate(from: Proxy, to: Proxy?, ghost P: set<Proxy>, ghost g: Graph, ghost a: Masks, ghost word: Mask)
    returns (ghost b: Masks)
    requires from in P && Known(P, g, a, word)
    requires to != null ==> to in g[from]
    modifies P`bind_proc
    ensures Known(P, g, b, word) && Propagated(g, a, b, from)
    ensures to == null && g[from] == {} ==> b == a
    ensures a[from] != {} ==> if to == null then ClosedAt(g, b, from) else to in b && b[from] <= b[to]
    ensures forall m: Masks :: a[from] != {} && Closed(g, m) && Grown(a, m) ==> Grown(b, m)
    decreases Unbindable(a, from), Missing(a, word), if to == null then 4 else 0
  {
    b := a;
    if to == null {
      b := PropagateDown(from, P, g, a, word);
      return;
    }
    assert to in P && a[from] == from.bind_proc && a[to] == to.bind_proc;
    if from.bind_proc != {} && from.bind_proc * to.bind_proc == from.bind_proc { return; }
    if from.bind_proc == {} && to.bind_proc == {} { return; }
    BindDrops(a, from, to, word);
    ghost var a' := a[to := Bind(a[from], a[to])];
    SetBinding(to, Bind(from.bind_proc, to.bind_proc), P, g, a, word);
    b := PropagateDown(to, P, g, a', word);
    BoundAndDown(g, a, b, from, to);
    forall m: Masks | a[from] != {} && Closed(g, m) && Grown(a, m) ensures Grown(b, m) {
      BoundGrown(g, a, from, to, m);
    }
  }

  /** One round of the loop over the proxies. */
  method PropagateFrom(curproxy: Proxy, ghost P: set<Proxy>, ghost g: Graph, ghost a: Masks, ghost word: Mask)
    returns (ghost b: Masks)
    requires curproxy in P && Known(P, g, a, word)
    requires g[curproxy] != {} ==> a[curproxy] != {}
    modifies P`bind_proc
    ensures Known(P, g, b, word) && Settled(g, a, b) && ClosedAt(g, b, curproxy)
    ensures forall m: Masks :: Closed(g, m) && Grown(a, m) ==> Grown(b, m)
  {
    b := a;
    assert g[curproxy] == Targets(curproxy);
    if curproxy.frontend {
      b := Propagate(curproxy, null, P, g, a, word);
    }
  }

  /** The first i proxies have passed their masks on. */
  ghost predicate ClosedUpTo(g: Graph, m: Masks, proxies: seq<Proxy>, i: nat)
  {
    i <= |proxies| && forall j :: 0 <= j < i ==> ClosedAt(g, m, proxies[j])
  }

  lemma ClosedUpToStep(g: Graph, a: Masks, b: Masks, proxies: seq<Proxy>, i: nat)
    requires i < |proxies| && ClosedUpTo(g, a, proxies, i) && Settled(g, a, b) && ClosedAt(g, b, proxies[i])
    ensures ClosedUpTo(g, b, proxies, i + 1)
  {
    forall j | 0 <= j < i + 1 ensures ClosedAt(g, b, proxies[j]) {
      if j < i { ClosedStays(g, a, b, proxies[j]); }
    }
  }

  method PropagateEach(proxies: seq<Proxy>, ghost P: set<Proxy>, ghost g: Graph, ghost a: Masks, ghost word: Mask)
    returns (ghost b: Masks)
    requires (forall i :: 0 <= i < |proxies| ==> proxies[i] in P) && Known(P, g, a, word)
    requires forall p :: p in g && g[p] != {} ==> a[p] != {}
    modifies P`bind_proc
    ensures Known(P, g, b, word) && Grown(a, b) && ClosedUpTo(g, b, proxies, |proxies|)
    ensures forall m: Masks :: Closed(g, m) && Grown(a, m) ==> Grown(b, m)
  {
    b := a;
    var i := 0;
    while i < |proxies|
      invariant 0 <= i <= |proxies| && Known(P, g, b, word) && Settled(g, a, b)
      invariant ClosedUpTo(g, b, proxies, i)
      invariant forall m: Masks :: Closed(g, m) && Grown(a, m) ==> Grown(b, m)
    {
      var curproxy := proxies[i];
      assert a[curproxy] <= b[curproxy];
      ghost var b' := PropagateFrom(curproxy, P, g, b, word);
      SettledTransitive(g, a, b, b');
      ClosedUpToStep(g, b, b', proxies, i);
      b, i := b', i + 1;
    }
  }

  lemma ClosedOnAll(g: Graph, b: Masks, proxies: seq<Proxy>)
    requires g.Keys == b.Keys && (forall p :: p in g ==> p in proxies)
    requires ClosedUpTo(g, b, proxies, |proxies|)
    ensures Closed(g, b)
  {
  }

  /** Each live frontend's mask is included in that of its default backend and of those its static rules name. */
  ghost predicate Passes(P: set<Proxy>, m: Masks)
    reads P
  {
    m.Keys == P && forall p :: p in P && p.frontend && !p.stopped ==>
      && (p.defbe != null ==> p.defbe in P && m[p] <= m[p.defbe])
      && forall i :: 0 <= i < |p.switching_rules| && !p.switching_rules[i].dynamic ==>
        p.switching_rules[i].backend in P && m[p] <= m[p.switching_rules[i].backend]
  }

  lemma PassesIff(P: set<Proxy>, g: Graph, m: Masks)
    requires Resolved(P) && g == GraphOf(P) && m.Keys == P
    ensures Passes(P, m) <==> Closed(g, m)
  {
    if Passes(P, m) {
      forall p | p in P ensures ClosedAt(g, m, p) { assert g[p] == Targets(p); }
    }
    if Closed(g, m) {
      forall p | p in P && p.frontend && !p.stopped
        ensures p.defbe != null ==> m[p] <= m[p.defbe]
        ensures forall i :: 0 <= i < |p.switching_rules| && !p.switching_rules[i].dynamic ==>
          p.switching_rules[i].backend in g[p] && m[p] <= m[p.switching_rules[i].backend]
      {
        assert g[p] == Targets(p) && ClosedAt(g, m, p);
      }
    }
  }

  /** A live frontend that is bound to no process in particular has nowhere to pass that on to. */
  ghost predicate UnboundLeadNowhere(P: set<Proxy>)
    reads P
  {
    forall p :: p in P && p.frontend && !p.stopped && p.bind_proc == {} ==>
      p.defbe == null && forall i :: 0 <= i < |p.switching_rules| ==> p.switching_rules[i].dynamic
  }

  /** From masks of which none of a live frontend with targets is empty the least masks that are closed. */
  method PropagateClosed(proxies: seq<Proxy>, ghost P: set<Proxy>, ghost g: Graph, ghost a: Masks, ghost word: Mask)
    returns (ghost b: Masks)
    requires (forall p :: p in g ==> p in proxies) && (forall i :: 0 <= i < |proxies| ==> proxies[i] in P)
      && Known(P, g, a, word)
    requires forall p :: p in g && g[p] != {} ==> a[p] != {}
    modifies P`bind_proc
    ensures Known(P, g, b, word) && Grown(a, b) && Closed(g, b)
    ensures forall m: Masks :: Closed(g, m) && Grown(a, m) ==> Grown(b, m)
  {
    b := PropagateEach(proxies, P, g, a, word);
    ClosedOnAll(g, b, proxies);
  }

  lemma Starting(P: set<Proxy>, word: Mask)
    requires AllResolved(P) && UnboundLeadNowhere(P) && forall p :: p in P ==> p.bind_proc <= word
    ensures Resolved(P) && Bounded(MasksOf(P), word)
    ensures forall p :: p in P && GraphOf(P)[p] != {} ==> MasksOf(P)[p] != {}
  {
    forall p | p in P ensures Targets(p) <= P && (Targets(p) != {} ==> p.bind_proc != {}) {}
  }

  /** The propagation in check_config_validity, over all proxies: the masks become the least ones, above those they
      were, such that every live frontend's mask is included in those of its targets. */
  method PropagateAll(proxies: seq<Proxy>)
    requires var P := set p | p in proxies; AllResolved(P) && UnboundLeadNowhere(P)
    modifies proxies`bind_proc
    ensures var P := set p | p in proxies; var masks, before := MasksOf(P), old(MasksOf(P));
      && Passes(P, masks) && Grown(before, masks)
      && forall m: Masks :: Passes(P, m) && Grown(before, m) ==> Grown(masks, m)
  {
    ghost var P := set p | p in proxies;
    ghost var g, a, word := GraphOf(P), MasksOf(P), set p, b | p in P && b in p.bind_proc :: b;
    Starting(P, word);
    ghost var b := PropagateClosed(proxies, P, g, a, word);
    PassesIff(P, g, b);
    forall m: Masks | Passes(P, m) && Grown(a, m) ensures Grown(b, m) { PassesIff(P, g, m); }
  }

  // ---- The masks before and after ----

  /** No mask stands for all processes. */
  function ProcMask(mask: Mask, all: Mask): Mask
  {
    if mask != {} then mask else all
  }

  /** The mask a proxy starts with: its own if it has one, else the processes of its listeners, and all of them if it
      has no listener, or one without a mask. */
  ghost function Inherited(p: Proxy, all: Mask): Mask
    reads p
  {
    if p.bind_proc != {} then p.bind_proc
    else
      (set i, b | 0 <= i < |p.listeners| && b in p.listeners[i] :: b)
      + if p.listeners == [] || {} in p.listeners then all else {}
  }

  method Inherit(curproxy: Proxy, all: Mask)
    requires all != {}
    modifies curproxy`bind_proc
    ensures curproxy.bind_proc == old(Inherited(curproxy, all)) && curproxy.bind_proc != {}
  {
    if curproxy.bind_proc != {} { return; }
    var listeners := curproxy.listeners;
    for i := 0 to |listeners|
      invariant curproxy.bind_proc ==
        (set j, b | 0 <= j < i && b in listeners[j] :: b) + if {} in listeners[..i] then all else {}
      invariant i > 0 ==> curproxy.bind_proc != {}
    {
      var mask := ProcMask(listeners[i], all);
      curproxy.bind_proc := curproxy.bind_proc + mask;
      assert listeners[..i + 1] == listeners[..i] + [listeners[i]];
    }
    assert listeners[..|listeners|] == listeners;
    curproxy.bind_proc := ProcMask(curproxy.bind_proc, all);
  }

  ghost function InheritedAll(P: set<Proxy>, all: Mask): (m: Masks)
    reads P
    ensures m.Keys == P
  {
    map p: Proxy | p in P :: Inherited(p, all)
  }

  /** The loop before the propagation. */
  method InheritEach(proxies: seq<Proxy>, all: Mask, ghost P: set<Proxy>)
    requires all != {} && P == set p | p in proxies
    modifies proxies`bind_proc
    ensures MasksOf(P) == old(InheritedAll(P, all)) && forall p :: p in P ==> p.bind_proc != {}
  {
    for i := 0 to |proxies|
      invariant forall j :: 0 <= j < i ==> proxies[j].bind_proc != {}
      invariant forall p :: p in P ==> Inherited(p, all) == old(Inherited(p, all))
    {
      Inherit(proxies[i], all);
    }
  }

  /** The part of check_config_validity about masks, without errors in the configuration. Every proxy ends up with a
      mask, and the masks are the least ones above those inherited such that every live frontend's mask is included in
      those of its targets. */
  method BindProcesses(proxies: seq<Proxy>, all: Mask)
    requires all != {} && AllResolved(set p | p in proxies)
    modifies proxies`bind_proc
    ensures var P := set p | p in proxies; var masks, before := MasksOf(P), old(InheritedAll(P, all));
      && (forall p :: p in P ==> p.bind_proc != {})
      && Passes(P, masks) && Grown(before, masks)
      && forall m: Masks :: Passes(P, m) && Grown(before, m) ==> Grown(masks, m)
  {
    ghost var P := set p | p in proxies;
    InheritEach(proxies, all, P);
    ghost var a := MasksOf(P);
    PropagateAll(proxies);
    ghost var b := MasksOf(P);
    forall p | p in P ensures p.bind_proc != {} { assert a[p] <= b[p]; }
    for i := 0 to |proxies|
      invariant MasksOf(P) == b
    {
      var curproxy := proxies[i];
      curproxy.bind_proc := ProcMask(curproxy.bind_proc, all);
    }
  }
}
