/** Choosing an egress proxy by load, one decision at a time and over whole runs of decisions. */
module Egress {
  import opened Wrappers
  import Text

  datatype Lifecycle = Active | Draining | Disabled | Archived

  datatype Health =
    Unknown | Probing | Healthy | UnhealthyDns | UnhealthyConnect | UnhealthyAuth | UnhealthyTunnel | UnhealthyTlsPassthrough

  datatype Stability = Static | Dynamic

  datatype Policy = Direct | Auto | ProxyRequired

  datatype Candidate = Candidate(id: string, lifecycle: Lifecycle, health: Health, stability: Stability,
                                 bound: nat, max: nat, inWindow: bool)

  datatype Decision = GoDirect | Proxy(id: string) | WaitForEgress

  /** Everything but the capacity speaks for the proxy. */
  predicate Usable(p: Candidate) {
    p.lifecycle.Active? && p.health.Healthy? && p.stability.Static? && p.inWindow
  }

  predicate Eligible(p: Candidate) {
    Usable(p) && p.bound < p.max && p.max > 0
  }

  /** Less loaded, compared by cross-multiplication; ties go to the smaller identifier. */
  predicate Before(a: Candidate, b: Candidate) {
    a.bound * b.max < b.bound * a.max || (a.bound * b.max == b.bound * a.max && Text.Less(a.id, b.id))
  }

  /** The first of the least eligible candidates. */
  function Least(ps: seq<Candidate>): Option<Candidate> {
    if ps == [] then None else
      var best, last := Least(ps[..|ps| - 1]), ps[|ps| - 1];
      if !Eligible(last) then best
      else if best.None? || Before(last, best.value) then Some(last)
      else best
  }

  function Choose(policy: Policy, ps: seq<Candidate>): Decision {
    if policy.Direct? then GoDirect else
      match Least(ps)
      case Some(p) => Proxy(p.id)
      case None => WaitForEgress
  }

  // ----- the order -----

  lemma Cancel(n: nat, x: nat, y: nat)
    requires n > 0
    ensures n * x <= n * y ==> x <= y
    ensures n * x < n * y ==> x < y
  {
    if x > y { assert n * x == n * y + n * (x - y); }
    if x == y { assert n * x == n * y; }
  }

  lemma MulMono(n: nat, x: nat, y: nat)
    ensures x <= y ==> n * x <= n * y
    ensures x < y && n > 0 ==> n * x < n * y
  {
    if x <= y { assert n * y == n * x + n * (y - x); }
  }

  /** The cross-multiplied comparison is transitive, strictly if either step is strict. */
  lemma LoadTransitive(a: Candidate, b: Candidate, c: Candidate)
    requires a.max > 0 && b.max > 0 && c.max > 0
    requires a.bound * b.max <= b.bound * a.max && b.bound * c.max <= c.bound * b.max
    ensures a.bound * c.max <= c.bound * a.max
    ensures a.bound * b.max < b.bound * a.max || b.bound * c.max < c.bound * b.max ==> a.bound * c.max < c.bound * a.max
  {
    var left, mid, right := b.max * (a.bound * c.max), b.bound * a.max * c.max, b.max * (c.bound * a.max);
    assert left == c.max * (a.bound * b.max) && mid == c.max * (b.bound * a.max);
    assert mid == a.max * (b.bound * c.max) && right == a.max * (c.bound * b.max);
    MulMono(c.max, a.bound * b.max, b.bound * a.max);
    MulMono(a.max, b.bound * c.max, c.bound * b.max);
    Cancel(b.max, a.bound * c.max, c.bound * a.max);
  }

  /** On eligible candidates with distinct identifiers the order is a strict total order. */
  lemma BeforeIsTotal(a: Candidate, b: Candidate, c: Candidate)
    requires Eligible(a) && Eligible(b) && Eligible(c)
    ensures !Before(a, a) && !(Before(a, b) && Before(b, a))
    ensures Before(a, b) || Before(b, a) || a.id == b.id
    ensures Before(a, b) && Before(b, c) ==> Before(a, c)
    ensures !Before(b, a) && !Before(c, b) ==> !Before(c, a)
  {
    Text.LessTotal(a.id, a.id);
    Text.LessTotal(a.id, b.id);
    Text.LessTotal(b.id, c.id);
    Text.LessTotal(a.id, c.id);
    BeforeTransitive(a, b, c);
    if !Before(b, a) && !Before(c, b) {
      LoadTransitive(a, b, c);
      if a.id != b.id && b.id != c.id && Text.Less(a.id, b.id) && Text.Less(b.id, c.id) {
        Text.LessTransitive(a.id, b.id, c.id);
      }
    }
  }

  lemma BeforeTransitive(a: Candidate, b: Candidate, c: Candidate)
    requires Eligible(a) && Eligible(b) && Eligible(c)
    ensures Before(a, b) && Before(b, c) ==> Before(a, c)
  {
    if Before(a, b) && Before(b, c) {
      LoadTransitive(a, b, c);
      if Text.Less(a.id, b.id) && Text.Less(b.id, c.id) { Text.LessTransitive(a.id, b.id, c.id); }
    }
  }

  // ----- one decision -----

  /** A candidate is chosen exactly when one is eligible, and no eligible one comes before it. */
  lemma {:induction false} LeastIsMinimum(ps: seq<Candidate>)
    ensures Least(ps).None? <==> forall p :: p in ps ==> !Eligible(p)
    ensures Least(ps).Some? ==>
              && Least(ps).value in ps && Eligible(Least(ps).value)
              && forall p :: p in ps && Eligible(p) ==> !Before(p, Least(ps).value)
  {
    if ps != [] {
      var init, last := ps[..|ps| - 1], ps[|ps| - 1];
      assert ps == init + [last];
      LeastIsMinimum(init);
      if Eligible(last) { BeforeIsTotal(last, last, last); }
      if Eligible(last) && Least(init).Some? {
        var best := Least(init).value;
        forall p | p in init && Eligible(p) ensures Before(last, best) ==> !Before(p, last) {
          BeforeIsTotal(last, best, p);
        }
      }
    }
  }

  /** The decision does not depend on the order, nor on repetitions, of the list. */
  lemma ChoiceIsOrderFree(policy: Policy, ps: seq<Candidate>, qs: seq<Candidate>)
    requires forall p :: p in ps <==> p in qs
    ensures Choose(policy, ps) == Choose(policy, qs)
  {
    LeastIsMinimum(ps);
    LeastIsMinimum(qs);
    if Least(ps).Some? {
      BeforeIsTotal(Least(ps).value, Least(qs).value, Least(ps).value);
    }
  }

  // ----- runs of decisions -----

  ghost predicate Distinct(ps: seq<Candidate>) {
    forall i, j :: 0 <= i < j < |ps| ==> ps[i].id != ps[j].id
  }

  /** A decision for a proxy adds one binding to it. */
  function Bind(ps: seq<Candidate>, d: Decision): seq<Candidate> {
    if ps == [] || !d.Proxy? then ps
    else if ps[0].id == d.id then [OneMore(ps[0])] + ps[1..]
    else [ps[0]] + Bind(ps[1..], d)
  }

  /** The candidates after `n` decisions. */
  function Run(policy: Policy, ps: seq<Candidate>, n: nat): seq<Candidate> {
    if n == 0 then ps else
      var before := Run(policy, ps, n - 1);
      Bind(before, Choose(policy, before))
  }

  ghost predicate SameButBound(ps: seq<Candidate>, qs: seq<Candidate>) {
    |ps| == |qs| && forall i :: 0 <= i < |ps| ==> qs[i] == ps[i].(bound := qs[i].bound)
  }

  lemma {:induction false} BindIs(ps: seq<Candidate>, i: nat)
    requires Distinct(ps) && i < |ps|
    ensures Bind(ps, Proxy(ps[i].id)) == ps[i := OneMore(ps[i])]
  {
    if i > 0 { BindIs(ps[1..], i - 1); }
  }

  /** Before its last binding `a` was at most as loaded as `b` is now. */
  predicate Level(a: Candidate, b: Candidate) {
    a.bound > 0 ==> (a.bound - 1) * b.max <= b.bound * a.max
  }

  predicate Contained(p: Candidate) {
    p.bound <= p.max && (!Usable(p) ==> p.bound == 0)
  }

  /** No proxy holds more than its maximum, none that is not usable holds any, and loads are
      balanced to within one binding. */
  ghost predicate Balanced(ps: seq<Candidate>) {
    && (forall i :: 0 <= i < |ps| ==> Contained(ps[i]))
    && forall i, j :: 0 <= i < |ps| && 0 <= j < |ps| && Usable(ps[i]) && Usable(ps[j]) ==> Level(ps[i], ps[j])
  }

  function OneMore(p: Candidate): Candidate {
    p.(bound := p.bound + 1)
  }

  lemma LevelOther(a: Candidate, b: Candidate)
    requires Level(a, b)
    ensures Level(a, OneMore(b))
  {
    MulMono(a.max, b.bound, b.bound + 1);
  }

  /** The least loaded proxy is at most as loaded as any usable one, full ones included. */
  lemma {:induction false} LeastIsLevel(ps: seq<Candidate>, c: Candidate, p: Candidate)
    requires Least(ps) == Some(c) && p in ps && Usable(p) && p.bound <= p.max
    ensures Level(OneMore(c), p) && Level(OneMore(c), OneMore(c))
  {
    LeastIsMinimum(ps);
    if p.bound == p.max {
      MulMono(p.max, c.bound, c.max);
    }
    MulMono(c.max, c.bound, c.bound + 1);
  }

  lemma BindKeepsBalance(ps: seq<Candidate>, c: nat)
    requires Balanced(ps) && c < |ps| && Least(ps) == Some(ps[c])
    ensures Balanced(ps[c := OneMore(ps[c])])
  {
    LeastIsMinimum(ps);
    var qs := ps[c := OneMore(ps[c])];
    forall i, j | 0 <= i < |qs| && 0 <= j < |qs| && Usable(qs[i]) && Usable(qs[j])
      ensures Level(qs[i], qs[j])
    {
      assert Usable(ps[i]) && Usable(ps[j]) && Level(ps[i], ps[j]) && Contained(ps[j]);
      if i == c { LeastIsLevel(ps, ps[c], ps[j]); } else { LevelOther(ps[i], ps[j]); }
    }
  }

  /** Bindings held in total, and the capacity of the usable proxies. */
  function Total(ps: seq<Candidate>): nat {
    if ps == [] then 0 else ps[0].bound + Total(ps[1..])
  }

  function Capacity(ps: seq<Candidate>): nat {
    if ps == [] then 0 else (if Usable(ps[0]) then ps[0].max else 0) + Capacity(ps[1..])
  }

  lemma {:induction false} TotalBind(ps: seq<Candidate>, c: nat)
    requires c < |ps|
    ensures Total(ps[c := OneMore(ps[c])]) == Total(ps) + 1
  {
    var qs := ps[c := OneMore(ps[c])];
    if c == 0 {
      assert qs[1..] == ps[1..];
    } else {
      assert qs[1..] == ps[1..][c - 1 := OneMore(ps[1..][c - 1])];
      TotalBind(ps[1..], c - 1);
    }
  }

  /** The total is at most the capacity, and meets it exactly when every usable proxy is full. */
  lemma {:induction false} TotalMeetsCapacity(ps: seq<Candidate>)
    requires forall i :: 0 <= i < |ps| ==> Contained(ps[i])
    ensures Total(ps) <= Capacity(ps)
    ensures Total(ps) == Capacity(ps) <==> forall p :: p in ps && Usable(p) ==> p.bound == p.max
  {
    if ps != [] {
      TotalMeetsCapacity(ps[1..]);
      assert ps == [ps[0]] + ps[1..];
    }
  }

  lemma {:induction false} SameCapacity(ps: seq<Candidate>, qs: seq<Candidate>)
    requires SameButBound(ps, qs)
    ensures Capacity(ps) == Capacity(qs)
  {
    if ps != [] { SameCapacity(ps[1..], qs[1..]); }
  }

  /** One decision keeps the balance and binds unless all capacity is used. */
  lemma {:induction false} StepIsFair(policy: Policy, ps: seq<Candidate>)
    requires !policy.Direct? && Distinct(ps) && Balanced(ps)
    ensures var after := Bind(ps, Choose(policy, ps));
            && SameButBound(ps, after) && Balanced(after)
            && Total(after) == if Total(ps) < Capacity(ps) then Total(ps) + 1 else Total(ps)
  {
    StepCounts(ps);
    if Least(ps).Some? { BoundIsFair(ps); }
  }

  lemma {:induction false} BoundIsFair(ps: seq<Candidate>)
    requires Distinct(ps) && Balanced(ps) && Least(ps).Some?
    ensures var after := Bind(ps, Proxy(Least(ps).value.id));
            SameButBound(ps, after) && Balanced(after) && Total(after) == Total(ps) + 1
  {
    LeastIsMinimum(ps);
    var c :| 0 <= c < |ps| && ps[c] == Least(ps).value;
    BindIs(ps, c);
    BindKeepsBalance(ps, c);
    TotalBind(ps, c);
  }

  lemma {:induction false} StepCounts(ps: seq<Candidate>)
    requires Balanced(ps)
    ensures Least(ps).Some? <==> Total(ps) < Capacity(ps)
    ensures Total(ps) <= Capacity(ps)
  {
    LeastIsMinimum(ps);
    TotalMeetsCapacity(ps);
    forall p | p in ps ensures Eligible(p) <==> Usable(p) && p.bound < p.max {
      var i :| 0 <= i < |ps| && ps[i] == p;
    }
    assert forall p :: p in ps ==> p.bound <= p.max;
  }

  /** Over any run of decisions that starts without bindings: no proxy exceeds its maximum, loads
      stay balanced to within one binding, and every decision binds until all capacity is used. */
  lemma {:induction false} RunIsFair(policy: Policy, ps: seq<Candidate>, n: nat)
    requires !policy.Direct? && Distinct(ps) && forall p :: p in ps ==> p.bound == 0
    ensures var after := Run(policy, ps, n);
            && SameButBound(ps, after) && Balanced(after)
            && Total(after) == if n < Capacity(ps) then n else Capacity(ps)
  {
    if n == 0 {
      EmptyIsBalanced(ps);
    } else {
      RunIsFair(policy, ps, n - 1);
      var before := Run(policy, ps, n - 1);
      SameCapacity(ps, before);
      SameChains(ps, before, Bind(before, Choose(policy, before)));
      StepIsFair(policy, before);
    }
  }

  lemma {:induction false} EmptyIsBalanced(ps: seq<Candidate>)
    requires forall p :: p in ps ==> p.bound == 0
    ensures SameButBound(ps, ps) && Balanced(ps) && Total(ps) == 0
  {
    EmptyTotal(ps);
    assert forall i :: 0 <= i < |ps| ==> ps[i] in ps;
  }

  lemma SameChains(ps: seq<Candidate>, qs: seq<Candidate>, rs: seq<Candidate>)
    requires SameButBound(ps, qs)
    ensures SameButBound(qs, rs) ==> SameButBound(ps, rs)
    ensures Distinct(ps) ==> Distinct(qs)
  {
    assert forall i :: 0 <= i < |ps| ==> qs[i].id == ps[i].id;
  }

  lemma {:induction false} EmptyTotal(ps: seq<Candidate>)
    requires forall p :: p in ps ==> p.bound == 0
    ensures Total(ps) == 0
  {
    if ps != [] {
      assert ps[0] in ps && forall p :: p in ps[1..] ==> p in ps;
      EmptyTotal(ps[1..]);
    }
  }

  /** `q` is loaded at least as much as `p`, and if just as much its identifier is not smaller. */
  predicate NoBetter(q: Candidate, p: Candidate) {
    p.bound * q.max <= q.bound * p.max && (p.bound * q.max == q.bound * p.max ==> !Text.Less(q.id, p.id))
  }

  /** A proxy can be chosen when it is active, healthy, static, within its validity and not full. */
  lemma EligibleIff(p: Candidate)
    ensures Eligible(p) <==>
              p.lifecycle == Active && p.health == Healthy && p.stability == Static && p.inWindow && p.bound < p.max
  {
  }

  /** The direct policy bypasses the proxies, and nothing else does; otherwise the decision is an
      eligible proxy that no eligible one comes before, or to wait if there is none. */
  lemma ChoiceIs(policy: Policy, ps: seq<Candidate>)
    ensures Choose(policy, ps) == GoDirect <==> policy == Direct
    ensures policy != Direct ==>
              if forall p :: p in ps ==> !Eligible(p) then Choose(policy, ps) == WaitForEgress
              else exists p :: p in ps && Eligible(p) && Choose(policy, ps) == Proxy(p.id)
                               && forall q :: q in ps && Eligible(q) ==> NoBetter(q, p)
  {
    LeastIsMinimum(ps);
  }

  /** In such a run a decision waits for egress exactly when every usable proxy is full, which is
      after as many decisions as there is capacity. */
  lemma {:induction false} WaitsOnlyWhenFull(policy: Policy, ps: seq<Candidate>, n: nat)
    requires !policy.Direct? && Distinct(ps) && forall p :: p in ps ==> p.bound == 0
    ensures var after := Run(policy, ps, n);
            && (Choose(policy, after) == WaitForEgress <==> forall p :: p in after && Usable(p) ==> p.bound == p.max)
            && (Choose(policy, after) == WaitForEgress <==> n >= Capacity(ps))
  {
    RunIsFair(policy, ps, n);
    var after := Run(policy, ps, n);
    LeastIsMinimum(after);
    TotalMeetsCapacity(after);
    SameCapacity(ps, after);
    assert forall p :: p in after ==> p.bound <= p.max;
  }
}
