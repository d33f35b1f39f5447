/** Choosing an archetype version with a probability proportional to its allocation weight. */
module Archetype {
  import opened Wrappers

  const MAX_U64: nat := 0xFFFF_FFFF_FFFF_FFFF

  datatype Candidate = Candidate(id: string, compatible: bool, active: bool, bundleActive: bool,
                                 inUse: nat, max: nat, weight: nat)

  predicate Eligible(c: Candidate) {
    c.compatible && c.active && c.bundleActive && c.inUse < c.max && c.weight > 0
  }

  function Filter(cs: seq<Candidate>): (r: seq<Candidate>)
    ensures forall c :: c in r <==> c in cs && Eligible(c)
  {
    if cs == [] then [] else
      var init, last := cs[..|cs| - 1], cs[|cs| - 1];
      assert cs == init + [last];
      Filter(init) + if Eligible(last) then [last] else []
  }

  function Sum(cs: seq<Candidate>): nat {
    if cs == [] then 0 else Sum(cs[..|cs| - 1]) + cs[|cs| - 1].weight
  }

  function Saturated(n: nat): nat { if n <= MAX_U64 then n else MAX_U64 }

  /** Where the weights of the candidates before position `i` end. */
  function Offset(cs: seq<Candidate>, i: nat): nat
    requires i <= |cs|
  {
    Sum(cs[..i])
  }

  /** The candidate whose share of the line holds the point. */
  ghost predicate Holds(cs: seq<Candidate>, i: nat, point: nat) {
    i < |cs| && Offset(cs, i) <= point < Offset(cs, i) + cs[i].weight
  }

  /** The seed's residue lies in the share of position `i` of the eligible candidates. */
  ghost predicate Selects(cs: seq<Candidate>, seed: nat, i: nat) {
    var total := Saturated(Sum(Filter(cs)));
    total > 0 && Holds(Filter(cs), i, seed % total)
  }

  method CollectEligible(cs: seq<Candidate>) returns (eligible: seq<Candidate>)
    ensures eligible == Filter(cs)
  {
    var k := 0;
    eligible := [];
    while k < |cs|
      invariant 0 <= k <= |cs| && eligible == Filter(cs[..k])
    {
      assert cs[..k + 1][..k] == cs[..k];
      if Eligible(cs[k]) {
        eligible := eligible + [cs[k]];
      }
      k := k + 1;
    }
    assert cs[..k] == cs;
  }

  method TotalWeight(cs: seq<Candidate>) returns (total: nat)
    ensures total == Saturated(Sum(cs))
  {
    var j := 0;
    total := 0;
    while j < |cs|
      invariant 0 <= j <= |cs| && total == Saturated(Sum(cs[..j]))
    {
      assert cs[..j + 1][..j] == cs[..j];
      total := Saturated(total + cs[j].weight);
      j := j + 1;
    }
    assert cs[..j] == cs;
  }

  /** Walk along the weights to the share that holds the point. */
  method Walk(eligible: seq<Candidate>, start: nat) returns (id: Option<string>)
    requires start < Sum(eligible)
    ensures id.Some? && exists i: nat :: Holds(eligible, i, start) && id.value == eligible[i].id
  {
    var point: nat, i: nat := start, 0;
    assert eligible[..|eligible|] == eligible;
    while i < |eligible|
      invariant 0 <= i <= |eligible| && Offset(eligible, i) + point == start
    {
      if point < eligible[i].weight {
        assert Holds(eligible, i, start);
        return Some(eligible[i].id);
      }
      OffsetStep(eligible, i);
      point := point - eligible[i].weight;
      i := i + 1;
    }
    id := None;
  }

  /** The choice: nothing exactly when nobody is eligible, otherwise the candidate whose share
      holds the seed's residue. */
  method Choose(cs: seq<Candidate>, seed: nat) returns (id: Option<string>)
    ensures id.None? <==> forall c :: c in cs ==> !Eligible(c)
    ensures id.Some? ==> exists i: nat :: Selects(cs, seed, i) && id.value == Filter(cs)[i].id
  {
    var eligible := CollectEligible(cs);
    var total := TotalWeight(eligible);
    SumPositive(eligible);
    if total == 0 {
      return None;
    }
    assert eligible[0] in cs && Eligible(eligible[0]);
    id := Walk(eligible, seed % total);
    ghost var i: nat :| Holds(eligible, i, seed % total) && id.value == eligible[i].id;
    assert Selects(cs, seed, i);
  }

  lemma {:induction false} SumPositive(cs: seq<Candidate>)
    requires forall c :: c in cs ==> c.weight > 0
    ensures Sum(cs) == 0 <==> cs == []
  {
    if cs != [] { assert cs[|cs| - 1] in cs; }
  }

  lemma {:induction false} OffsetStep(cs: seq<Candidate>, i: nat)
    requires i < |cs|
    ensures Offset(cs, i + 1) == Offset(cs, i) + cs[i].weight
  {
    assert cs[..i + 1][..i] == cs[..i];
  }

  lemma {:induction false} OffsetMono(cs: seq<Candidate>, i: nat, j: nat)
    requires i <= j <= |cs|
    ensures Offset(cs, i) <= Offset(cs, j)
    decreases j
  {
    if i < j {
      OffsetMono(cs, i, j - 1);
      OffsetStep(cs, j - 1);
    }
  }

  /** A point belongs to one candidate only. */
  lemma HoldsOnce(cs: seq<Candidate>, i: nat, j: nat, point: nat)
    requires Holds(cs, i, point) && Holds(cs, j, point)
    ensures i == j
  {
    if i < j {
      OffsetStep(cs, i);
      OffsetMono(cs, i + 1, j);
    } else if j < i {
      OffsetStep(cs, j);
      OffsetMono(cs, j + 1, i);
    }
  }

  ghost predicate Within(r: nat, low: nat, high: nat) {
    low <= r < high
  }

  /** Residues below the total that select position `i` of the eligible candidates. */
  ghost function Shares(cs: seq<Candidate>, i: nat): set<nat> {
    set r: nat | r < Saturated(Sum(Filter(cs))) && Holds(Filter(cs), i, r)
  }

  ghost function Interval(low: nat, high: nat): set<nat> {
    set r: nat | r < high && Within(r, low, high)
  }

  lemma {:induction false} IntervalSize(low: nat, high: nat)
    ensures |Interval(low, high)| == if low <= high then high - low else 0
    decreases high - low
  {
    if low < high {
      IntervalSize(low + 1, high);
      assert Interval(low, high) == Interval(low + 1, high) + {low};
    } else {
      assert Interval(low, high) == {};
    }
  }

  lemma {:induction false} SharesAreInterval(cs: seq<Candidate>, i: nat)
    requires i < |Filter(cs)|
    ensures var low, total := Offset(Filter(cs), i), Saturated(Sum(Filter(cs)));
            var high := low + Filter(cs)[i].weight;
            Shares(cs, i) == Interval(low, if high <= total then high else total)
  {
    var total, low := Saturated(Sum(Filter(cs))), Offset(Filter(cs), i);
    var high := low + Filter(cs)[i].weight;
    var end := if high <= total then high else total;
    assert forall r: nat :: r in Shares(cs, i) <==> r in Interval(low, end);
  }

  lemma {:induction false} OffsetWithin(cs: seq<Candidate>, i: nat)
    requires i < |cs|
    ensures Offset(cs, i) + cs[i].weight <= Sum(cs)
  {
    OffsetStep(cs, i);
    OffsetMono(cs, i + 1, |cs|);
    assert cs[..|cs|] == cs;
  }

  /** Exactly as many residues select an eligible candidate as it has weight, unless the 64-bit
      total saturates before its share ends. */
  lemma {:induction false} ShareIsWeight(cs: seq<Candidate>, i: nat)
    requires i < |Filter(cs)|
    ensures var w := Filter(cs)[i].weight;
            && (|Shares(cs, i)| == w <==> Offset(Filter(cs), i) + w <= Saturated(Sum(Filter(cs))))
            && (Sum(Filter(cs)) <= MAX_U64 ==> |Shares(cs, i)| == w)
  {
    var eligible := Filter(cs);
    var total, low := Saturated(Sum(eligible)), Offset(eligible, i);
    var high := low + eligible[i].weight;
    assert eligible[i] in eligible;
    OffsetWithin(eligible, i);
    SharesAreInterval(cs, i);
    IntervalSize(low, if high <= total then high else total);
  }

  /** A seed selects what its residue selects, and only one candidate. */
  lemma {:induction false} ResidueDecides(cs: seq<Candidate>, seed: nat, i: nat, j: nat)
    requires Selects(cs, seed, i)
    ensures seed % Saturated(Sum(Filter(cs))) in Shares(cs, i)
    ensures Selects(cs, seed, j) ==> i == j
  {
    if Selects(cs, seed, j) { HoldsOnce(Filter(cs), i, j, seed % Saturated(Sum(Filter(cs)))); }
  }
}
