/** The decision engine as a function on value states: a depth-first search
    that returns the first action, in the fixed order, whose successor state
    can still bring enough motorcycles to the end of the bridge. */
module Engine {
  import opened BridgeModel

  /** What a motorcycle still contributes to the termination measure: one for
      being active, plus the columns it has left to the finish. */
  function Cost(m: Moto, finish: int): (r: nat)
  {
    if !m.active then 0
    else if m.x < finish then 1 + (finish - m.x)
    else 1
  }

  /** The termination measure of the search: the sum of the costs. */
  function Measure(ms: seq<Moto>, finish: int): (r: nat)
  {
    if ms == [] then 0
    else Measure(ms[..|ms| - 1], finish) + Cost(ms[|ms| - 1], finish)
  }

  /** One motorcycle's step under an accepted action: it stays inactive if it
      was, and if it is still active afterwards it has moved forward. */
  predicate Advances(m: Moto, m': Moto)
  {
    (!m.active ==> !m'.active) && (m'.active ==> m.active && m'.x > m.x)
  }

  lemma {:induction false} MeasureDecreases(ms: seq<Moto>, ms': seq<Moto>, finish: int)
    requires |ms'| == |ms|
    requires forall i :: 0 <= i < |ms| ==> Advances(ms[i], ms'[i])
    ensures Measure(ms', finish) <= Measure(ms, finish)
    ensures (exists i :: 0 <= i < |ms| && ms[i].active && ms[i].x < finish) ==>
              Measure(ms', finish) < Measure(ms, finish)
  {
    if ms != [] {
      var n := |ms| - 1;
      MeasureDecreases(ms[..n], ms'[..n], finish);
      if exists i :: 0 <= i < n && ms[i].active && ms[i].x < finish {
        var i :| 0 <= i < n && ms[i].active && ms[i].x < finish;
        assert ms[..n][i] == ms[i];
      }
    }
  }

  /** If some motorcycle is active, the last active one has index `i`, column
      `LastActiveX(ms)`, and no active motorcycle follows it. */
  lemma {:induction false} LastActiveIsLast(ms: seq<Moto>)
    requires ActiveCount(ms) >= 1
    ensures exists i :: 0 <= i < |ms| && ms[i].active && ms[i].x == LastActiveX(ms) &&
              forall j :: i < j < |ms| ==> !ms[j].active
  {
    var n := |ms| - 1;
    if !ms[n].active {
      LastActiveIsLast(ms[..n]);
      var i :| 0 <= i < n && ms[..n][i].active && ms[..n][i].x == LastActiveX(ms[..n]) &&
                forall j :: i < j < n ==> !ms[..n][j].active;
      assert ms[..n][i] == ms[i];
      forall j | i < j < |ms| ensures !ms[j].active {
        if j < n { assert ms[..n][j] == ms[j]; }
      }
    }
  }

  /** ActiveCount is zero exactly when no motorcycle is active. */
  lemma {:induction false} ActiveCountZero(ms: seq<Moto>)
    ensures ActiveCount(ms) == 0 <==> forall i :: 0 <= i < |ms| ==> !ms[i].active
  {
    if ms != [] {
      var n := |ms| - 1;
      ActiveCountZero(ms[..n]);
      assert forall i :: 0 <= i < n ==> ms[..n][i] == ms[i];
    }
  }

  /** Stepping every motorcycle forward never adds active ones. */
  lemma {:induction false} ActiveCountNonIncreasing(ms: seq<Moto>, ms': seq<Moto>)
    requires |ms'| == |ms|
    requires forall i :: 0 <= i < |ms| ==> Advances(ms[i], ms'[i])
    ensures ActiveCount(ms') <= ActiveCount(ms)
  {
    if ms != [] {
      var n := |ms| - 1;
      ActiveCountNonIncreasing(ms[..n], ms'[..n]);
    }
  }

  /** Every motorcycle advances under an accepted action. */
  lemma ApplyAdvances(a: Action, s: State, lanes: seq<string>)
    requires LanesOk(lanes) && ValidState(s) && Apply(a, s, lanes).Some?
    ensures forall i :: 0 <= i < |s.motos| ==> Advances(s.motos[i], Apply(a, s, lanes).value.motos[i])
  {
  }

  /** An accepted action never adds survivors. */
  lemma ApplyNeverAddsSurvivors(a: Action, s: State, lanes: seq<string>)
    requires LanesOk(lanes) && ValidState(s) && Apply(a, s, lanes).Some?
    ensures ActiveCount(Apply(a, s, lanes).value.motos) <= ActiveCount(s.motos)
  {
    ApplyAdvances(a, s, lanes);
    ActiveCountNonIncreasing(s.motos, Apply(a, s, lanes).value.motos);
  }

  /** An accepted action strictly lowers the measure while the last active
      motorcycle is short of the finish: it falls or moves at least one column. */
  lemma ApplyDecreases(a: Action, s: State, lanes: seq<string>)
    requires LanesOk(lanes) && ValidState(s) && Apply(a, s, lanes).Some?
    requires ActiveCount(s.motos) >= 1 && LastActiveX(s.motos) < |lanes[0]|
    ensures Measure(Apply(a, s, lanes).value.motos, |lanes[0]|) < Measure(s.motos, |lanes[0]|)
  {
    LastActiveIsLast(s.motos);
    ApplyAdvances(a, s, lanes);
    MeasureDecreases(s.motos, Apply(a, s, lanes).value.motos, |lanes[0]|);
  }

  /** The inputs the search needs: four lanes, a valid state, and a threshold
      of at least one (with none, SPEED would be tried for ever on a state
      whose motorcycles have all fallen). */
  predicate Ready(s: State, min: int, lanes: seq<string>)
  {
    LanesOk(lanes) && ValidState(s) && min >= 1
  }

  /** The search: None when fewer than `min` motorcycles are active, WAIT when
      the last active motorcycle has reached the end of lane 0, otherwise the
      first action in `Order` whose successor search succeeds. */
  function Search(s: State, min: int, lanes: seq<string>): (r: Option<Decision>)
    requires Ready(s, min, lanes)
    ensures r.Some? ==> ActiveCount(s.motos) >= min
    ensures r == Some(Wait) <==> ActiveCount(s.motos) >= min && LastActiveX(s.motos) >= |lanes[0]|
    decreases Measure(s.motos, |lanes[0]|), 1
  {
    if ActiveCount(s.motos) < min then None
    else if LastActiveX(s.motos) >= |lanes[0]| then Some(Wait)
    else FirstViable(s, min, lanes, Order)
  }

  /** The loop over the actions: the first of `acts` that is accepted and whose
      successor search succeeds. */
  function FirstViable(s: State, min: int, lanes: seq<string>, acts: seq<Action>): (r: Option<Decision>)
    requires Ready(s, min, lanes)
    requires ActiveCount(s.motos) >= min && LastActiveX(s.motos) < |lanes[0]|
    ensures r.Some? ==> r.value.Act? && r.value.action in acts
    decreases Measure(s.motos, |lanes[0]|), 0, |acts|
  {
    if acts == [] then None
    else
      var next := Apply(acts[0], s, lanes);
      if next.Some? && (ApplyDecreases(acts[0], s, lanes); Search(next.value, min, lanes).Some?)
      then Some(Act(acts[0]))
      else FirstViable(s, min, lanes, acts[1..])
  }

  /** Action `a` is accepted on `s` and the search from its successor succeeds. */
  predicate Viable(a: Action, s: State, min: int, lanes: seq<string>)
    requires Ready(s, min, lanes)
  {
    var next := Apply(a, s, lanes);
    next.Some? && Search(next.value, min, lanes).Some?
  }

  /** One turn of the loop over the actions. */
  lemma FirstViableStep(s: State, min: int, lanes: seq<string>, acts: seq<Action>)
    requires Ready(s, min, lanes)
    requires ActiveCount(s.motos) >= min && LastActiveX(s.motos) < |lanes[0]|
    requires acts != []
    ensures FirstViable(s, min, lanes, acts) ==
              if Viable(acts[0], s, min, lanes) then Some(Act(acts[0])) else FirstViable(s, min, lanes, acts[1..])
  {
  }

  lemma {:induction false} FirstViableIsFirst(s: State, min: int, lanes: seq<string>, acts: seq<Action>)
    requires Ready(s, min, lanes)
    requires ActiveCount(s.motos) >= min && LastActiveX(s.motos) < |lanes[0]|
    ensures FirstViable(s, min, lanes, acts).None? <==>
              forall j :: 0 <= j < |acts| ==> !Viable(acts[j], s, min, lanes)
    ensures FirstViable(s, min, lanes, acts).Some? ==>
              exists j :: 0 <= j < |acts| && FirstViable(s, min, lanes, acts) == Some(Act(acts[j])) &&
                Viable(acts[j], s, min, lanes) &&
                forall k :: 0 <= k < j ==> !Viable(acts[k], s, min, lanes)
    decreases |acts|
  {
    if acts != [] {
      FirstViableIsFirst(s, min, lanes, acts[1..]);
      if !Viable(acts[0], s, min, lanes) {
        var r := FirstViable(s, min, lanes, acts);
        assert r == FirstViable(s, min, lanes, acts[1..]);
        if r.Some? {
          var j :| 0 <= j < |acts[1..]| && r == Some(Act(acts[1..][j])) &&
                   Viable(acts[1..][j], s, min, lanes) &&
                   forall k :: 0 <= k < j ==> !Viable(acts[1..][k], s, min, lanes);
          assert acts[1..][j] == acts[j + 1];
          forall k | 0 <= k < j + 1 ensures !Viable(acts[k], s, min, lanes) {
            if k > 0 { assert acts[k] == acts[1..][k - 1]; }
          }
        } else {
          forall j | 0 <= j < |acts| ensures !Viable(acts[j], s, min, lanes) {
            if j > 0 { assert acts[j] == acts[1..][j - 1]; }
          }
        }
      }
    }
  }

  /** The four outcomes of the search. */
  lemma SearchOutcomes(s: State, min: int, lanes: seq<string>)
    requires Ready(s, min, lanes)
    ensures ActiveCount(s.motos) < min ==> Search(s, min, lanes) == None
    ensures ActiveCount(s.motos) >= min && LastActiveX(s.motos) >= |lanes[0]| ==>
              Search(s, min, lanes) == Some(Wait)
    ensures ActiveCount(s.motos) >= min && LastActiveX(s.motos) < |lanes[0]| ==>
              (Search(s, min, lanes).Some? ==>
                 exists j :: 0 <= j < |Order| && Search(s, min, lanes) == Some(Act(Order[j])) &&
                   Viable(Order[j], s, min, lanes) &&
                   forall k :: 0 <= k < j ==> !Viable(Order[k], s, min, lanes)) &&
              (Search(s, min, lanes).None? <==>
                 forall j :: 0 <= j < |Order| ==> !Viable(Order[j], s, min, lanes))
  {
    if ActiveCount(s.motos) >= min && LastActiveX(s.motos) < |lanes[0]| {
      FirstViableIsFirst(s, min, lanes, Order);
    }
  }

  /** Lowering the threshold never turns a success into a failure. */
  lemma {:induction false} ThresholdMonotone(s: State, k: int, k': int, lanes: seq<string>)
    requires Ready(s, k, lanes) && 1 <= k' <= k
    requires Search(s, k, lanes).Some?
    ensures Search(s, k', lanes).Some?
    decreases Measure(s.motos, |lanes[0]|)
  {
    if LastActiveX(s.motos) < |lanes[0]| {
      FirstViableIsFirst(s, k, lanes, Order);
      FirstViableIsFirst(s, k', lanes, Order);
      var j :| 0 <= j < |Order| && Viable(Order[j], s, k, lanes);
      ApplyDecreases(Order[j], s, lanes);
      ThresholdMonotone(Apply(Order[j], s, lanes).value, k, k', lanes);
      assert Viable(Order[j], s, k', lanes);
    }
  }

  /** The answer printed each turn: the search with threshold `m` (all
      motorcycles), and if that fails, the search with threshold `v`, whose
      result may itself be None. */
  function Respond(s: State, m: int, v: int, lanes: seq<string>): (r: Option<Decision>)
    requires Ready(s, m, lanes) && v >= 1
    ensures r.None? <==> Search(s, m, lanes).None? && Search(s, v, lanes).None?
    ensures Search(s, m, lanes).Some? ==> r == Search(s, m, lanes)
    ensures Search(s, m, lanes).None? ==> r == Search(s, v, lanes)
  {
    var first := Search(s, m, lanes);
    if first.Some? then first else Search(s, v, lanes)
  }

  /** With the lower threshold v <= m, the answer is the search with m when
      that succeeds, and the answer is missing exactly when the search with v
      fails. */
  lemma RespondOutcome(s: State, m: int, v: int, lanes: seq<string>)
    requires Ready(s, m, lanes) && 1 <= v <= m
    ensures Search(s, m, lanes).Some? ==> Respond(s, m, v, lanes) == Search(s, m, lanes)
    ensures Respond(s, m, v, lanes).None? <==> Search(s, v, lanes).None?
  {
    if Search(s, m, lanes).Some? {
      ThresholdMonotone(s, m, v, lanes);
    }
  }
}
