/** The program's objects: motorcycles and bridge states updated in place,
    the five actions that copy a state and then move its motorcycles, and the
    player's gap test, move and search. Each method is proved against the
    value model of BridgeModel and Engine. */
module Bridge {
  import opened BridgeModel
  import opened Engine

  class Motorcycle {
    var x: int
    var y: int
    var isActive: bool

    constructor (x: int, y: int, isActive: bool)
      ensures Value() == Moto(x, y, isActive)
    {
      this.x := x;
      this.y := y;
      this.isActive := isActive;
    }

    /** The copy constructor: a new object with the same fields. */
    constructor Copy(m: Motorcycle)
      ensures Value() == m.Value()
    {
      x := m.x;
      y := m.y;
      isActive := m.isActive;
    }

    function Value(): (r: Moto)
      reads this
    {
      Moto(x, y, isActive)
    }
  }

  class BridgeState {
    var motorcycles: array<Motorcycle?>
    var speed: int

    /** Every slot holds a motorcycle. */
    ghost predicate Valid()
      reads this, motorcycles
    {
      forall i :: 0 <= i < motorcycles.Length ==> motorcycles[i] != null
    }

    /** No motorcycle object appears in two slots. */
    ghost predicate Unaliased()
      reads this, motorcycles
    {
      forall i, j :: 0 <= i < j < motorcycles.Length ==> motorcycles[i] != motorcycles[j]
    }

    /** The state as a value. */
    function Value(): (s: State)
      requires Valid()
      reads this, motorcycles, motorcycles[..]
      ensures |s.motos| == motorcycles.Length && s.speed == speed
      ensures forall i :: 0 <= i < motorcycles.Length ==> s.motos[i] == motorcycles[i].Value()
    {
      State(seq(motorcycles.Length, i requires 0 <= i < motorcycles.Length && motorcycles[i] != null
                                      reads this, motorcycles, motorcycles[..] => motorcycles[i].Value()),
            speed)
    }

    /** The state built from observed motorcycles; it shares the array. */
    constructor (motorcycles: array<Motorcycle?>, speed: int)
      ensures this.motorcycles == motorcycles && this.speed == speed
    {
      this.motorcycles := motorcycles;
      this.speed := speed;
    }

    /** The deep copy: a fresh array of fresh motorcycles with the same values.
        The input state is only read. */
    constructor Copy(state: BridgeState)
      requires state.Valid()
      ensures Valid() && Unaliased() && fresh(motorcycles)
      ensures forall i :: 0 <= i < motorcycles.Length ==> fresh(motorcycles[i])
      ensures Value() == state.Value()
    {
      var n := state.motorcycles.Length;
      var copies := new Motorcycle?[n];
      for i := 0 to n
        invariant forall k :: 0 <= k < i ==> copies[k] != null && fresh(copies[k])
        invariant forall k :: 0 <= k < i ==> copies[k].Value() == state.motorcycles[k].Value()
        invariant forall j, k :: 0 <= j < k < i ==> copies[j] != copies[k]
      {
        copies[i] := new Motorcycle.Copy(state.motorcycles[i]);
      }
      motorcycles := copies;
      speed := state.speed;
    }
  }

  /** The gap test: scans the cells after the motorcycle, up to `speed` of them
      and not past the end of the lane, and reports whether one is a gap. */
  method CheckWillFall(m: Motorcycle, speed: int, lane: string) returns (falls: bool)
    requires m.x >= 0
    ensures falls == WillFall(lane, m.x, speed)
    ensures speed <= 0 ==> !falls
  {
    var i := m.x + 1;
    while i <= Min(m.x + speed, |lane| - 1)
      invariant m.x + 1 <= i
      invariant i == m.x + 1 || i <= Min(m.x + speed, |lane| - 1) + 1
      invariant forall k :: m.x < k < i && k < |lane| ==> lane[k] != '0'
    {
      if lane[i] == '0' {
        return true;
      }
      i := i + 1;
    }
    return false;
  }

  /** The move: a motorcycle that would cross a gap is eliminated where it
      stands; otherwise it advances by `speed`. */
  method Move(m: Motorcycle, speed: int, lane: string)
    requires m.x >= 0
    modifies m
    ensures m.Value() == MoveMoto(old(m.Value()), speed, lane)
  {
    var falls := CheckWillFall(m, speed, lane);
    if falls {
      m.isActive := false;
    } else {
      m.x := m.x + speed;
    }
  }

  /** The pass of SPEED and SLOW over a freshly copied array: every active
      motorcycle moves at speed `sp` on its own lane. */
  method MoveActive(ghost a: Action, ms: array<Motorcycle?>, sp: int, lanes: seq<string>, ghost s0: seq<Moto>)
    requires a == Speed || a == Slow
    requires LanesOk(lanes) && sp >= 0 && |s0| == ms.Length
    requires forall k :: 0 <= k < |s0| ==> MotoOk(s0[k])
    requires forall k :: 0 <= k < ms.Length ==> ms[k] != null && ms[k].Value() == s0[k]
    requires forall j, k :: 0 <= j < k < ms.Length ==> ms[j] != ms[k]
    modifies ms[..]
    ensures forall k :: 0 <= k < ms.Length ==> ms[k].Value() == StepMoto(a, s0[k], sp, lanes)
  {
    for i := 0 to ms.Length
      invariant forall k :: 0 <= k < i ==> ms[k].Value() == StepMoto(a, s0[k], sp, lanes)
      invariant forall k :: i <= k < ms.Length ==> ms[k].Value() == s0[k]
    {
      var m := ms[i];
      if m.isActive {
        Move(m, sp, lanes[m.y]);
      }
    }
  }

  /** The pass of UP (a == Up) and DOWN (a == Down): an active motorcycle that
      would cross a gap on its own lane within `sp - 1` cells is eliminated;
      any other changes lane and moves at speed `sp` on the new lane. */
  method ShiftActive(a: Action, ms: array<Motorcycle?>, sp: int, lanes: seq<string>, ghost s0: seq<Moto>)
    requires a == Up || a == Down
    requires LanesOk(lanes) && sp >= 0 && |s0| == ms.Length
    requires forall k :: 0 <= k < |s0| ==> MotoOk(s0[k])
    requires forall k :: 0 <= k < ms.Length ==> ms[k] != null && ms[k].Value() == s0[k]
    requires forall k :: 0 <= k < ms.Length && s0[k].active ==> s0[k].y != (if a == Up then 0 else 3)
    requires forall j, k :: 0 <= j < k < ms.Length ==> ms[j] != ms[k]
    modifies ms[..]
    ensures forall k :: 0 <= k < ms.Length ==> ms[k].Value() == StepMoto(a, s0[k], sp, lanes)
  {
    for i := 0 to ms.Length
      invariant forall k :: 0 <= k < i ==> ms[k].Value() == StepMoto(a, s0[k], sp, lanes)
      invariant forall k :: i <= k < ms.Length ==> ms[k].Value() == s0[k]
    {
      var m := ms[i];
      if m.isActive {
        var falls := CheckWillFall(m, sp - 1, lanes[m.y]);
        if falls {
          m.isActive := false;
        } else {
          m.y := m.y + Shift(a);
          Move(m, sp, lanes[m.y]);
        }
      }
    }
  }

  /** The pass of JUMP: an active motorcycle is eliminated when its landing
      cell `x + sp` lies on the lane and is a gap; otherwise it advances by
      `sp`, whatever lies between. */
  method JumpActive(ms: array<Motorcycle?>, sp: int, lanes: seq<string>, ghost s0: seq<Moto>)
    requires LanesOk(lanes) && sp >= 0 && |s0| == ms.Length
    requires forall k :: 0 <= k < |s0| ==> MotoOk(s0[k])
    requires forall k :: 0 <= k < ms.Length ==> ms[k] != null && ms[k].Value() == s0[k]
    requires forall j, k :: 0 <= j < k < ms.Length ==> ms[j] != ms[k]
    modifies ms[..]
    ensures forall k :: 0 <= k < ms.Length ==> ms[k].Value() == StepMoto(Jump, s0[k], sp, lanes)
  {
    for i := 0 to ms.Length
      invariant forall k :: 0 <= k < i ==> ms[k].Value() == StepMoto(Jump, s0[k], sp, lanes)
      invariant forall k :: i <= k < ms.Length ==> ms[k].Value() == s0[k]
    {
      var m := ms[i];
      if m.isActive {
        if m.x + sp < |lanes[m.y]| && lanes[m.y][m.x + sp] == '0' {
          m.isActive := false;
        } else {
          m.x := m.x + sp;
        }
      }
    }
  }

  /** The rejection scan of UP and DOWN: is some active motorcycle on lane `y`? */
  method HasActiveOnLane(state: BridgeState, y: int) returns (found: bool)
    requires state.Valid()
    ensures found == ActiveOnLane(state.Value().motos, y)
  {
    var ms := state.motorcycles;
    for i := 0 to ms.Length
      invariant forall k :: 0 <= k < i ==> !(ms[k].isActive && ms[k].y == y)
    {
      var m := ms[i];
      if m.isActive && m.y == y {
        return true;
      }
    }
    return false;
  }

  /** SPEED: never rejected; the copy's speed goes up by one before any
      motorcycle moves. */
  method ExecuteSpeed(state: BridgeState, lanes: seq<string>) returns (r: BridgeState?)
    requires state.Valid() && LanesOk(lanes) && ValidState(state.Value())
    ensures r != null && fresh(r) && r.Valid()
    ensures fresh(r.motorcycles) && r.Unaliased()
    ensures forall i :: 0 <= i < r.motorcycles.Length ==> fresh(r.motorcycles[i])
    ensures Apply(Speed, state.Value(), lanes) == Some(r.Value())
  {
    ghost var s := state.Value();
    var newState := new BridgeState.Copy(state);
    newState.speed := newState.speed + 1;
    MoveActive(Speed, newState.motorcycles, newState.speed, lanes, s.motos);
    ApplyPointwise(Speed, s, lanes, newState.Value().motos);
    return newState;
  }

  /** SLOW: rejected below speed 2; otherwise the copy's speed goes down by
      one before any motorcycle moves. */
  method ExecuteSlow(state: BridgeState, lanes: seq<string>) returns (r: BridgeState?)
    requires state.Valid() && LanesOk(lanes) && ValidState(state.Value())
    ensures r == null <==> Apply(Slow, state.Value(), lanes).None?
    ensures r != null ==> fresh(r) && r.Valid() && Apply(Slow, state.Value(), lanes) == Some(r.Value())
    ensures r != null ==> fresh(r.motorcycles) && r.Unaliased()
    ensures r != null ==> forall i :: 0 <= i < r.motorcycles.Length ==> fresh(r.motorcycles[i])
  {
    if state.speed < 2 {
      return null;
    }
    ghost var s := state.Value();
    var newState := new BridgeState.Copy(state);
    newState.speed := newState.speed - 1;
    MoveActive(Slow, newState.motorcycles, newState.speed, lanes, s.motos);
    ApplyPointwise(Slow, s, lanes, newState.Value().motos);
    return newState;
  }

  /** UP: rejected at speed 0 or when an active motorcycle is on lane 0. */
  method ExecuteUp(state: BridgeState, lanes: seq<string>) returns (r: BridgeState?)
    requires state.Valid() && LanesOk(lanes) && ValidState(state.Value())
    ensures r == null <==> Apply(Up, state.Value(), lanes).None?
    ensures r != null ==> fresh(r) && r.Valid() && Apply(Up, state.Value(), lanes) == Some(r.Value())
    ensures r != null ==> fresh(r.motorcycles) && r.Unaliased()
    ensures r != null ==> forall i :: 0 <= i < r.motorcycles.Length ==> fresh(r.motorcycles[i])
  {
    if state.speed == 0 {
      return null;
    }
    var blocked := HasActiveOnLane(state, 0);
    if blocked {
      return null;
    }
    ghost var s := state.Value();
    var newState := new BridgeState.Copy(state);
    ShiftActive(Up, newState.motorcycles, newState.speed, lanes, s.motos);
    ApplyPointwise(Up, s, lanes, newState.Value().motos);
    return newState;
  }

  /** DOWN: rejected at speed 0 or when an active motorcycle is on lane 3. */
  method ExecuteDown(state: BridgeState, lanes: seq<string>) returns (r: BridgeState?)
    requires state.Valid() && LanesOk(lanes) && ValidState(state.Value())
    ensures r == null <==> Apply(Down, state.Value(), lanes).None?
    ensures r != null ==> fresh(r) && r.Valid() && Apply(Down, state.Value(), lanes) == Some(r.Value())
    ensures r != null ==> fresh(r.motorcycles) && r.Unaliased()
    ensures r != null ==> forall i :: 0 <= i < r.motorcycles.Length ==> fresh(r.motorcycles[i])
  {
    if state.speed == 0 {
      return null;
    }
    var blocked := HasActiveOnLane(state, 3);
    if blocked {
      return null;
    }
    ghost var s := state.Value();
    var newState := new BridgeState.Copy(state);
    ShiftActive(Down, newState.motorcycles, newState.speed, lanes, s.motos);
    ApplyPointwise(Down, s, lanes, newState.Value().motos);
    return newState;
  }

  /** JUMP: rejected at speed 0. */
  method ExecuteJump(state: BridgeState, lanes: seq<string>) returns (r: BridgeState?)
    requires state.Valid() && LanesOk(lanes) && ValidState(state.Value())
    ensures r == null <==> Apply(Jump, state.Value(), lanes).None?
    ensures r != null ==> fresh(r) && r.Valid() && Apply(Jump, state.Value(), lanes) == Some(r.Value())
    ensures r != null ==> fresh(r.motorcycles) && r.Unaliased()
    ensures r != null ==> forall i :: 0 <= i < r.motorcycles.Length ==> fresh(r.motorcycles[i])
  {
    if state.speed == 0 {
      return null;
    }
    ghost var s := state.Value();
    var newState := new BridgeState.Copy(state);
    JumpActive(newState.motorcycles, newState.speed, lanes, s.motos);
    ApplyPointwise(Jump, s, lanes, newState.Value().motos);
    return newState;
  }

  /** The action's `execute`, dispatched on the action. */
  method Execute(a: Action, state: BridgeState, lanes: seq<string>) returns (r: BridgeState?)
    requires state.Valid() && LanesOk(lanes) && ValidState(state.Value())
    ensures r == null <==> Apply(a, state.Value(), lanes).None?
    ensures r != null ==> fresh(r) && r.Valid() && Apply(a, state.Value(), lanes) == Some(r.Value())
    ensures r != null ==> fresh(r.motorcycles) && r.Unaliased()
    ensures r != null ==> forall i :: 0 <= i < r.motorcycles.Length ==> fresh(r.motorcycles[i])
  {
    match a {
      case Speed => r := ExecuteSpeed(state, lanes);
      case Slow => r := ExecuteSlow(state, lanes);
      case Up => r := ExecuteUp(state, lanes);
      case Down => r := ExecuteDown(state, lanes);
      case Jump => r := ExecuteJump(state, lanes);
    }
  }

  /** The search's counting pass: how many motorcycles are active, and the
      column of the last active one (0 when there is none). */
  method CountActive(state: BridgeState) returns (count: int, x: int)
    requires state.Valid()
    ensures count == ActiveCount(state.Value().motos)
    ensures x == LastActiveX(state.Value().motos)
  {
    ghost var ms := state.Value().motos;
    count, x := 0, 0;
    for i := 0 to state.motorcycles.Length
      invariant count == ActiveCount(ms[..i]) && x == LastActiveX(ms[..i])
    {
      assert ms[..i + 1][..i] == ms[..i];
      var m := state.motorcycles[i];
      if m.isActive {
        count := count + 1;
        x := m.x;
      }
    }
    assert ms[..state.motorcycles.Length] == ms;
  }

  /** One turn of the search's loop: execute `a` on the state and search on
      from the successor, if there is one. */
  method TryAction(a: Action, state: BridgeState, min: int, lanes: seq<string>) returns (ok: bool)
    requires state.Valid() && Ready(state.Value(), min, lanes)
    requires ActiveCount(state.Value().motos) >= min && LastActiveX(state.Value().motos) < |lanes[0]|
    ensures ok == Viable(a, state.Value(), min, lanes)
    decreases Measure(state.Value().motos, |lanes[0]|), 0
  {
    ghost var s := state.Value();
    var next := Execute(a, state, lanes);
    assert state.Value() == s;
    if next == null {
      return false;
    }
    ApplyDecreases(a, s, lanes);
    var sub := DetermineOptimalMove(next, min, lanes);
    return sub.Some?;
  }

  /** The search: None when fewer than `min` motorcycles are active, WAIT when
      the last active one is at or past the end of lane 0, otherwise the first
      action in the order SPEED, JUMP, UP, DOWN, SLOW that is accepted and from
      whose successor the search succeeds. */
  method DetermineOptimalMove(state: BridgeState, min: int, lanes: seq<string>) returns (r: Option<Decision>)
    requires state.Valid() && Ready(state.Value(), min, lanes)
    ensures r == Search(state.Value(), min, lanes)
    decreases Measure(state.Value().motos, |lanes[0]|), 1
  {
    var count, x := CountActive(state);
    if count < min {
      return None;
    }
    if x >= |lanes[0]| {
      return Some(Wait);
    }
    ghost var s := state.Value();
    var actions := [Speed, Jump, Up, Down, Slow];
    assert actions == Order;
    for i := 0 to |actions|
      invariant state.Value() == s
      invariant Search(s, min, lanes) == FirstViable(s, min, lanes, actions[i..])
    {
      var a := actions[i];
      FirstViableStep(s, min, lanes, actions[i..]);
      assert actions[i..][1..] == actions[i + 1..];
      var ok := TryAction(a, state, min, lanes);
      if ok {
        return Some(Act(a));
      }
    }
    return None;
  }
}
