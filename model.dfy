/** Value model of the bridge race: motorcycles, the shared speed, the gap
    test, and the five actions as transitions from a state to a state or to
    "rejected". */
module BridgeModel {

  datatype Option<T> = None | Some(value: T)

  /** One motorcycle: column `x` along its lane, lane index `y`, and whether it
      is still on the bridge. */
  datatype Moto = Moto(x: int, y: int, active: bool)

  /** The motorcycles in their fixed order and the speed they share. */
  datatype State = State(motos: seq<Moto>, speed: int)

  datatype Action = Speed | Slow | Up | Down | Jump

  /** What the search answers: an action to take, or WAIT once the finish is reached. */
  datatype Decision = Act(action: Action) | Wait

  /** The order in which the search tries the actions. */
  const Order: seq<Action> := [Speed, Jump, Up, Down, Slow]

  /** The bridge always has four lanes. */
  predicate LanesOk(lanes: seq<string>)
  {
    |lanes| == 4
  }

  /** An active motorcycle stands on one of the four lanes, at a column >= 0. */
  predicate MotoOk(m: Moto)
  {
    m.active ==> 0 <= m.y < 4 && m.x >= 0
  }

  predicate ValidState(s: State)
  {
    s.speed >= 0 && forall i :: 0 <= i < |s.motos| ==> MotoOk(s.motos[i])
  }

  function Min(a: int, b: int): (r: int)
  {
    if a <= b then a else b
  }

  /** Travelling `dist` cells from column `x` crosses a gap: some cell after
      `x`, at most `x + dist` and inside the lane, holds '0'. The cell `x`
      itself is never looked at. */
  predicate WillFall(lane: string, x: int, dist: int)
    ensures WillFall(lane, x, dist) ==> dist >= 1 && x + 1 < |lane|
  {
    exists i :: x < i <= x + dist && 0 <= i < |lane| && lane[i] == '0'
  }

  /** The longitudinal move of one motorcycle: it falls, or it advances by `dist`. */
  function MoveMoto(m: Moto, dist: int, lane: string): (r: Moto)
    ensures r.y == m.y && (r.active ==> m.active)
    ensures WillFall(lane, m.x, dist) ==> !r.active && r.x == m.x
    ensures !WillFall(lane, m.x, dist) ==> r.active == m.active && r.x == m.x + dist
  {
    if WillFall(lane, m.x, dist) then m.(active := false) else m.(x := m.x + dist)
  }

  /** Some active motorcycle is on lane `y`. */
  predicate ActiveOnLane(ms: seq<Moto>, y: int)
  {
    exists i :: 0 <= i < |ms| && ms[i].active && ms[i].y == y
  }

  /** When an action refuses to run on a state. */
  predicate Rejected(a: Action, s: State)
    ensures a == Speed ==> !Rejected(a, s)
    ensures !Rejected(a, s) && s.speed >= 0 ==> NewSpeed(a, s.speed) >= 1
  {
    match a
    case Speed => false
    case Slow => s.speed < 2
    case Up => s.speed == 0 || ActiveOnLane(s.motos, 0)
    case Down => s.speed == 0 || ActiveOnLane(s.motos, 3)
    case Jump => s.speed == 0
  }

  /** The speed after the action; it is set before any motorcycle moves. */
  function NewSpeed(a: Action, speed: int): (r: int)
  {
    match a
    case Speed => speed + 1
    case Slow => speed - 1
    case _ => speed
  }

  /** The lane change an action makes. */
  function Shift(a: Action): (r: int)
  {
    match a
    case Up => -1
    case Down => 1
    case _ => 0
  }

  /** What an action does to one motorcycle, `sp` being the speed after the action. */
  function StepMoto(a: Action, m: Moto, sp: int, lanes: seq<string>): (r: Moto)
    requires LanesOk(lanes) && MotoOk(m) && sp >= 0
    requires m.active && a == Up ==> m.y != 0
    requires m.active && a == Down ==> m.y != 3
    ensures MotoOk(r)
    ensures !m.active ==> r == m
    ensures r.active ==> m.active && r.x == m.x + sp && r.y == m.y + Shift(a)
    ensures !r.active ==> r.x == m.x && (r.y == m.y || r.y == m.y + Shift(a))
  {
    if !m.active then m
    else
      match a
      case Speed => MoveMoto(m, sp, lanes[m.y])
      case Slow => MoveMoto(m, sp, lanes[m.y])
      case Up =>
        if WillFall(lanes[m.y], m.x, sp - 1) then m.(active := false)
        else MoveMoto(m.(y := m.y - 1), sp, lanes[m.y - 1])
      case Down =>
        if WillFall(lanes[m.y], m.x, sp - 1) then m.(active := false)
        else MoveMoto(m.(y := m.y + 1), sp, lanes[m.y + 1])
      case Jump =>
        if m.x + sp < |lanes[m.y]| && lanes[m.y][m.x + sp] == '0' then m.(active := false)
        else m.(x := m.x + sp)
  }

  /** An action applied to a state: None when it is rejected, otherwise the
      new state, every motorcycle stepped with the new speed. */
  function Apply(a: Action, s: State, lanes: seq<string>): (r: Option<State>)
    requires LanesOk(lanes) && ValidState(s)
    ensures r.None? <==> Rejected(a, s)
    ensures r.Some? ==> ValidState(r.value) && r.value.speed >= 1
    ensures r.Some? ==> |r.value.motos| == |s.motos| && r.value.speed == NewSpeed(a, s.speed)
  {
    if Rejected(a, s) then None
    else
      var sp := NewSpeed(a, s.speed);
      Some(State(seq(|s.motos|, i requires 0 <= i < |s.motos| => StepMoto(a, s.motos[i], sp, lanes)), sp))
  }

  /** An accepted action's successor is determined motorcycle by motorcycle. */
  lemma ApplyPointwise(a: Action, s: State, lanes: seq<string>, ms: seq<Moto>)
    requires LanesOk(lanes) && ValidState(s) && !Rejected(a, s) && |ms| == |s.motos|
    requires forall k :: 0 <= k < |ms| ==> ms[k] == StepMoto(a, s.motos[k], NewSpeed(a, s.speed), lanes)
    ensures Apply(a, s, lanes) == Some(State(ms, NewSpeed(a, s.speed)))
  {
    assert Apply(a, s, lanes).value.motos == ms;
  }

  /** The name the program prints for a decision. */
  function Name(d: Decision): (r: string)
    ensures r == "WAIT" <==> d == Wait
    ensures r == "SPEED" <==> d == Act(Speed)
  {
    match d
    case Act(Speed) => "SPEED"
    case Act(Slow) => "SLOW"
    case Act(Up) => "UP"
    case Act(Down) => "DOWN"
    case Act(Jump) => "JUMP"
    case Wait => "WAIT"
  }

  /** Number of active motorcycles (counted from the back, as the program's
      loop is read front to back). */
  function ActiveCount(ms: seq<Moto>): (n: nat)
    ensures n <= |ms|
    ensures n >= 1 ==> exists i :: 0 <= i < |ms| && ms[i].active
  {
    if ms == [] then 0
    else ActiveCount(ms[..|ms| - 1]) + (if ms[|ms| - 1].active then 1 else 0)
  }

  /** Column of the last active motorcycle in array order, 0 when none is active. */
  function LastActiveX(ms: seq<Moto>): (x: int)
    ensures ActiveCount(ms) == 0 ==> x == 0
  {
    if ms == [] then 0
    else if ms[|ms| - 1].active then ms[|ms| - 1].x
    else LastActiveX(ms[..|ms| - 1])
  }

  /** The gap test scans exactly the window the program's loop scans: from
      `x + 1` up to `min(x + dist, length - 1)`. */
  lemma WillFallWindow(lane: string, x: int, dist: int)
    requires x >= 0
    ensures WillFall(lane, x, dist) <==>
              exists i :: x + 1 <= i <= Min(x + dist, |lane| - 1) && lane[i] == '0'
  {
  }

  /** The cell a motorcycle stands on never decides whether it falls, and a
      distance of zero or less never makes it fall. */
  lemma {:induction false} WillFallIgnoresCurrentCell(lane: string, x: int, dist: int, c: char)
    requires 0 <= x < |lane|
    ensures WillFall(lane[x := c], x, dist) == WillFall(lane, x, dist)
    ensures dist <= 0 ==> !WillFall(lane, x, dist)
  {
    if WillFall(lane, x, dist) {
      var i :| x < i <= x + dist && 0 <= i < |lane| && lane[i] == '0';
      assert lane[x := c][i] == '0';
    }
    if WillFall(lane[x := c], x, dist) {
      var i :| x < i <= x + dist && 0 <= i < |lane[x := c]| && lane[x := c][i] == '0';
      assert lane[i] == '0';
    }
  }

  /** A move never changes the lane and never brings a motorcycle back: it is
      eliminated where it stands, or it advances by exactly `dist`. */
  lemma MoveEffect(m: Moto, dist: int, lane: string)
    ensures MoveMoto(m, dist, lane).y == m.y
    ensures MoveMoto(m, dist, lane).active ==> m.active
    ensures MoveMoto(m, dist, lane) == m.(active := false) || MoveMoto(m, dist, lane) == m.(x := m.x + dist)
    ensures MoveMoto(m, dist, lane).active <==> m.active && !WillFall(lane, m.x, dist)
  {
  }

  /** When each action is rejected. */
  lemma RejectionRules(s: State, lanes: seq<string>)
    requires LanesOk(lanes) && ValidState(s)
    ensures Apply(Speed, s, lanes).Some?
    ensures Apply(Slow, s, lanes).None? <==> s.speed < 2
    ensures Apply(Jump, s, lanes).None? <==> s.speed == 0
    ensures Apply(Up, s, lanes).None? <==>
              s.speed == 0 || exists i :: 0 <= i < |s.motos| && s.motos[i].active && s.motos[i].y == 0
    ensures Apply(Down, s, lanes).None? <==>
              s.speed == 0 || exists i :: 0 <= i < |s.motos| && s.motos[i].active && s.motos[i].y == 3
  {
  }

  /** SPEED and SLOW change the speed first; each active motorcycle then makes
      one move at the new speed on its own lane. */
  lemma SpeedSlowEffect(a: Action, s: State, lanes: seq<string>, i: int)
    requires a == Speed || a == Slow
    requires LanesOk(lanes) && ValidState(s) && Apply(a, s, lanes).Some? && 0 <= i < |s.motos|
    ensures Apply(a, s, lanes).value.speed == (if a == Speed then s.speed + 1 else s.speed - 1)
    ensures s.motos[i].active ==>
              Apply(a, s, lanes).value.motos[i] ==
                MoveMoto(s.motos[i], Apply(a, s, lanes).value.speed, lanes[s.motos[i].y])
  {
  }

  /** UP and DOWN keep the speed; an active motorcycle survives exactly when it
      does not cross a gap within speed - 1 cells on its own lane and then does
      not cross one within speed cells on the neighbouring lane, where it ends
      `speed` columns further on. */
  lemma LaneChangeEffect(a: Action, s: State, lanes: seq<string>, i: int)
    requires a == Up || a == Down
    requires LanesOk(lanes) && ValidState(s) && Apply(a, s, lanes).Some? && 0 <= i < |s.motos|
    requires s.motos[i].active
    ensures Apply(a, s, lanes).value.speed == s.speed
    ensures 0 <= s.motos[i].y + Shift(a) < 4
    ensures Apply(a, s, lanes).value.motos[i].active <==>
              !WillFall(lanes[s.motos[i].y], s.motos[i].x, s.speed - 1) &&
              !WillFall(lanes[s.motos[i].y + Shift(a)], s.motos[i].x, s.speed)
    ensures Apply(a, s, lanes).value.motos[i].active ==>
              Apply(a, s, lanes).value.motos[i] == Moto(s.motos[i].x + s.speed, s.motos[i].y + Shift(a), true)
  {
    assert !ActiveOnLane(s.motos, if a == Up then 0 else 3);
  }

  /** JUMP keeps the speed and looks only at the landing cell: an active
      motorcycle is eliminated exactly when `x + speed` lies on its lane and is
      a gap; otherwise it lands there, even beyond the end of the lane. */
  lemma JumpEffect(s: State, lanes: seq<string>, i: int)
    requires LanesOk(lanes) && ValidState(s) && Apply(Jump, s, lanes).Some? && 0 <= i < |s.motos|
    requires s.motos[i].active
    ensures Apply(Jump, s, lanes).value.speed == s.speed
    ensures Apply(Jump, s, lanes).value.motos[i].active <==>
              !(s.motos[i].x + s.speed < |lanes[s.motos[i].y]| && lanes[s.motos[i].y][s.motos[i].x + s.speed] == '0')
    ensures Apply(Jump, s, lanes).value.motos[i].active ==>
              Apply(Jump, s, lanes).value.motos[i] == s.motos[i].(x := s.motos[i].x + s.speed)
  {
  }

  /** JUMP clears a gap that a move at the same speed falls into: one
      motorcycle at column 0 of lane 0 = "1011", speed 2. */
  lemma JumpClearsGap()
    ensures Apply(Jump, State([Moto(0, 0, true)], 2), ["1011", "1111", "1111", "1111"]).value.motos ==
              [Moto(2, 0, true)]
    ensures WillFall("1011", 0, 2)
  {
    assert "1011"[1] == '0';
  }

  /** Only active motorcycles block UP: an eliminated one on lane 0 does not. */
  lemma InactiveOnBoundaryIgnored()
    ensures Apply(Up, State([Moto(0, 0, false), Moto(0, 1, true)], 1), ["1111", "1111", "1111", "1111"]).Some?
  {
  }

  /** Every accepted action keeps the number of motorcycles, leaves eliminated
      ones exactly as they were, and never brings one back. */
  lemma ApplyPreserves(a: Action, s: State, lanes: seq<string>)
    requires LanesOk(lanes) && ValidState(s) && Apply(a, s, lanes).Some?
    ensures |Apply(a, s, lanes).value.motos| == |s.motos|
    ensures forall i :: 0 <= i < |s.motos| && !s.motos[i].active ==> Apply(a, s, lanes).value.motos[i] == s.motos[i]
    ensures forall i :: 0 <= i < |s.motos| && Apply(a, s, lanes).value.motos[i].active ==> s.motos[i].active
  {
  }

  /** SPEED raises speed 1 to 2 before moving: a motorcycle at column 2 of a
      lane without gaps ends at column 4. */
  lemma SpeedExample()
    ensures Apply(Speed, State([Moto(2, 1, true)], 1),
                  ["1101111111", "1111111111", "1111111111", "1111111111"]) ==
              Some(State([Moto(4, 1, true)], 2))
  {
    var s := State([Moto(2, 1, true)], 1);
    var lanes := ["1101111111", "1111111111", "1111111111", "1111111111"];
    assert !WillFall(lanes[1], 2, 2) by {
      forall i | 2 < i <= 4 ensures lanes[1][i] != '0' {
        assert lanes[1][i] == '1';
      }
    }
    ApplyPointwise(Speed, s, lanes, [Moto(4, 1, true)]);
  }

  /** Different decisions are printed under different names. */
  lemma NamesDistinct(d: Decision, e: Decision)
    ensures Name(d) == Name(e) ==> d == e
  {
  }
}
