/** The launch simulation: a fixed 300-step semi-implicit Euler integration of a
    rocket's velocity and altitude under thrust and gravity, with a flat fuel
    burn per step, an irreversible thrust cutoff once the fuel is spent, and a
    pass/fail verdict on the final altitude.

    Velocity and altitude are exact reals; mass, fuel and thrust stay integers,
    as the slider values they start from are. */
module Simulation {
  import Planets

  /** Structural mass of the vehicle, kg. */
  const DryMass: int := 200000
  /** Fuel (and vehicle mass) burnt in every step, kg. */
  const BurnPerStep: int := 800
  /** Number of integration steps of one run. */
  const StepCount: nat := 300
  /** Length of one step. */
  const Dt: real := 0.1
  /** A run succeeds when its final altitude is strictly above this. */
  const SuccessAltitude: real := 100000.0

  /** The inputs of one run: the chosen body's gravity and the three slider values. */
  datatype Config = Config(gravity: real, thrust: int, payload: int, fuel: int)

  /** One trajectory sample: step index, altitude and velocity after that step. */
  datatype Row = Row(time: int, altitude: real, velocity: real)

  /** The loop's variables between two iterations. */
  datatype State = State(velocity: real, altitude: real, fuel: int, mass: int, thrust: int)

  /** The slider ranges and the planet selector: what the controls can hand to a run. */
  predicate FromControls(c: Config)
  {
    && (exists p :: p in Planets.PlanetNames && Planets.GravityOf(p) == Planets.Some(c.gravity))
    && 5000000 <= c.thrust <= 20000000
    && 10000 <= c.payload <= 80000
    && 100000 <= c.fuel <= 500000
  }

  /** Fuel left at the start of iteration k (no floor at zero). */
  function FuelAt(c: Config, k: int): int
  {
    c.fuel - BurnPerStep * k
  }

  /** Vehicle mass at the start of iteration k (no floor at zero). */
  function MassAt(c: Config, k: int): int
  {
    DryMass + c.payload + c.fuel - BurnPerStep * k
  }

  /** The division by the mass in each of the first n iterations is defined. */
  predicate DivisionsDefined(c: Config, n: nat)
  {
    forall k :: 0 <= k < n ==> MassAt(c, k) != 0
  }

  /** Net acceleration: thrust minus weight, over the current mass. */
  function Acceleration(thrust: int, mass: int, gravity: real): real
    requires mass != 0
  {
    (thrust as real - mass as real * gravity) / mass as real
  }

  function Initial(c: Config): State
  {
    State(0.0, 0.0, c.fuel, DryMass + c.payload + c.fuel, c.thrust)
  }

  /** One loop iteration: velocity first, then altitude from the new velocity,
      then the burn, then the cutoff check on the fuel left after the burn. */
  function Step(gravity: real, s: State): State
    requires s.mass != 0
  {
    var velocity := s.velocity + Acceleration(s.thrust, s.mass, gravity) * Dt;
    var altitude := s.altitude + velocity * Dt;
    var fuel := s.fuel - BurnPerStep;
    State(velocity, altitude, fuel, s.mass - BurnPerStep, if fuel <= 0 then 0 else s.thrust)
  }

  /** The loop's variables after n iterations; mass and fuel follow their
      closed forms, losing 800 in every iteration. */
  function StateAfter(c: Config, n: nat): (s: State)
    requires DivisionsDefined(c, n)
    ensures s.mass == MassAt(c, n) && s.fuel == FuelAt(c, n)
    decreases n
  {
    if n == 0 then Initial(c) else Step(c.gravity, StateAfter(c, n - 1))
  }

  /** The sample recorded by iteration t. */
  function RowAt(c: Config, t: nat): Row
    requires DivisionsDefined(c, t + 1)
  {
    var s := StateAfter(c, t + 1);
    Row(t, s.altitude, s.velocity)
  }

  /** The samples recorded by the first n iterations. */
  function Trajectory(c: Config, n: nat): seq<Row>
    requires DivisionsDefined(c, n)
  {
    if n == 0 then [] else Trajectory(c, n - 1) + [RowAt(c, n - 1)]
  }

  /** The verdict: the last sample's altitude strictly above the threshold. */
  function MissionSucceeded(results: seq<Row>): bool
    requires |results| > 0
  {
    results[|results| - 1].altitude > SuccessAltitude
  }

  lemma {:induction false} TrajectoryShape(c: Config, n: nat)
    requires DivisionsDefined(c, n)
    ensures |Trajectory(c, n)| == n
    ensures forall i :: 0 <= i < n ==> Trajectory(c, n)[i] == RowAt(c, i)
  {
    if n > 0 {
      TrajectoryShape(c, n - 1);
    }
  }

  /** The run itself: 300 iterations that update the loop variables in place
      and append one sample per iteration. */
  method Simulate(c: Config) returns (results: seq<Row>)
    requires DivisionsDefined(c, StepCount)
    ensures results == Trajectory(c, StepCount)
    ensures |results| == StepCount
    ensures forall i :: 0 <= i < |results| ==> results[i].time == i
  {
    var thrust := c.thrust;
    var fuel := c.fuel;
    var mass := DryMass + c.payload + fuel;
    var velocity: real := 0.0;
    var altitude: real := 0.0;
    results := [];
    for t := 0 to StepCount
      invariant State(velocity, altitude, fuel, mass, thrust) == StateAfter(c, t)
      invariant results == Trajectory(c, t)
    {
      assert mass == MassAt(c, t);
      var acceleration := Acceleration(thrust, mass, c.gravity);
      velocity := velocity + acceleration * Dt;
      altitude := altitude + velocity * Dt;
      fuel := fuel - BurnPerStep;
      mass := mass - BurnPerStep;
      if fuel <= 0 {
        thrust := 0;
      }
      results := results + [Row(t, altitude, velocity)];
    }
    TrajectoryShape(c, StepCount);
  }
}
