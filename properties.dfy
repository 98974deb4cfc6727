/** What the launch simulation guarantees: bookkeeping of the trajectory, the
    closed forms of mass, fuel and thrust, the integration order, the behaviour
    after cutoff, and the verdict. */
module SimulationProperties {
  import Planets
  import opened Simulation

  /** The controls keep the vehicle at 70800 kg or more at every division,
      so the acceleration of a run started from them is always defined; the
      lightest load on the last iteration reaches that bound exactly. */
  lemma ControlsKeepMassPositive(c: Config)
    requires FromControls(c)
    ensures forall k :: 0 <= k < StepCount ==> MassAt(c, k) >= 70800
    ensures DivisionsDefined(c, StepCount)
    ensures exists d :: FromControls(d) && MassAt(d, StepCount - 1) == 70800
  {
    var lightest := Config(1.62, 5000000, 10000, 100000);
    assert Planets.GravityOf("Moon") == Planets.Some(1.62);
    assert FromControls(lightest) && MassAt(lightest, StepCount - 1) == 70800;
  }

  /** Thrust stays at its initial value until an iteration leaves no fuel
      after its burn, and is zero from then on. */
  lemma {:induction false} ThrustClosedForm(c: Config, n: nat)
    requires DivisionsDefined(c, n)
    ensures StateAfter(c, n).thrust == if n > 0 && FuelAt(c, n) <= 0 then 0 else c.thrust
  {
    if n > 0 {
      ThrustClosedForm(c, n - 1);
    }
  }

  /** Once thrust is cut, it never comes back. */
  lemma {:induction false} CutoffIsPermanent(c: Config, i: nat, j: nat)
    requires i <= j && DivisionsDefined(c, j)
    requires StateAfter(c, i).thrust == 0
    ensures StateAfter(c, j).thrust == 0
  {
    if i < j {
      CutoffIsPermanent(c, i, j - 1);
    }
  }

  /** If iteration t is the first whose burn leaves no fuel, then every
      iteration up to and including t accelerates with the initial thrust and
      every later one with none. */
  lemma CutoffTiming(c: Config, t: nat)
    requires DivisionsDefined(c, StepCount) && t < StepCount
    requires t == 0 || FuelAt(c, t) > 0
    requires FuelAt(c, t + 1) <= 0
    ensures forall k :: 0 <= k <= t ==> StateAfter(c, k).thrust == c.thrust
    ensures forall k :: t < k <= StepCount ==> StateAfter(c, k).thrust == 0
  {
    forall k | 0 <= k <= StepCount
      ensures StateAfter(c, k).thrust == if k <= t then c.thrust else 0
    {
      ThrustClosedForm(c, k);
    }
  }

  /** After n iterations the engine still has its initial thrust exactly when
      the fuel outlasts n burns of 800 kg (or no iteration ran, or the thrust
      was zero to begin with); with such fuel it never cut off on the way. */
  lemma {:induction false} AmpleFuelNeverCutsOff(c: Config, n: nat)
    requires DivisionsDefined(c, n)
    ensures StateAfter(c, n).thrust == c.thrust
            <==> n == 0 || c.fuel > BurnPerStep * n || c.thrust == 0
    ensures c.fuel > BurnPerStep * n ==>
              forall k :: 0 <= k <= n ==> StateAfter(c, k).thrust == c.thrust
  {
    forall k | 0 <= k <= n
      ensures StateAfter(c, k).thrust == if k > 0 && FuelAt(c, k) <= 0 then 0 else c.thrust
    {
      ThrustClosedForm(c, k);
    }
  }

  /** Semi-implicit Euler: each sample's velocity is the previous one plus the
      acceleration of that iteration times dt, and its altitude is the previous
      one plus the NEW velocity times dt (the run starts at rest on the ground). */
  lemma RowsFollowSemiImplicitEuler(c: Config, n: nat, i: nat)
    requires DivisionsDefined(c, n) && i < n
    ensures var rows := Trajectory(c, n);
            var thrust := if i > 0 && FuelAt(c, i) <= 0 then 0 else c.thrust;
            |rows| == n
            && rows[i].velocity == (if i == 0 then 0.0 else rows[i - 1].velocity)
                                   + Acceleration(thrust, MassAt(c, i), c.gravity) * Dt
            && rows[i].altitude == (if i == 0 then 0.0 else rows[i - 1].altitude)
                                   + rows[i].velocity * Dt
  {
    TrajectoryShape(c, n);
    ThrustClosedForm(c, i);
  }

  /** With no thrust the acceleration is gravity alone, pointing down. */
  lemma CoastingAcceleration(mass: int, gravity: real)
    requires mass != 0
    ensures Acceleration(0, mass, gravity) == -gravity
  {
    var m := mass as real;
    assert (0.0 - m * gravity) / m == -(m * gravity) / m;
  }

  /** After the cutoff every sample's velocity is lower than the previous one
      by exactly gravity times dt. */
  lemma VelocityFallsAfterCutoff(c: Config, n: nat, i: nat)
    requires DivisionsDefined(c, n) && 0 < i < n
    requires FuelAt(c, i) <= 0 && c.gravity > 0.0
    ensures |Trajectory(c, n)| == n
    ensures Trajectory(c, n)[i].velocity == Trajectory(c, n)[i - 1].velocity - c.gravity * Dt
    ensures Trajectory(c, n)[i].velocity < Trajectory(c, n)[i - 1].velocity
  {
    RowsFollowSemiImplicitEuler(c, n, i);
    CoastingAcceleration(MassAt(c, i), c.gravity);
  }

  /** With no thrust, every sample's velocity is below zero: the run falls
      from the first step on. */
  lemma {:induction false} FreeFallVelocityNegative(c: Config, n: nat, i: nat)
    requires DivisionsDefined(c, n) && i < n
    requires c.thrust == 0 && c.gravity > 0.0
    ensures |Trajectory(c, n)| == n
    ensures Trajectory(c, n)[i].velocity < 0.0
  {
    RowsFollowSemiImplicitEuler(c, n, i);
    CoastingAcceleration(MassAt(c, i), c.gravity);
    if i > 0 {
      FreeFallVelocityNegative(c, n, i - 1);
    }
  }

  /** A run with no thrust at all falls from the first sample on: velocity and
      altitude are negative after the first step, and both strictly decrease
      at every step. */
  lemma FreeFall(c: Config, n: nat)
    requires DivisionsDefined(c, n) && 0 < n
    requires c.thrust == 0 && c.gravity > 0.0
    ensures |Trajectory(c, n)| == n
    ensures Trajectory(c, n)[0].velocity < 0.0
    ensures Trajectory(c, n)[0].altitude < 0.0
    ensures forall i :: 0 < i < n ==> Trajectory(c, n)[i].velocity < Trajectory(c, n)[i - 1].velocity
    ensures forall i :: 0 < i < n ==> Trajectory(c, n)[i].altitude < Trajectory(c, n)[i - 1].altitude
  {
    var rows := Trajectory(c, n);
    TrajectoryShape(c, n);
    forall i | 0 <= i < n
      ensures rows[i].velocity == (if i == 0 then 0.0 else rows[i - 1].velocity) - c.gravity * Dt
      ensures rows[i].altitude < (if i == 0 then 0.0 else rows[i - 1].altitude)
    {
      RowsFollowSemiImplicitEuler(c, n, i);
      CoastingAcceleration(MassAt(c, i), c.gravity);
      FreeFallVelocityNegative(c, n, i);
    }
    RowsFollowSemiImplicitEuler(c, n, 0);
    CoastingAcceleration(MassAt(c, 0), c.gravity);
    FreeFallVelocityNegative(c, n, 0);
  }

  /** The verdict of a run depends only on its final altitude, and the
      threshold is strict: landing exactly on it is a failure. */
  lemma VerdictOfRun(c: Config)
    requires DivisionsDefined(c, StepCount)
    ensures MissionSucceeded(Trajectory(c, StepCount))
            <==> StateAfter(c, StepCount).altitude > SuccessAltitude
    ensures StateAfter(c, StepCount).altitude == SuccessAltitude
            ==> !MissionSucceeded(Trajectory(c, StepCount))
  {
    TrajectoryShape(c, StepCount);
  }

  /** (t - m*g)/m stays at or below 100 when t <= 100*m, m > 0 and g >= 0. */
  lemma QuotientAtMostHundred(t: real, m: real, g: real)
    requires m > 0.0 && g >= 0.0 && t <= 100.0 * m
    ensures (t - m * g) / m <= 100.0
  {
    var q := (t - m * g) / m;
    assert q * m == t - m * g;
    assert m * g >= 0.0;
    assert q * m <= 100.0 * m;
  }

  /** A coasting vehicle, or one pushing at most 20000000 N against at least
      210000 kg, accelerates by at most 100 under a non-negative gravity. */
  lemma AccelerationBound(thrust: int, mass: int, gravity: real)
    requires gravity >= 0.0
    requires (thrust == 0 && mass > 0) || (0 <= thrust <= 20000000 && mass >= 210000)
    ensures Acceleration(thrust, mass, gravity) <= 100.0
  {
    if thrust == 0 {
      CoastingAcceleration(mass, gravity);
    } else {
      QuotientAtMostHundred(thrust as real, mass as real, gravity);
    }
  }

  /** Under the controls no iteration accelerates by more than 100: while the
      engine burns, at least 10000 kg of payload and some fuel remain on top of
      the 200000 kg structure, against at most 20000000 N of thrust. */
  lemma AccelerationAtMostHundred(c: Config, t: nat)
    requires FromControls(c) && t < StepCount
    ensures DivisionsDefined(c, t + 1)
    ensures Acceleration(StateAfter(c, t).thrust, MassAt(c, t), c.gravity) <= 100.0
  {
    ControlsKeepMassPositive(c);
    var planet :| planet in Planets.PlanetNames && Planets.GravityOf(planet) == Planets.Some(c.gravity);
    assert c.gravity >= 0.62;
    ThrustClosedForm(c, t);
    var thrust := StateAfter(c, t).thrust;
    assert thrust == 0 || (t == 0 || FuelAt(c, t) > 0);
    AccelerationBound(thrust, MassAt(c, t), c.gravity);
  }

  /** For a positive thrust, T/m - g grows as the mass m shrinks. */
  lemma QuotientRisesAsMassFalls(t: real, mi: real, mj: real, g: real)
    requires t > 0.0 && 0.0 < mj < mi
    ensures (t - mi * g) / mi < (t - mj * g) / mj
  {
    assert (t - mi * g) / mi == t / mi - g;
    assert (t - mj * g) / mj == t / mj - g;
    assert t / mi * mi == t;
    assert t / mj * mj == t;
    assert t / mi * mj < t / mi * mi;
    assert t / mi < t / mj;
  }

  /** The same thrust against a lighter vehicle accelerates it more. */
  lemma AccelerationRisesAsMassFalls(thrust: int, heavier: int, lighter: int, gravity: real)
    requires thrust > 0 && 0 < lighter < heavier
    ensures Acceleration(thrust, heavier, gravity) < Acceleration(thrust, lighter, gravity)
  {
    QuotientRisesAsMassFalls(thrust as real, heavier as real, lighter as real, gravity);
  }

  /** Weight is taken from the current mass, so under the controls the
      acceleration rises from one iteration to any later one as long as the
      engine still burns. */
  lemma AccelerationRisesWhileBurning(c: Config, i: nat, j: nat)
    requires FromControls(c) && i < j < StepCount && FuelAt(c, j) > 0
    ensures DivisionsDefined(c, j + 1)
    ensures Acceleration(StateAfter(c, i).thrust, MassAt(c, i), c.gravity)
            < Acceleration(StateAfter(c, j).thrust, MassAt(c, j), c.gravity)
  {
    ControlsKeepMassPositive(c);
    ThrustClosedForm(c, i);
    ThrustClosedForm(c, j);
    assert StateAfter(c, i).thrust == c.thrust && StateAfter(c, j).thrust == c.thrust;
    AccelerationRisesAsMassFalls(c.thrust, MassAt(c, i), MassAt(c, j), c.gravity);
  }

  /** Under the controls, after n steps the velocity is at most 10n and the
      altitude at most n(n+1)/2. */
  lemma {:induction false} RiseBounded(c: Config, n: nat)
    requires FromControls(c) && n <= StepCount
    ensures DivisionsDefined(c, n)
    ensures StateAfter(c, n).velocity <= 10.0 * n as real
    ensures 2.0 * StateAfter(c, n).altitude <= (n * (n + 1)) as real
  {
    ControlsKeepMassPositive(c);
    if n > 0 {
      RiseBounded(c, n - 1);
      AccelerationAtMostHundred(c, n - 1);
      assert n * (n + 1) == (n - 1) * n + 2 * n;
    }
  }

  /** No run the controls can start reaches the success altitude: the final
      altitude is at most 45150, far below 100000, so the verdict is always
      failure. */
  lemma NoControlledLaunchSucceeds(c: Config)
    requires FromControls(c)
    ensures DivisionsDefined(c, StepCount)
    ensures StateAfter(c, StepCount).altitude <= 45150.0
    ensures !MissionSucceeded(Trajectory(c, StepCount))
  {
    RiseBounded(c, StepCount);
    VerdictOfRun(c);
  }

  /** Mars, 15000000 N, 30000 kg payload, 300000 kg fuel: the vehicle starts at
      530000 kg, the thrust never cuts off, and the mission still fails. */
  lemma MarsScenario()
    ensures var c := Config(3.71, 15000000, 30000, 300000);
            && FromControls(c)
            && MassAt(c, 0) == 530000
            && (forall n :: 0 <= n <= StepCount ==> StateAfter(c, n).thrust == c.thrust)
            && !MissionSucceeded(Trajectory(c, StepCount))
  {
    var c := Config(3.71, 15000000, 30000, 300000);
    assert Planets.GravityOf("Mars") == Planets.Some(3.71);
    AmpleFuelNeverCutsOff(c, StepCount);
    NoControlledLaunchSucceeds(c);
  }

  /** In the same Mars run the first step accelerates by 13033700/530000
      (about 24.59), so the first sample climbs at 13033700/5300000 m/s (about
      2.459) and stands 13033700/53000000 m (about 0.2459) up. */
  lemma MarsFirstSample()
    ensures var c := Config(3.71, 15000000, 30000, 300000);
            && RowAt(c, 0).time == 0
            && RowAt(c, 0).velocity == 13033700.0 / 5300000.0
            && RowAt(c, 0).altitude == 13033700.0 / 53000000.0
  {
    var c := Config(3.71, 15000000, 30000, 300000);
    var a := Acceleration(15000000, 530000, 3.71);
    assert a == 13033700.0 / 530000.0;
    assert StateAfter(c, 1) == Step(3.71, Initial(c));
    assert RowAt(c, 0).velocity == a * Dt;
  }
}
