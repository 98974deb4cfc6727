# Launch simulation of Cosmic Mission Control

This project models the mission-simulation core of the Cosmic Mission Control dashboard (`app.py`).
The user picks a body from a ten-entry gravity table and sets three sliders: thrust, payload and fuel.
A fixed 300-step loop then integrates the rocket's velocity and altitude:

- acceleration is (thrust − mass·gravity)/mass;
- velocity is updated first, then altitude from the new velocity (semi-implicit Euler, dt = 0.1);
- each step burns 800 kg from both fuel and mass;
- thrust is cut to zero for good once the fuel left after a burn is 0 or less;
- each step appends one `(time, altitude, velocity)` sample.

The run succeeds when the last sample's altitude is strictly above 100000.

The Dafny project has three files:

- `planets.dfy` (module `Planets`): the gravity table, the selector's order and the lookup.
- `simulation.dfy` (module `Simulation`): the configuration, the loop state and one sample row.
  `Step`, `StateAfter` and `Trajectory` are the reference definitions of the loop.
  `Simulate` is the imperative loop itself, a `for` loop that updates its variables in place; it is proved equal to `Trajectory`.
  `MissionSucceeded` is the verdict.
  The reference functions model these source lines:
  `Acceleration` is the expression at app.py:143; `Step` is one iteration's body, app.py:143-149;
  `Trajectory` (with `RowAt`) is the list built by app.py:140-150; `MissionSucceeded` is the comparison at app.py:171;
  `FromControls` is the selector and slider ranges at app.py:123-128.
- `properties.dfy` (module `SimulationProperties`): the lemmas about the run.

Velocity and altitude are exact `real`s, with dt equal to 1/10. Mass, fuel and thrust are integers, as the slider values are.

What the proofs show about the code as written:

- The mass is never floored at zero.
  Under the slider ranges it is still at least 70800 kg at every division, so the acceleration is always defined.
- The success verdict can never be reached from the controls.
  While the engine burns, the mass exceeds 210000 kg against at most 20000000 N of thrust, so acceleration never exceeds 100.
  So after n steps the velocity is at most 10n and the altitude at most n(n+1)/2. After 300 steps that is 45150, far below 100000.
- One example is the Mars run with 15000000 N of thrust, 30000 kg of payload and 300000 kg of fuel.
  The code reports failure for it, and `MarsScenario` proves that.
  In that run the model's first acceleration is exactly 13033700/530000 (`MarsFirstSample`); the code's float is ≈ 24.592.

## Model

| member | source | states |
|---|---|---|
| `Planets.GravityOf` | app.py:117-124 | lookup succeeds exactly for the ten names the selector offers, and every gravity found lies between 0.62 and 24.79 |
| `Planets.TableIsWellFormed` | app.py:117-123 | the selector lists ten distinct bodies, exactly the table's keys, and every table gravity is in [0.62, 24.79] |
| `Simulation.StateAfter` | app.py:135-149 | after n iterations mass is 200000 + payload + fuel − 800n and fuel is fuel − 800n (no floor at zero) |
| `Simulation.TrajectoryShape` | app.py:140-150 | the first n iterations record exactly n samples, sample i being the one iteration i appends |
| `Simulation.Simulate` | app.py:135-150 | the loop returns exactly the reference trajectory of 300 samples, and sample i carries time index i |
| `SimulationProperties.ControlsKeepMassPositive` | app.py:126-143 | under the slider ranges the mass is at least 70800 at every one of the 300 divisions (so all are defined), and 70800 is attained |
| `SimulationProperties.ThrustClosedForm` | app.py:146-149 | after n iterations thrust is 0 if n > 0 and fuel − 800n ≤ 0, and the initial thrust otherwise |
| `SimulationProperties.CutoffIsPermanent` | app.py:146-149 | once thrust is 0 it stays 0 for every later iteration |
| `SimulationProperties.CutoffTiming` | app.py:142-149 | if iteration t is the first whose burn leaves no fuel, iterations 0..t use the initial thrust and all later ones use none |
| `SimulationProperties.AmpleFuelNeverCutsOff` | app.py:142-149 | after n iterations thrust is still initial iff n = 0, fuel > 800n or thrust was 0; with fuel > 800n it never cut off (for the 300-step run: fuel > 240000) |
| `SimulationProperties.RowsFollowSemiImplicitEuler` | app.py:143-145 | each sample's velocity is the previous velocity plus that iteration's acceleration times dt, and its altitude is the previous altitude plus the new velocity times dt, starting from rest |
| `SimulationProperties.CoastingAcceleration` | app.py:143 | with zero thrust the acceleration equals −gravity |
| `SimulationProperties.VelocityFallsAfterCutoff` | app.py:143-149 | after cutoff each sample's velocity is exactly gravity·dt below the previous one, so strictly lower for positive gravity |
| `SimulationProperties.FreeFallVelocityNegative` | app.py:136-144 | with zero initial thrust and positive gravity every sample's velocity is negative |
| `SimulationProperties.FreeFall` | app.py:136-145 | with zero initial thrust and positive gravity the first velocity and altitude are negative, and both strictly decrease at every step |
| `SimulationProperties.VerdictOfRun` | app.py:171-174 | the run succeeds iff the final altitude is strictly above 100000; exactly 100000 is a failure |
| `SimulationProperties.AccelerationRisesWhileBurning` | app.py:143-149 | under the controls, while fuel remains, a later iteration's acceleration is strictly greater than an earlier one's, because weight is taken from the shrinking mass |
| `SimulationProperties.AccelerationAtMostHundred` | app.py:126-149 | under the controls no iteration's acceleration exceeds 100 |
| `SimulationProperties.RiseBounded` | app.py:135-145 | under the controls, after n steps velocity ≤ 10n and altitude ≤ n(n+1)/2 |
| `SimulationProperties.NoControlledLaunchSucceeds` | app.py:126-171 | under the controls the final altitude is at most 45150, so the verdict is always failure |
| `SimulationProperties.MarsScenario` | app.py:117-150 | the Mars run with 15000000 N, 30000 kg and 300000 kg starts at 530000 kg, never cuts thrust, and fails |
| `SimulationProperties.MarsFirstSample` | app.py:135-145 | in that run the first sample has time 0, velocity exactly 13033700/5300000 (≈ 2.459) and altitude exactly 13033700/53000000 (≈ 0.2459) |

## Left out

- Page setup, styling, titles and the success/failure messages are left out (app.py:12-49, 115, 132, 172-174): they are presentation only.
- The launch button's rerun semantics and the one-second pause are left out (app.py:130-133): they are framework timing, not logic.
- CSV loading, date parsing, the KPI aggregates and the agency/destination filters are left out (app.py:55-88): they are pandas calls over external data.
- All Plotly charts, including the 3-D trajectory plot, are left out (app.py:96-109, 152-169). The run returns its samples as a sequence of `Row` values instead of a DataFrame.
- IEEE-754 rounding is not modelled. Velocity and altitude are exact reals, and 0.1 is exactly one tenth.
- A zero mass would raise a division error at app.py:143. That case is excluded by `Simulate`'s precondition that the mass is non-zero at each of the 300 divisions. `ControlsKeepMassPositive` shows that every configuration the sliders allow meets that precondition.
- The dictionary lookup error for a name outside the planet table is modelled as `None` from `GravityOf`. The selector never produces such a name.
- The run keeps its loop variables after the loop, but the source never reads them again, so `Simulate` returns only the samples.
