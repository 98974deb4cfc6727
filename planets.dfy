/** The planet selector of the mission simulation: the fixed table that maps a
    body's name to its surface gravity (m/s^2), in the order the selector lists
    the bodies. */
module Planets {

  datatype Option<T> = None | Some(value: T)

  /** The selector's choices, in the table's insertion order. */
  const PlanetNames: seq<string> :=
    ["Moon", "Mars", "Venus", "Jupiter", "Saturn",
     "Mercury", "Neptune", "Europa", "Titan", "Pluto"]

  /** Surface gravity of each body. */
  const PlanetGravity: map<string, real> :=
    map["Moon" := 1.62, "Mars" := 3.71, "Venus" := 8.87, "Jupiter" := 24.79,
        "Saturn" := 10.44, "Mercury" := 3.7, "Neptune" := 11.15,
        "Europa" := 1.31, "Titan" := 1.35, "Pluto" := 0.62]

  /** Looks a body up in the table; None stands for the lookup error that a
      name outside the table raises. */
  function GravityOf(planet: string): (g: Option<real>)
    ensures g.Some? <==> planet in PlanetNames
    ensures g.Some? ==> 0.62 <= g.value <= 24.79
  {
    if planet in PlanetGravity then Some(PlanetGravity[planet]) else None
  }

  /** The selector offers each body of the table exactly once, and every
      gravity in the table is positive and between Pluto's and Jupiter's. */
  lemma TableIsWellFormed()
    ensures |PlanetNames| == 10
    ensures forall i, j :: 0 <= i < j < |PlanetNames| ==> PlanetNames[i] != PlanetNames[j]
    ensures forall p :: p in PlanetGravity <==> p in PlanetNames
    ensures forall g :: g in PlanetGravity.Values ==> 0.62 <= g <= 24.79
  {
  }
}
