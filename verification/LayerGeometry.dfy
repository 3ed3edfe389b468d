/**
 Layer interfaces, masses and hypsometric heights of a pressure column, over the reals and with the
 logarithm as a parameter.
 */
module LayerGeometry {
  import opened Wrappers

  const STANDARD_GRAVITY := 9.8
  const DRY_AIR_GAS_CONSTANT := 287.04
  const WATER_VAPOR_GAS_CONSTANT := 461.5
  const TOP_LIMIT := 0.1

  datatype GeometryError = TooFewLevels | InvalidGeometry

  /** Pressures in hPa from the surface up, temperatures, humidities, and the lower boundary. */
  datatype Column = Column(
    pressure: seq<real>, temperature: seq<real>, humidity: seq<real>, surface: real, terrain: real)

  ghost predicate WellFormed(c: Column) {
    && |c.pressure| == |c.temperature| == |c.humidity|
    && c.surface > 0.0 && forall i :: 0 <= i < |c.pressure| ==> c.pressure[i] > 0.0
  }

  function Max(a: real, b: real): real { if a < b then b else a }

  function Interface(c: Column, i: nat): real
    requires |c.pressure| >= 2 && i <= |c.pressure|
  {
    var p, n := c.pressure, |c.pressure|;
    if i == 0 then c.surface
    else if i < n then 0.5 * (p[i - 1] + p[i])
    else Max(TOP_LIMIT, p[n - 1] - 0.5 * (p[n - 2] - p[n - 1]))
  }

  function Mass(c: Column, i: nat): real
    requires |c.pressure| >= 2 && i < |c.pressure|
  {
    (Interface(c, i) - Interface(c, i + 1)) * 100.0 / STANDARD_GRAVITY
  }

  function VirtualTemperature(c: Column, i: nat): real
    requires i < |c.temperature| && i < |c.humidity|
  {
    c.temperature[i] * (1.0 + c.humidity[i] * (WATER_VAPOR_GAS_CONSTANT / DRY_AIR_GAS_CONSTANT - 1.0))
  }

  /** The hypsometric thickness between two pressures at a mean virtual temperature. */
  function Thickness(virtual: real, below: real, above: real, log: real -> real): real
    requires above != 0.0
  {
    DRY_AIR_GAS_CONSTANT * virtual / STANDARD_GRAVITY * log(below / above)
  }

  function Height(c: Column, i: nat, log: real -> real): real
    requires WellFormed(c) && i < |c.pressure|
  {
    if i == 0 then c.terrain + Thickness(VirtualTemperature(c, 0), c.surface, c.pressure[0], log)
    else
      Height(c, i - 1, log)
      + Thickness(0.5 * (VirtualTemperature(c, i - 1) + VirtualTemperature(c, i)),
                  c.pressure[i - 1], c.pressure[i], log)
  }

  ghost predicate Sound(c: Column, log: real -> real)
    requires WellFormed(c) && |c.pressure| >= 2
  {
    && (forall i :: 0 <= i < |c.pressure| ==> Mass(c, i) > 0.0)
    && forall i :: 0 < i < |c.pressure| ==> Height(c, i, log) > Height(c, i - 1, log)
  }

  // ------------------------------------------------------------------
  // layer_geometry
  // ------------------------------------------------------------------

  method Interfaces(c: Column) returns (interfaces: array<real>)
    requires |c.pressure| >= 2
    ensures fresh(interfaces) && interfaces.Length == |c.pressure| + 1
    ensures forall i :: 0 <= i < interfaces.Length ==> interfaces[i] == Interface(c, i)
  {
    var n := |c.pressure|;
    interfaces := new real[n + 1];
    interfaces[0] := c.surface;
    forall i | 1 <= i < n {
      interfaces[i] := 0.5 * (c.pressure[i - 1] + c.pressure[i]);
    }
    interfaces[n] := Max(TOP_LIMIT, c.pressure[n - 1] - 0.5 * (c.pressure[n - 2] - c.pressure[n - 1]));
  }

  method Masses(c: Column) returns (mass: array<real>)
    requires |c.pressure| >= 2
    ensures fresh(mass) && mass.Length == |c.pressure|
    ensures forall i :: 0 <= i < mass.Length ==> mass[i] == Mass(c, i)
  {
    hide Interface;
    var interfaces := Interfaces(c);
    mass := new real[|c.pressure|];
    forall i | 0 <= i < mass.Length {
      mass[i] := (interfaces[i] - interfaces[i + 1]) * 100.0 / STANDARD_GRAVITY;
    }
  }

  lemma HeightStep(c: Column, i: nat, log: real -> real)
    requires WellFormed(c) && i < |c.pressure|
    ensures Height(c, i, log) ==
            if i == 0 then c.terrain + Thickness(VirtualTemperature(c, 0), c.surface, c.pressure[0], log)
            else Height(c, i - 1, log)
                 + Thickness(0.5 * (VirtualTemperature(c, i - 1) + VirtualTemperature(c, i)),
                             c.pressure[i - 1], c.pressure[i], log)
  {
  }

  method Heights(c: Column, log: real -> real) returns (height: array<real>)
    requires WellFormed(c) && |c.pressure| >= 1
    ensures fresh(height) && height.Length == |c.pressure|
    ensures forall i :: 0 <= i < height.Length ==> height[i] == Height(c, i, log)
  {
    hide Thickness, VirtualTemperature, Height;
    height := new real[|c.pressure|];
    HeightStep(c, 0, log);
    height[0] := c.terrain + Thickness(VirtualTemperature(c, 0), c.surface, c.pressure[0], log);
    for index := 1 to |c.pressure|
      invariant forall i :: 0 <= i < index ==> height[i] == Height(c, i, log)
    {
      HeightStep(c, index, log);
      var meanVirtual := 0.5 * (VirtualTemperature(c, index - 1) + VirtualTemperature(c, index));
      height[index] := height[index - 1] + Thickness(meanVirtual, c.pressure[index - 1], c.pressure[index], log);
    }
  }

  method Layers(c: Column, log: real -> real) returns (r: Result<(array<real>, array<real>), GeometryError>)
    requires WellFormed(c)
    ensures |c.pressure| < 2 ==> r == Err(TooFewLevels)
    ensures |c.pressure| >= 2 ==> (r.Ok? <==> Sound(c, log))
    ensures r.Ok? ==> r.value.0.Length == r.value.1.Length == |c.pressure|
    ensures r.Ok? ==> forall i :: 0 <= i < |c.pressure| ==>
              r.value.0[i] == Height(c, i, log) && r.value.1[i] == Mass(c, i)
  {
    var n := |c.pressure|;
    if n < 2 {
      return Err(TooFewLevels);
    }
    hide Height, Mass;
    var mass := Masses(c);
    var height := Heights(c, log);
    if (exists i :: 0 <= i < n && mass[i] <= 0.0) || (exists i :: 0 < i < n && height[i] <= height[i - 1]) {
      return Err(InvalidGeometry);
    }
    r := Ok((height, mass));
  }

  // ------------------------------------------------------------------
  // Physical columns
  // ------------------------------------------------------------------

  /** At least two levels, pressures falling from the surface up to 0.1 hPa, virtual temperatures positive. */
  ghost predicate Physical(c: Column) {
    && WellFormed(c) && |c.pressure| >= 2
    && c.surface >= c.pressure[0]
    && (forall i :: 0 < i < |c.pressure| ==> c.pressure[i] < c.pressure[i - 1])
    && (forall i :: 0 <= i < |c.pressure| ==> VirtualTemperature(c, i) > 0.0)
  }

  ghost predicate Logarithm(log: real -> real) {
    log(1.0) == 0.0 && forall x, y :: 0.0 < x < y ==> log(x) < log(y)
  }

  function MassBelow(c: Column, n: nat): real
    requires |c.pressure| >= 2 && n <= |c.pressure|
  {
    if n == 0 then 0.0 else MassBelow(c, n - 1) + Mass(c, n - 1)
  }

  lemma {:induction false} MassTelescopes(c: Column, n: nat)
    requires |c.pressure| >= 2 && n <= |c.pressure|
    ensures MassBelow(c, n) == (c.surface - Interface(c, n)) * 100.0 / STANDARD_GRAVITY
  {
    if n > 0 { MassTelescopes(c, n - 1); }
  }

  /** The level lies between its layer's interfaces. */
  predicate IsInside(c: Column, i: nat)
    requires |c.pressure| >= 2 && i < |c.pressure|
  {
    Interface(c, i + 1) <= c.pressure[i] <= Interface(c, i)
  }

  /** The topmost two pressures leave room above the lowest top interface. */
  predicate RoomAtTop(c: Column)
    requires |c.pressure| >= 2
  {
    c.pressure[|c.pressure| - 2] + c.pressure[|c.pressure| - 1] > 2.0 * TOP_LIMIT
  }

  /**
   Each level lies between its interfaces, except that the top one needs a pressure of at least
   0.1 hPa; each layer has mass, except that the top one needs its level pair to average above it.
   */
  lemma LevelInsideLayer(c: Column, i: nat)
    requires Physical(c) && i < |c.pressure|
    ensures IsInside(c, i) <==> i < |c.pressure| - 1 || c.pressure[i] >= TOP_LIMIT
    ensures Mass(c, i) > 0.0 <==> i < |c.pressure| - 1 || RoomAtTop(c)
  {
    if i + 1 < |c.pressure| {
      assert c.pressure[i + 1] < c.pressure[i];
    }
    if i > 0 {
      assert c.pressure[i] < c.pressure[i - 1];
    }
    var drop := Interface(c, i) - Interface(c, i + 1);
    assert Mass(c, i) == drop * 100.0 / STANDARD_GRAVITY;
  }

  lemma QuotientAboveOne(below: real, above: real)
    requires 0.0 < above < below
    ensures below / above > 1.0
  {
    var quotient := below / above;
    assert quotient * above == below;
    assert (quotient - 1.0) * above > 0.0;
  }

  lemma PositiveThickness(virtual: real, below: real, above: real, log: real -> real)
    requires Logarithm(log) && virtual > 0.0 && 0.0 < above < below
    ensures Thickness(virtual, below, above, log) > 0.0
  {
    QuotientAboveOne(below, above);
    var factor := DRY_AIR_GAS_CONSTANT * virtual / STANDARD_GRAVITY;
    assert factor > 0.0 && log(below / above) > 0.0;
  }

  lemma HeightsRise(c: Column, i: nat, log: real -> real)
    requires Physical(c) && Logarithm(log) && i < |c.pressure|
    ensures i == 0 ==> Height(c, 0, log) >= c.terrain
    ensures i > 0 ==> Height(c, i, log) > Height(c, i - 1, log)
  {
    if i > 0 {
      var mean := 0.5 * (VirtualTemperature(c, i - 1) + VirtualTemperature(c, i));
      PositiveThickness(mean, c.pressure[i - 1], c.pressure[i], log);
    } else if c.surface == c.pressure[0] {
      assert c.surface / c.pressure[0] == 1.0;
    } else {
      PositiveThickness(VirtualTemperature(c, 0), c.surface, c.pressure[0], log);
    }
  }

  /**
   On a physical column the error exit is taken exactly when the topmost two pressures average at
   most 0.1 hPa; the masses add up to the column between surface and top interface, heights rise
   strictly from at or above the terrain, and all levels lie inside their layers exactly when the
   top one is at least 0.1 hPa.
   */
  lemma PhysicalColumnIsSound(c: Column, log: real -> real)
    requires Physical(c) && Logarithm(log)
    ensures Sound(c, log) <==> RoomAtTop(c)
    ensures Height(c, 0, log) >= c.terrain
    ensures forall i :: 0 < i < |c.pressure| ==> Height(c, i, log) > Height(c, i - 1, log)
    ensures MassBelow(c, |c.pressure|) == (c.surface - Interface(c, |c.pressure|)) * 100.0 / STANDARD_GRAVITY
    ensures (forall i :: 0 <= i < |c.pressure| ==> IsInside(c, i)) <==> c.pressure[|c.pressure| - 1] >= TOP_LIMIT
  {
    hide Height, Interface, Mass, VirtualTemperature, RoomAtTop, Logarithm, MassBelow;
    forall i | 0 < i < |c.pressure| ensures Height(c, i, log) > Height(c, i - 1, log) { HeightsRise(c, i, log); }
    HeightsRise(c, 0, log);
    MassTelescopes(c, |c.pressure|);
    MassesPositive(c);
    LevelsInside(c);
  }

  lemma MassesPositive(c: Column)
    requires Physical(c)
    ensures (forall i :: 0 <= i < |c.pressure| ==> Mass(c, i) > 0.0) <==> RoomAtTop(c)
  {
    hide Interface, Mass, RoomAtTop, VirtualTemperature;
    var top := |c.pressure| - 1;
    forall i | 0 <= i < |c.pressure| ensures Mass(c, i) > 0.0 <==> i < top || RoomAtTop(c) { LevelInsideLayer(c, i); }
    assert Mass(c, top) > 0.0 <==> RoomAtTop(c);
  }

  lemma LevelsInside(c: Column)
    requires Physical(c)
    ensures (forall i :: 0 <= i < |c.pressure| ==> IsInside(c, i)) <==> c.pressure[|c.pressure| - 1] >= TOP_LIMIT
  {
    hide IsInside, Mass, RoomAtTop, VirtualTemperature;
    var top := |c.pressure| - 1;
    forall i | 0 <= i < |c.pressure|
      ensures IsInside(c, i) <==> i < top || c.pressure[i] >= TOP_LIMIT
    {
      LevelInsideLayer(c, i);
    }
    assert IsInside(c, top) <==> c.pressure[top] >= TOP_LIMIT;
  }

  /** A column that is accepted although its top level lies above its layer. */
  lemma TopLevelOutsideIsAccepted(log: real -> real) returns (c: Column)
    requires Logarithm(log)
    ensures Physical(c) && Sound(c, log) && !IsInside(c, |c.pressure| - 1)
  {
    c := Column([1.0, 0.05], [200.0, 200.0], [0.0, 0.0], 1000.0, 0.0);
    assert VirtualTemperature(c, 0) == 200.0 && VirtualTemperature(c, 1) == 200.0;
    PhysicalColumnIsSound(c, log);
    LevelInsideLayer(c, 1);
  }

  /** A physical column that is refused: its topmost two pressures add up to less than 0.2 hPa. */
  lemma HighColumnIsRefused(log: real -> real) returns (c: Column)
    requires Logarithm(log)
    ensures Physical(c) && !Sound(c, log)
  {
    c := Column([0.1, 0.05], [200.0, 200.0], [0.0, 0.0], 1000.0, 0.0);
    assert VirtualTemperature(c, 0) == 200.0 && VirtualTemperature(c, 1) == 200.0;
    PhysicalColumnIsSound(c, log);
  }

  // ------------------------------------------------------------------
  // What the numbers are
  // ------------------------------------------------------------------

  /** Inner interfaces are midpoints of their levels, and the top one mirrors the one below it unless cut at 0.1 hPa. */
  lemma InterfacesExact(c: Column, i: nat)
    requires |c.pressure| >= 2 && i <= |c.pressure|
    ensures i == 0 ==> Interface(c, i) == c.surface
    ensures 0 < i < |c.pressure| ==> c.pressure[i - 1] - Interface(c, i) == Interface(c, i) - c.pressure[i]
    ensures i == |c.pressure| ==>
              var mirrored := c.pressure[i - 1] - (Interface(c, i - 1) - c.pressure[i - 1]);
              i >= 2 && Interface(c, i - 1) == 0.5 * (c.pressure[i - 2] + c.pressure[i - 1]) ==>
                Interface(c, i) == if mirrored > 0.1 then mirrored else 0.1
  {
  }

  /** A layer's mass is its pressure drop in pascals over gravity. */
  lemma MassExact(c: Column, i: nat)
    requires |c.pressure| >= 2 && i < |c.pressure|
    ensures Mass(c, i) * 9.8 == 100.0 * Interface(c, i) - 100.0 * Interface(c, i + 1)
  {
  }

  /** Virtual temperature: dry air at that temperature has the density of the moist air, by the two gas constants. */
  lemma VirtualTemperatureExact(c: Column, i: nat)
    requires i < |c.temperature| && i < |c.humidity|
    ensures var q := c.humidity[i];
            287.04 * VirtualTemperature(c, i) == c.temperature[i] * ((1.0 - q) * 287.04 + q * 461.5)
  {
    var t, q, k := c.temperature[i], c.humidity[i], WATER_VAPOR_GAS_CONSTANT / DRY_AIR_GAS_CONSTANT;
    assert k * 287.04 == 461.5;
    assert 287.04 * (1.0 + q * (k - 1.0)) == (1.0 - q) * 287.04 + q * (k * 287.04);
    assert 287.04 * VirtualTemperature(c, i) == t * (287.04 * (1.0 + q * (k - 1.0)));
  }

  /** The temperature is the same at every level, and the air is dry. */
  ghost predicate DryIsothermal(c: Column, t: real) {
    WellFormed(c) && forall i :: 0 <= i < |c.pressure| ==> c.temperature[i] == t && c.humidity[i] == 0.0
  }

  ghost predicate TurnsProductsIntoSums(log: real -> real) {
    forall x, y :: x > 0.0 && y > 0.0 ==> log(x * y) == log(x) + log(y)
  }

  lemma LogOfQuotient(x: real, y: real, z: real, log: real -> real)
    requires TurnsProductsIntoSums(log) && x > 0.0 && y > 0.0 && z > 0.0
    ensures log(x / y) + log(y / z) == log(x / z)
  {
    PositiveQuotient(x, y);
    PositiveQuotient(y, z);
    QuotientsChain(x, y, z);
    var sum := log(x / y * (y / z));
    assert sum == log(x / y) + log(y / z);
  }

  lemma QuotientsChain(x: real, y: real, z: real)
    requires x > 0.0 && y > 0.0 && z > 0.0
    ensures x / y * (y / z) == x / z
  {
    var a, b := x / y, y / z;
    assert a * y == x && b * z == y;
    Reassociate(a, b, z);
    QuotientUnique(a * b, z, x);
  }

  lemma Reassociate(a: real, b: real, z: real)
    ensures a * b * z == a * (b * z)
  {
  }

  lemma QuotientUnique(p: real, z: real, x: real)
    requires z > 0.0 && p * z == x
    ensures p == x / z
  {
  }

  lemma PositiveQuotient(x: real, y: real)
    requires x > 0.0 && y > 0.0
    ensures x / y > 0.0
  {
  }

  /** How far dry air of temperature t rises over a logarithm of pressures: R t / g times it. */
  function DryRise(t: real, logarithm: real): real {
    287.04 * t / 9.8 * logarithm
  }

  lemma {:induction false} ThicknessesAddUp(c: Column, t: real, i: nat, log: real -> real)
    requires DryIsothermal(c, t) && TurnsProductsIntoSums(log) && i < |c.pressure|
    ensures Height(c, i, log) == c.terrain + Thickness(t, c.surface, c.pressure[i], log)
  {
    DryVirtual(c, t, i);
    HeightStep(c, i, log);
    hide Height, VirtualTemperature, Thickness, TurnsProductsIntoSums;
    if i > 0 {
      ThicknessesAddUp(c, t, i - 1, log);
      DryVirtual(c, t, i - 1);
      assert 0.5 * (t + t) == t;
      ThicknessAppends(t, c.surface, c.pressure[i - 1], c.pressure[i], log);
    }
  }

  lemma ThicknessAppends(t: real, x: real, y: real, z: real, log: real -> real)
    requires TurnsProductsIntoSums(log) && x > 0.0 && y > 0.0 && z > 0.0
    ensures Thickness(t, x, y, log) + Thickness(t, y, z, log) == Thickness(t, x, z, log)
  {
    DryThickness(t, x, y, log);
    DryThickness(t, y, z, log);
    DryThickness(t, x, z, log);
    LogOfQuotient(x, y, z, log);
    hide Thickness, TurnsProductsIntoSums;
    Distribute(287.04 * t / 9.8, log(x / y), log(y / z));
  }

  /** The barometric formula: in dry air of one temperature a level's height follows from its pressure alone. */
  lemma BarometricHeight(c: Column, t: real, i: nat, log: real -> real)
    requires DryIsothermal(c, t) && TurnsProductsIntoSums(log) && i < |c.pressure|
    ensures Height(c, i, log) == c.terrain + DryRise(t, log(c.surface / c.pressure[i]))
  {
    assert c.pressure[i] > 0.0;
    hide *;
    ThicknessesAddUp(c, t, i, log);
    DryThickness(t, c.surface, c.pressure[i], log);
  }

  lemma DryVirtual(c: Column, t: real, i: nat)
    requires DryIsothermal(c, t) && i < |c.pressure|
    ensures VirtualTemperature(c, i) == t
  {
  }

  lemma DryThickness(t: real, below: real, above: real, log: real -> real)
    requires above > 0.0
    ensures Thickness(t, below, above, log) == DryRise(t, log(below / above))
  {
  }

  lemma Distribute(k: real, a: real, b: real)
    ensures k * (a + b) == k * a + k * b
  {
  }

  /** A mean layer: each thickness uses the mean of its two levels' virtual temperatures. */
  lemma ThicknessExact(c: Column, i: nat, log: real -> real)
    requires WellFormed(c) && 0 < i < |c.pressure|
    ensures 19.6 * (Height(c, i, log) - Height(c, i - 1, log))
            == 287.04 * (VirtualTemperature(c, i - 1) + VirtualTemperature(c, i))
               * log(c.pressure[i - 1] / c.pressure[i])
  {
    hide VirtualTemperature;
  }
}
