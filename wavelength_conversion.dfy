/**
 * Conversion between vacuum and air wavelengths (in ångström) through the
 * refractive index of standard air, and the choice of which one to display.
 */
module WavelengthConversion {
  import opened EmissionData

  const INDEX_CONSTANT_TERM: real := 0.0002735182
  const INDEX_SQUARE_TERM: real := 131.4182
  const INDEX_FOURTH_POWER_TERM: real := 276249000.0

  /** The fixed number of fixed-point steps `airToVacuum` takes; there is no convergence test. */
  const AIR_TO_VACUUM_STEPS: nat := 10

  /** n(λ) = 1 + 2.735182e-4 + 131.4182 / λ² + 2.76249e8 / λ⁴. */
  function RefractiveIndex(lambda: real): (n: real)
    requires lambda != 0.0
    ensures n > 1.0 + INDEX_CONSTANT_TERM
  {
    var square := lambda * lambda;
    assert square > 0.0;
    1.0 + INDEX_CONSTANT_TERM + INDEX_SQUARE_TERM / square + INDEX_FOURTH_POWER_TERM / (square * square)
  }

  /**
   * `vacuumToAir`: λ_air = λ_vac / n(λ_vac). At 0 the code divides by zero,
   * n becomes Infinity and the quotient 0 / Infinity is 0.
   */
  function VacuumToAir(lambdaVac: real): (lambdaAir: real)
    ensures lambdaVac > 0.0 ==> 0.0 < lambdaAir < lambdaVac
    ensures lambdaVac < 0.0 ==> lambdaVac < lambdaAir < 0.0
    ensures lambdaVac == 0.0 ==> lambdaAir == 0.0
  {
    if lambdaVac == 0.0 then 0.0
    else
      var n := RefractiveIndex(lambdaVac);
      QuotientShrinks(lambdaVac, n);
      lambdaVac / n
  }

  /** Dividing by a factor above 1 moves a non-zero value strictly towards 0. */
  lemma QuotientShrinks(x: real, factor: real)
    requires x != 0.0 && factor > 1.0
    ensures x > 0.0 ==> 0.0 < x / factor < x
    ensures x < 0.0 ==> x < x / factor < 0.0
  {
    ScaleAway(x / factor, factor, x);
  }

  /** Scaling by a factor above 1 moves a value strictly away from 0, keeping its sign. */
  lemma ScaleAway(x: real, factor: real, scaled: real)
    requires factor > 1.0 && scaled == x * factor
    ensures x > 0.0 ==> 0.0 < x < scaled
    ensures x < 0.0 ==> scaled < x < 0.0
    ensures x == 0.0 ==> scaled == 0.0
  {
    var excess := factor - 1.0;
    assert scaled - x == x * excess;
    if x < 0.0 {
      assert scaled - x == -((-x) * excess);
      assert (-x) * excess > 0.0;
    }
  }

  /** The value `airToVacuum`'s loop holds after `steps` steps of λ ← λ_air · n(λ), from λ_air. */
  function AirToVacuumAfter(lambdaAir: real, steps: nat): (lambdaVac: real)
    requires lambdaAir != 0.0
    ensures lambdaVac != 0.0
  {
    if steps == 0 then lambdaAir
    else
      var n := RefractiveIndex(AirToVacuumAfter(lambdaAir, steps - 1));
      ScaleAway(lambdaAir, n, lambdaAir * n);
      lambdaAir * n
  }

  /**
   * Every step multiplies λ_air by an index above 1, so after at least one
   * step the value lies strictly further from 0 than λ_air, on the same side.
   */
  lemma AirToVacuumAfterMovesAway(lambdaAir: real, steps: nat)
    requires lambdaAir != 0.0 && steps > 0
    ensures lambdaAir > 0.0 ==> AirToVacuumAfter(lambdaAir, steps) > lambdaAir
    ensures lambdaAir < 0.0 ==> AirToVacuumAfter(lambdaAir, steps) < lambdaAir
  {
    var n := RefractiveIndex(AirToVacuumAfter(lambdaAir, steps - 1));
    ScaleAway(lambdaAir, n, lambdaAir * n);
  }

  /** `airToVacuum`: ten fixed-point steps of λ ← λ_air · n(λ), starting from λ_air. */
  method AirToVacuum(lambdaAir: real) returns (lambdaVac: real)
    requires lambdaAir != 0.0
    ensures lambdaVac == AirToVacuumAfter(lambdaAir, AIR_TO_VACUUM_STEPS)
  {
    lambdaVac := lambdaAir;
    for i := 0 to AIR_TO_VACUUM_STEPS
      invariant lambdaVac == AirToVacuumAfter(lambdaAir, i)
    {
      var n := RefractiveIndex(lambdaVac);
      assert AirToVacuumAfter(lambdaAir, i + 1) == lambdaAir * n;
      lambdaVac := lambdaAir * n;
    }
  }

  /** A fixed point of the iteration is mapped back to λ_air by `VacuumToAir`. */
  lemma FixedPointInvertsVacuumToAir(lambdaAir: real, lambdaVac: real)
    requires lambdaVac != 0.0
    requires lambdaVac == lambdaAir * RefractiveIndex(lambdaVac)
    ensures VacuumToAir(lambdaVac) == lambdaAir
  {
  }

  /** The record avoids JavaScript's NaN case: an air wavelength of 0 converted to vacuum. */
  predicate Displayable(line: EmissionLine, showVacuum: bool) {
    showVacuum && !line.isVacuum ==> line.wavelength != 0.0
  }

  /** Every record that satisfies the unit-system invariant can be displayed in both systems. */
  lemma ConsistentIsDisplayable(line: EmissionLine, showVacuum: bool)
    requires Consistent(line)
    ensures Displayable(line, showVacuum)
  {
  }

  /** A conversion is applied exactly when the record is not already in the requested system. */
  predicate IsConverted(line: EmissionLine, showVacuum: bool) {
    line.isVacuum != showVacuum
  }

  /** `getDisplayWavelength`: the stored wavelength, converted only if its system is not the one shown. */
  function GetDisplayWavelength(line: EmissionLine, showVacuum: bool): (lambda: real)
    requires Displayable(line, showVacuum)
    ensures !IsConverted(line, showVacuum) ==> lambda == line.wavelength
    ensures showVacuum && !line.isVacuum ==> lambda == AirToVacuumAfter(line.wavelength, AIR_TO_VACUUM_STEPS)
    ensures !showVacuum && line.isVacuum ==> lambda == VacuumToAir(line.wavelength)
  {
    if showVacuum then
      if line.isVacuum then line.wavelength else AirToVacuumAfter(line.wavelength, AIR_TO_VACUUM_STEPS)
    else
      if line.isVacuum then VacuumToAir(line.wavelength) else line.wavelength
  }

  /**
   * For a positive wavelength the displayed value differs from the stored one
   * exactly when a conversion applies: air-to-vacuum raises it, vacuum-to-air
   * lowers it.
   */
  lemma DisplayChangesIffConverted(line: EmissionLine, showVacuum: bool)
    requires line.wavelength > 0.0
    ensures GetDisplayWavelength(line, showVacuum) == line.wavelength <==> !IsConverted(line, showVacuum)
    ensures showVacuum ==> GetDisplayWavelength(line, showVacuum) >= line.wavelength
    ensures !showVacuum ==> GetDisplayWavelength(line, showVacuum) <= line.wavelength
  {
    if showVacuum && !line.isVacuum {
      AirToVacuumAfterMovesAway(line.wavelength, AIR_TO_VACUUM_STEPS);
    }
  }
}
