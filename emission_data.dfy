/** The canonical emission-line record shared by the normaliser and the table. */
module EmissionData {
  import opened Wrappers

  /** Wavelengths below this many ångström are stored as vacuum wavelengths. */
  const VACUUM_THRESHOLD: real := 2000.0

  /** `parseFloat`: the number a text starts with, or `None` where JavaScript gives `NaN`. */
  type FloatParser = string -> Option<real>

  datatype EmissionLine = EmissionLine(
    id: int,
    wavelength: real,
    wavelengthOriginal: string,
    isVacuum: bool,
    ion: string,
    energyInitial: Option<real>,
    energyFinal: Option<real>,
    configurations: string,
    terms: string,
    jTransition: string,
    transitionType: string,
    ionizationPotential: Option<real>,
    references: string,
    note: string)

  /** The unit-system tag agrees with the magnitude of the stored wavelength. */
  predicate Consistent(line: EmissionLine) {
    line.isVacuum == (line.wavelength < VACUUM_THRESHOLD)
  }
}
