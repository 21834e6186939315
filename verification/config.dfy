/** The tunable parameters of the recogniser (the OMRConfig record). */
module OmrConfig {

  /** Every field of the source's configuration record, with its declared type.
      The smoothing and thresholding fields only feed the image preprocessor,
      and gridTolerance, minBubbleArea and partialCredit are read by no step of
      the pipeline; they are kept so that the record is complete. */
  datatype Config = Config(
    blurKernelSize: int,
    thresholdBlockSize: int,
    thresholdC: int,
    minBubbleArea: int,
    maxBubbleArea: int,
    minContourArea: int,
    minQuestions: int,
    minOptions: int,
    gridTolerance: real,
    correctMarkThreshold: real,
    partialCredit: bool)

  /** The values the record takes when nothing overrides them. */
  function DefaultConfig(): Config
  {
    Config(
      blurKernelSize := 5,
      thresholdBlockSize := 11,
      thresholdC := 2,
      minBubbleArea := 50,
      maxBubbleArea := 2000,
      minContourArea := 30,
      minQuestions := 10,
      minOptions := 4,
      gridTolerance := 0.1,
      correctMarkThreshold := 0.3,
      partialCredit := false)
  }

  /** A sensible configuration: positive areas and counts, a non-empty area
      band and a mark threshold strictly between 0 and 1. The recogniser does
      not check it (a configuration file may override any field), so no
      operation requires it. */
  predicate WellFormed(c: Config)
  {
    && c.minContourArea > 0
    && c.minBubbleArea > 0
    && c.minContourArea < c.maxBubbleArea
    && c.minQuestions > 0
    && c.minOptions > 0
    && 0.0 < c.correctMarkThreshold < 1.0
  }

  /** The defaults meet the invariant, and a sheet needs at least 40 accepted
      regions before a grid is attempted. */
  lemma DefaultConfigWellFormed()
    ensures WellFormed(DefaultConfig())
    ensures DefaultConfig().minQuestions * DefaultConfig().minOptions == 40
  {
  }
}
