/** The records shared by the naming policy, the split pipeline and the
    CSV reader (src/types.ts). Optional string fields of the naming
    configuration are modelled as strings whose absence is `""`: every use
    in the policy treats `undefined` and `""` alike. */
module Types {
  import opened Outcomes

  /** One row of naming data: column identifier to cell text. */
  type CsvRow = map<string, string>

  datatype NamingStrategy = Default | Custom | Csv | Manual

  datatype NumberLocation = Prefix | Suffix

  datatype NamingConfig = NamingConfig(
    strategy: NamingStrategy,
    customBase: string,
    manualNames: string,
    startNumber: int,
    padding: int,
    numberLocation: NumberLocation,
    csvColumn: string,
    csvHasHeader: bool,
    addNumberToCsv: bool,
    addNumberToManual: bool)

  /** One progress report handed to the `onProgress` callback. */
  datatype ProcessingStatus = ProcessingStatus(
    total: int,
    current: int,
    message: string,
    isComplete: bool,
    error: Option<string>,
    log: seq<string>)
}
