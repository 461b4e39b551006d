/** The HTTP errors the endpoints raise: a status code and the reason the
    `detail` text reports. */
module Http {

  const BadRequest: nat := 400
  const NotFound: nat := 404
  const ServerError: nat := 500

  datatype Reason =
    | NotTrained                            // no fitted pipeline yet
    | SchemaUnavailable                     // no feature columns known yet
    | TrainingError(message: string)        // an exception during training
    | MissingColumns(missing: set<string>)  // required feature columns absent from a request
    | NotCsv                                // uploaded file name lacks the `.csv` suffix
    | NotNumeric(column: string)            // a numerical column that does not convert to numbers
    | BatchError(message: string)           // the upload could not be read or parsed
    | NoRows                                // `predict` refused an upload with no data rows
    | DataFileMissing                       // the training data file does not exist

  datatype HttpError = HttpError(status: nat, reason: Reason)
}
