/** The JSON-shaped dictionaries the services exchange over HTTP. */
module Json {

  /** The scalar values that occur in packet metadata. */
  datatype Value = Null | Bool(b: bool) | Int(i: int) | Str(s: string)

  /** A Python `dict` with string keys, as sent in a JSON body. */
  type Record = map<string, Value>
}

/** What one `requests.post` call can do: answer with a status code, or raise. */
module Http {

  datatype PostOutcome = Responded(status: int) | Raised
}
