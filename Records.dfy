/** The stored record and its derived metrics. */
module Records {

  /** The creation time of a record. The clock that produces it is outside the
      model, so a timestamp is only ever copied, never inspected. */
  datatype Timestamp = Timestamp(ticks: int)

  /** The metrics bundle computed from a record's value. */
  datatype StringProperties = StringProperties(
    length: int,
    isPalindrome: bool,
    uniqueCharacters: int,
    wordCount: int,
    sha256Hash: string,
    characterFrequencyMap: map<string, int>)

  /** A stored string; its id is the SHA-256 hash of its value. */
  datatype StringEntry = StringEntry(
    id: string,
    value: string,
    properties: StringProperties,
    createdAt: Timestamp)
}
