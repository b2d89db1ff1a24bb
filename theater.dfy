/** The theater record and the body that carries it over HTTP. */
module Theaters {

  import opened Optional
  import opened Text

  /** The longest name the `[MaxLength]` column accepts, in UTF-16 code units. */
  const MaxNameLength: nat := 120

  /** A persisted theater; `managerId` is the user who manages it, if any. */
  datatype Theater = Theater(
    id: int,
    name: string,
    address: string,
    seatCount: int,
    managerId: Option<int>)

  /** The request and response body; a client may leave name and address null. */
  datatype TheaterDto = TheaterDto(
    id: int,
    name: Option<string>,
    address: Option<string>,
    seatCount: int,
    managerId: Option<int>)

  /** What a stored theater satisfies: a visible name of at most 120 code units,
      a visible address and at least one seat. */
  predicate WellFormed(t: Theater) {
    && HasVisibleText(t.name)
    && Utf16Length(t.name) <= MaxNameLength
    && HasVisibleText(t.address)
    && t.seatCount > 0
  }

}
