/** The user record of the local store. */
module Types {
  datatype User = User(
    id: int,
    enabled: bool,
    lastName: string,
    firstName: string,
    middleName: string,
    department: string,
    position: string,
    card: string,           // the primary card, mirrored from cards[0]
    cards: seq<string>,
    cardSeries: string,
    cardNumber: string,
    pinCode: string,
    accessMode: string,
    controllerPort: int,    // the user address in a controller
    validFrom: string,
    validUntil: string,
    telegramArrival: bool,
    telegramDeparture: bool)
}

/** Where a job stands. */
module JobStates {
  datatype JobState = Queued | Running | Completed
}
