/** The crossword data as the Guardian publishes it (src/models/guardian.rs). */
module Guardian {
  import opened Wrappers

  datatype GuardianCreator = GuardianCreator(name: string, webUrl: string)

  datatype Position = Position(x: int, y: int)

  datatype GuardianDirection = Across | Down

  datatype SeparatorLocations = SeparatorLocations(field: seq<int>)

  datatype Dimensions = Dimensions(cols: int, rows: int)

  /** One clue's placement: it starts at `position` and runs `length` squares in `direction`. */
  datatype GuardianEntry = GuardianEntry(
    id: string,
    number: int,
    humanNumber: string,
    clue: string,
    direction: GuardianDirection,
    length: int,
    group: seq<string>,
    position: Position,
    separatorLocations: SeparatorLocations,
    solution: string)

  datatype GuardianCrossword = GuardianCrossword(
    id: string,
    number: int,
    name: string,
    creator: GuardianCreator,
    date: int,
    webPublicationDate: int,
    entries: seq<GuardianEntry>,
    solutionAvailable: bool,
    dateSolutionAvailable: int,
    dimensions: Dimensions,
    crosswordType: string,
    pdf: string,
    instructions: Option<string>)
}
