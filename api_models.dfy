/** The shapes the HTTP and websocket API exchange (src/models/api_models.rs). */
module ApiModels {
  import opened Wrappers

  datatype CrosswordMetadata = CrosswordMetadata(id: string, series: string, seriesNo: int, date: int)

  /** One edit as a client sends it: a grid position and the letter typed there (or ""). */
  datatype SolutionItemDto = SolutionItemDto(x: int, y: int, value: string)

  datatype Direction = Across | Down

  /** The stable identity of a clue: its number and direction. */
  datatype ClueId = ClueId(number: int, direction: Direction)

  datatype Clue = Clue(number: int, value: string)

  datatype Clues = Clues(across: seq<Clue>, down: seq<Clue>)

  /** A white square: its displayed number, if any, and the (at most two) clues through it. */
  datatype CellData = CellData(number: Option<int>, clueId: ClueId, clueId2: Option<ClueId>)

  datatype Cell = Black | White(cellData: CellData)

  /** A renderable crossword: the grid is row-major, `numberOfColumns` cells per row. */
  datatype CrosswordDto = CrosswordDto(numberOfColumns: int, numberOfRows: int, grid: seq<Cell>, clues: Clues)
}
